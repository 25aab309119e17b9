/**
  What a transmitter has done, as logs: the frames on air, and every sealing under a
  session key, whether or not the frame then got on air (pkg/tx/transmitter.go).
*/
module TxLog {
  import opened Matrices
  import opened WindowRuns

  /**
    A frame that was injected: a fragment sealed under the key of a session with a
    nonce, or the announcement of a session.
  */
  datatype OnAir = Fragment(session: nat, nonce: nat, body: Vec) | Announcement(session: nat, k: nat, n: nat)

  /** One use of a session key: the nonce, the plaintext, and whether the injection succeeded. */
  datatype Sealing = Sealing(session: nat, nonce: nat, body: Vec, through: bool)

  // ------------------------------------------------------------------ injection results

  /** Every injection still to come succeeds. */
  predicate AllSucceed(outcomes: seq<bool>)
  {
    forall i :: 0 <= i < |outcomes| ==> outcomes[i]
  }

  /** Of at most `max` injections, how many succeed before one fails; after the last result all do. */
  function Lead(outcomes: seq<bool>, max: nat): (c: nat)
    ensures c <= max
  {
    if max == 0 then 0
    else if outcomes == [] then max
    else if outcomes[0] then 1 + Lead(outcomes[1..], max - 1)
    else 0
  }

  /** The results left over after at most `max` injections up to the first failure. */
  function Rest(outcomes: seq<bool>, max: nat): seq<bool>
  {
    if max == 0 || outcomes == [] then outcomes
    else if outcomes[0] then Rest(outcomes[1..], max - 1)
    else outcomes[1..]
  }

  lemma {:induction false} LeadSplit(outcomes: seq<bool>, a: nat, b: nat)
    ensures Lead(outcomes, a + b) == (if Lead(outcomes, a) < a then Lead(outcomes, a) else a + Lead(Rest(outcomes, a), b))
    ensures Rest(outcomes, a + b) == (if Lead(outcomes, a) < a then Rest(outcomes, a) else Rest(Rest(outcomes, a), b))
  {
    if a > 0 && outcomes != [] && outcomes[0] {
      LeadSplit(outcomes[1..], a - 1, b);
    }
  }

  /** After i successes out of at most `total` injections, one more. */
  lemma {:induction false} LeadStep(first: seq<bool>, total: nat, i: nat, now: seq<bool>)
    requires i < total && Lead(first, total) == i + Lead(now, total - i) && Rest(first, total) == Rest(now, total - i)
    ensures Lead(now, 1) == 1 ==>
      Lead(first, total) == i + 1 + Lead(Rest(now, 1), total - (i + 1)) && Rest(first, total) == Rest(Rest(now, 1), total - (i + 1))
    ensures Lead(now, 1) != 1 ==> Lead(first, total) == i && Rest(first, total) == Rest(now, 1)
  {
    LeadSplit(now, 1, total - i - 1);
  }

  lemma {:induction false} LeadOfSuccess(outcomes: seq<bool>, max: nat)
    requires AllSucceed(outcomes)
    ensures Lead(outcomes, max) == max && AllSucceed(Rest(outcomes, max))
  {
    if max > 0 && outcomes != [] {
      LeadOfSuccess(outcomes[1..], max - 1);
    }
  }

  // ---------------------------------------------------------------- nonces go forward

  /** Earlier session, or same session and smaller nonce. */
  predicate Before(s: nat, x: nat, s': nat, x': nat)
  {
    s < s' || (s == s' && x < x')
  }

  /**
    The sealings of a transmitter whose next one has session s and nonce x: a nonce is
    followed by a larger one or a later session if the frame got on air, and is used
    again otherwise.
  */
  predicate Chained(log: seq<Sealing>, s: nat, x: nat)
  {
    log == [] ||
    var m := |log| - 1;
    && Follows(log[m], s, x)
    && Chained(log[..m], log[m].session, log[m].nonce)
  }

  predicate Follows(e: Sealing, s: nat, x: nat)
  {
    if e.through then Before(e.session, e.nonce, s, x)
    else e.session < s || (e.session == s && e.nonce == x)
  }

  lemma {:induction false} ChainedAt(log: seq<Sealing>, s: nat, x: nat, i: nat)
    requires Chained(log, s, x) && i < |log|
    ensures i + 1 < |log| ==> Follows(log[i], log[i + 1].session, log[i + 1].nonce)
    ensures i + 1 == |log| ==> Follows(log[i], s, x)
  {
    var m := |log| - 1;
    if i < m {
      ChainedAt(log[..m], log[m].session, log[m].nonce, i);
    }
  }

  /** No sealing has an earlier session or a smaller nonce than one before it. */
  lemma {:induction false} NeverBack(log: seq<Sealing>, s: nat, x: nat, i: nat, j: nat)
    requires Chained(log, s, x) && i < j < |log|
    ensures !Before(log[j].session, log[j].nonce, log[i].session, log[i].nonce)
    ensures log[i].through ==> Before(log[i].session, log[i].nonce, log[j].session, log[j].nonce)
    decreases j - i
  {
    ChainedAt(log, s, x, i);
    if i + 1 < j {
      NeverBack(log, s, x, i + 1, j);
    }
  }

  /** Each sealing has a later session or a larger nonce than the one before. */
  predicate NoncesRising(log: seq<Sealing>)
  {
    forall i, j :: 0 <= i < j < |log| ==> Before(log[i].session, log[i].nonce, log[j].session, log[j].nonce)
  }

  /** No injection failed before another sealing of its session. */
  predicate NoRetry(log: seq<Sealing>)
  {
    forall i, j :: 0 <= i < j < |log| && !log[i].through ==> log[i].session < log[j].session
  }

  /** The nonces sealed under rise strictly exactly if nothing is sealed after a failure in the same session. */
  lemma {:induction false} NoncesRiseExactlyWithoutRetry(log: seq<Sealing>, s: nat, x: nat)
    requires Chained(log, s, x)
    ensures NoncesRising(log) <==> NoRetry(log)
  {
    if NoncesRising(log) {
      forall i, j | 0 <= i < j < |log| && !log[i].through ensures log[i].session < log[j].session {
        ChainedAt(log, s, x, i);
        assert Before(log[i].session, log[i].nonce, log[i + 1].session, log[i + 1].nonce);
        if i + 1 < j {
          NeverBack(log, s, x, i + 1, j);
        }
      }
    }
    if NoRetry(log) {
      forall i, j | 0 <= i < j < |log| ensures Before(log[i].session, log[i].nonce, log[j].session, log[j].nonce) {
        NeverBack(log, s, x, i, j);
      }
    }
  }

  /** A sealing right after a failed one in the same session uses its nonce again. */
  lemma {:induction false} RetryReusesNonce(log: seq<Sealing>, s: nat, x: nat, i: nat)
    requires Chained(log, s, x) && i + 1 < |log| && !log[i].through && log[i + 1].session == log[i].session
    ensures log[i + 1].nonce == log[i].nonce
  {
    ChainedAt(log, s, x, i);
  }

  // ------------------------------------------------------------------------- on air

  /** The fragments among the frames. */
  function FragmentsOf(air: seq<OnAir>): seq<OnAir>
  {
    if air == [] then []
    else
      var m := |air| - 1;
      FragmentsOf(air[..m]) + (if air[m].Fragment? then [air[m]] else [])
  }

  /** The fragments of one session among the frames. */
  function OfSession(air: seq<OnAir>, session: nat): seq<OnAir>
  {
    if air == [] then []
    else
      var m := |air| - 1;
      OfSession(air[..m], session) + (if air[m].Fragment? && air[m].session == session then [air[m]] else [])
  }

  /** The sealings whose frame got on air, as frames. */
  function Through(log: seq<Sealing>): seq<OnAir>
  {
    if log == [] then []
    else
      var m := |log| - 1;
      Through(log[..m]) + (if log[m].through then [Fragment(log[m].session, log[m].nonce, log[m].body)] else [])
  }

  /** Both logs of a transmitter that goes on with session s and nonce x. */
  predicate Logs(air: seq<OnAir>, log: seq<Sealing>, s: nat, x: nat)
  {
    Chained(log, s, x) && FragmentsOf(air) == Through(log)
  }

  /** (session, nonce) of the fragments on air strictly increase, up to (s, x). */
  predicate Ordered(air: seq<OnAir>, s: nat, x: nat)
  {
    air == [] ||
    var m := |air| - 1;
    match air[m]
    case Fragment(s1, x1, _) => Before(s1, x1, s, x) && Ordered(air[..m], s1, x1)
    case Announcement(_, _, _) => Ordered(air[..m], s, x)
  }

  lemma {:induction false} OrderedLater(air: seq<OnAir>, s: nat, x: nat, s': nat, x': nat)
    requires Ordered(air, s, x) && (Before(s, x, s', x') || (s == s' && x == x'))
    ensures Ordered(air, s', x')
  {
    if air != [] && air[|air| - 1].Announcement? {
      OrderedLater(air[..|air| - 1], s, x, s', x');
    }
  }

  /** What is on air was sealed in that order. */
  lemma {:induction false} AirIsOrdered(air: seq<OnAir>, log: seq<Sealing>, s: nat, x: nat)
    requires Logs(air, log, s, x)
    ensures Ordered(air, s, x)
    decreases |air| + |log|
  {
    if air != [] {
      var m := |air| - 1;
      if air[m].Announcement? {
        AirIsOrdered(air[..m], log, s, x);
      } else {
        var l := |log| - 1;
        var e := log[l];
        if e.through {
          var frame := Fragment(e.session, e.nonce, e.body);
          LastIs(FragmentsOf(air[..m]), air[m], Through(log[..l]), frame);
          AirIsOrdered(air[..m], log[..l], e.session, e.nonce);
        } else {
          assert Through(log) == Through(log[..l]);
          AirIsOrdered(air, log[..l], e.session, e.nonce);
          OrderedLater(air, e.session, e.nonce, s, x);
        }
      }
    }
  }

  lemma {:induction false} LastIs(a: seq<OnAir>, x: OnAir, b: seq<OnAir>, y: OnAir)
    requires a + [x] == b + [y]
    ensures a == b && x == y
  {
    assert (a + [x])[|a|] == x && (b + [y])[|b|] == y;
    assert a == (a + [x])[..|a|] && b == (b + [y])[..|b|];
  }

  /** No two fragments on air share a session key and a nonce: later ones have a larger one. */
  lemma {:induction false} NoncesRise(air: seq<OnAir>, s: nat, x: nat, i: nat, j: nat)
    requires Ordered(air, s, x) && i < j <= |air| && air[i].Fragment? && (j < |air| ==> air[j].Fragment?)
    ensures j < |air| ==> Before(air[i].session, air[i].nonce, air[j].session, air[j].nonce)
    ensures j == |air| ==> Before(air[i].session, air[i].nonce, s, x)
  {
    var m := |air| - 1;
    var last := air[m];
    if last.Fragment? {
      if i < m {
        NoncesRise(air[..m], last.session, last.nonce, i, if j < m then j else m);
      }
    } else {
      NoncesRise(air[..m], s, x, i, if j < m then j else m);
    }
  }

  /** One more sealing: the frame gets on air or not. */
  lemma {:induction false} LogsSealed(air: seq<OnAir>, log: seq<Sealing>, s: nat, x: nat, body: Vec, ok: bool)
    requires Logs(air, log, s, x)
    ensures Logs(if ok then air + [Fragment(s, x, body)] else air, log + [Sealing(s, x, body, ok)], s, if ok then x + 1 else x)
  {
    assert (air + [Fragment(s, x, body)])[..|air|] == air;
    assert (log + [Sealing(s, x, body, ok)])[..|log|] == log;
  }

  lemma {:induction false} LogsAnnounced(air: seq<OnAir>, log: seq<Sealing>, s: nat, x: nat, a: OnAir)
    requires Logs(air, log, s, x) && a.Announcement?
    ensures Logs(air + [a], log, s, x)
  {
    assert (air + [a])[..|air|] == air;
  }

  /** Going on to a later session, or to a larger nonce when the last injection succeeded. */
  lemma {:induction false} LogsLater(air: seq<OnAir>, log: seq<Sealing>, s: nat, x: nat, s': nat, x': nat)
    requires Logs(air, log, s, x) && Before(s, x, s', x')
    requires s < s' || log == [] || log[|log| - 1].through
    ensures Logs(air, log, s', x')
  {}

  // -------------------------------------------------------------- fragments of a session

  lemma {:induction false} OfSessionJoin(a: seq<OnAir>, b: seq<OnAir>, session: nat)
    ensures OfSession(a + b, session) == OfSession(a, session) + OfSession(b, session)
  {
    if b == [] {
      assert a + b == a;
    } else {
      var m := |b| - 1;
      assert (a + b)[..|a + b| - 1] == a + b[..m];
      OfSessionJoin(a, b[..m], session);
    }
  }

  lemma {:induction false} OfSessionAll(a: seq<OnAir>, session: nat)
    requires forall i :: 0 <= i < |a| ==> a[i].Fragment? && a[i].session == session
    ensures OfSession(a, session) == a
  {
    if a != [] {
      OfSessionAll(a[..|a| - 1], session);
    }
  }

  lemma {:induction false} OfSessionNone(a: seq<OnAir>, session: nat)
    requires forall i :: 0 <= i < |a| ==> a[i].Announcement? || a[i].session != session
    ensures OfSession(a, session) == []
  {
    if a != [] {
      OfSessionNone(a[..|a| - 1], session);
    }
  }

  /** Nothing on air belongs to a session still to come. */
  lemma {:induction false} NothingOfLater(air: seq<OnAir>, s: nat, x: nat, later: nat)
    requires Ordered(air, s, x) && s < later
    ensures OfSession(air, later) == []
  {
    if air != [] {
      var m := |air| - 1;
      match air[m] {
        case Fragment(s1, x1, _) => NothingOfLater(air[..m], s1, x1, later);
        case Announcement(_, _, _) => NothingOfLater(air[..m], s, x, later);
      }
    }
  }

  lemma {:induction false} OfSessionHas(air: seq<OnAir>, i: nat)
    requires i < |air| && air[i].Fragment?
    ensures air[i] in OfSession(air, air[i].session)
  {
    var m := |air| - 1;
    if i < m {
      OfSessionHas(air[..m], i);
    }
  }

  /** Fragments as they go on air. */
  function OnAirOf(sent: seq<Arrival>, session: nat): (air: seq<OnAir>)
    ensures |air| == |sent| && AllFragments(air)
  {
    seq(|sent|, i requires 0 <= i < |sent| => Fragment(session, 256 * sent[i].block + sent[i].frag, sent[i].body))
  }

  function Repeated(a: OnAir, count: nat): (air: seq<OnAir>)
    ensures |air| == count
  {
    seq(count, _ => a)
  }

  predicate AllFragments(frames: seq<OnAir>)
  {
    forall i :: 0 <= i < |frames| ==> frames[i].Fragment?
  }

  /** Sealing these frames one after the other until one is not injected: c of them got on air. */
  function SealedBy(frames: seq<OnAir>, c: nat): (log: seq<Sealing>)
    requires AllFragments(frames) && c <= |frames|
    ensures |log| == if c < |frames| then c + 1 else c
  {
    seq(if c < |frames| then c + 1 else c, i requires 0 <= i < |frames| =>
      Sealing(frames[i].session, frames[i].nonce, frames[i].body, i < c))
  }

  /**
    Of a series of frames the first `done` have been sealed and injected: air and log have
    grown by them, and the results used up are theirs.
  */
  predicate PartDone(all: seq<OnAir>, done: nat, air0: seq<OnAir>, air: seq<OnAir>, log0: seq<Sealing>, log: seq<Sealing>,
                     first: seq<bool>, now: seq<bool>)
  {
    && AllFragments(all) && done <= |all|
    && air == air0 + all[..done] && log == log0 + SealedBy(all[..done], done)
    && Lead(first, |all|) == done + Lead(now, |all| - done) && Rest(first, |all|) == Rest(now, |all| - done)
  }

  /** The series is over: all of it is done, or the next frame has failed. */
  predicate SeriesDone(all: seq<OnAir>, c: nat, air0: seq<OnAir>, air: seq<OnAir>, log0: seq<Sealing>, log: seq<Sealing>,
                       first: seq<bool>, now: seq<bool>)
  {
    && AllFragments(all) && c == Lead(first, |all|) && now == Rest(first, |all|)
    && air == air0 + all[..c] && log == log0 + SealedBy(all, c)
  }

  lemma {:induction false} SeriesStarts(all: seq<OnAir>, air: seq<OnAir>, log: seq<Sealing>, first: seq<bool>)
    requires AllFragments(all)
    ensures PartDone(all, 0, air, air, log, log, first, first)
  {}

  /** One more frame, injected or not. */
  lemma {:induction false} SeriesGoesOn(all: seq<OnAir>, done: nat, air0: seq<OnAir>, air: seq<OnAir>, log0: seq<Sealing>, log: seq<Sealing>,
                                        first: seq<bool>, now: seq<bool>)
    requires done < |all| && PartDone(all, done, air0, air, log0, log, first, now) && all[done].Fragment?
    ensures var frame := all[done];
      && (Lead(now, 1) == 1 ==>
           PartDone(all, done + 1, air0, air + [frame], log0, log + [Sealing(frame.session, frame.nonce, frame.body, true)], first, Rest(now, 1)))
      && (Lead(now, 1) != 1 ==>
           SeriesDone(all, done, air0, air, log0, log + [Sealing(frame.session, frame.nonce, frame.body, false)], first, Rest(now, 1)))
  {
    hide Lead, Rest;
    LeadStep(first, |all|, done, now);
  }

  lemma {:induction false} SeriesEnds(all: seq<OnAir>, air0: seq<OnAir>, air: seq<OnAir>, log0: seq<Sealing>, log: seq<Sealing>,
                                      first: seq<bool>, now: seq<bool>)
    requires PartDone(all, |all|, air0, air, log0, log, first, now)
    ensures SeriesDone(all, |all|, air0, air, log0, log, first, now)
  {
    hide SealedBy;
    assert all[..|all|] == all;
    NoMoreLead(now);
  }

  /** The first frame of a series, then the others. */
  lemma {:induction false} SealedFirst(first: OnAir, others: seq<OnAir>, c: nat)
    requires first.Fragment? && AllFragments(others) && c <= |others|
    ensures AllFragments([first] + others)
    ensures SealedBy([first] + others, 1 + c)
         == [Sealing(first.session, first.nonce, first.body, true)] + SealedBy(others, c)
    ensures SealedBy([first] + others, 0) == [Sealing(first.session, first.nonce, first.body, false)]
  {}

  lemma {:induction false} NoMoreLead(outcomes: seq<bool>)
    ensures Lead(outcomes, 0) == 0 && Rest(outcomes, 0) == outcomes
  {}

  lemma {:induction false} NothingMore(air: seq<OnAir>, outcomes: seq<bool>)
    ensures forall more: seq<OnAir> :: air + more[..0] == air
    ensures Lead(outcomes, 0) == 0 && Rest(outcomes, 0) == outcomes
  {}
}
