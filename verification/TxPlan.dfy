/**
  What one call of the transmitter puts on air, and where it leaves the open block,
  whatever injections fail (pkg/tx/transmitter.go).
*/
module TxPlan {
  import opened Matrices
  import opened ReedSolomon
  import opened Packets
  import opened Frames
  import opened Window
  import opened WindowRuns
  import opened Fidelity
  import opened Sender
  import opened TxLog

  /**
    Session, data fragments of its closed blocks and of the open one, the index of the
    next fragment, and `maxPktSize`. From index k on, the open block is among its parity.
  */
  datatype TxState = TxState(session: nat, closed: Blocks, open: Shards, frag: nat, size: nat)

  predicate ClosedOk(closed: Blocks, k: nat)
  {
    forall b :: 0 <= b < |closed| ==> |closed[b]| == k && AllWellFormed(closed[b])
  }

  predicate StateOk(t: TxState, k: nat, n: nat)
  {
    && Params(k, n) && t.frag <= n && |t.closed| < BLOCK_IDX_LIMIT && ClosedOk(t.closed, k) && AllWellFormed(t.open)
    && |t.open| == (if t.frag < k then t.frag else k)
    && BlockSize(t.open) <= t.size <= MAX_FEC_PAYLOAD && (t.frag < k ==> t.size == BlockSize(t.open))
  }

  // ------------------------------------------------------------------------- the plan

  /** After fragment f has been sent: it belongs to the block only below index k. */
  function Placed(t: TxState, k: nat, f: Vec): TxState
  {
    TxState(t.session, t.closed, if t.frag < k then t.open + [f] else t.open, t.frag + 1,
            if |f| > t.size then |f| else t.size)
  }

  /** The parity fragments still to come when all data fragments are there. */
  ghost function Parity(t: TxState, k: nat, n: nat): (out: seq<Arrival>)
    requires StateOk(t, k, n)
    ensures |out| == if t.frag < k then 0 else n - t.frag
  {
    FitAllSizes(t.open, t.size);
    seq(if t.frag < k then 0 else n - t.frag, i requires 0 <= i && k <= t.frag =>
      Arrival(|t.closed|, t.frag + i, CodeShard(k, FitAll(t.open, t.size), t.size, t.frag + i)))
  }

  /** After the last block index another session is announced. */
  function Announcements(t: TxState, k: nat, n: nat): (air: seq<OnAir>)
    requires k <= n
  {
    if t.frag < k || |t.closed| + 1 < BLOCK_IDX_LIMIT then [] else Repeated(Announcement(t.session + 1, k, n), n - k + 1)
  }

  /** What `encodeFECAndSend` puts on air if nothing fails. */
  ghost function ClosePlan(t: TxState, k: nat, n: nat): (air: seq<OnAir>)
    requires StateOk(t, k, n)
    ensures |air| == |Parity(t, k, n)| + |Announcements(t, k, n)|
  {
    OnAirOf(Parity(t, k, n), t.session) + Announcements(t, k, n)
  }

  /** Where c frames of that plan leave the transmitter. */
  function Closed(t: TxState, k: nat, n: nat, c: nat): TxState
  {
    if t.frag < k then t
    else if t.frag + c < n then t.(frag := t.frag + c)
    else if |t.closed| + 1 < BLOCK_IDX_LIMIT then TxState(t.session, t.closed + [t.open], [], 0, 0)
    else TxState(t.session + 1, [], [], 0, 0)
  }

  lemma {:induction false} PlacedOk(t: TxState, k: nat, n: nat, f: Vec)
    requires StateOk(t, k, n) && t.frag < n && WellFormed(f)
    ensures StateOk(Placed(t, k, f), k, n)
  {
    hide ClosedOk;
    OpenMore(t.open, f);
  }

  /** Whatever gets on air, the state stays in order, with a fragment to send next. */
  lemma {:induction false} ClosedStateOk(t: TxState, k: nat, n: nat, c: nat)
    requires StateOk(t, k, n)
    ensures StateOk(Closed(t, k, n, c), k, n) && Closed(t, k, n, c).frag < n
  {}

  /** One more fragment in the open block. */
  lemma {:induction false} OpenMore(open: Shards, f: Vec)
    requires AllWellFormed(open) && WellFormed(f)
    ensures AllWellFormed(open + [f])
    ensures BlockSize(open + [f]) == if |f| > BlockSize(open) then |f| else BlockSize(open)
  {
    SamePrefixSize(open, open + [f], |open|);
  }

  lemma {:induction false} SamePrefixSize(a: Shards, b: Shards, hi: nat)
    requires hi <= |a| <= |b| && a == b[..|a|]
    ensures MaxSize(a, 0, hi) == MaxSize(b, 0, hi)
  {
    if hi > 0 {
      SamePrefixSize(a, b, hi - 1);
    }
  }

  /** The fragments of one call, if nothing fails. */
  ghost function Fragments(t: TxState, k: nat, n: nat, f: Vec): (out: seq<Arrival>)
    requires StateOk(t, k, n) && t.frag < n && WellFormed(f)
    ensures out != []
  {
    PlacedOk(t, k, n, f);
    [Arrival(|t.closed|, t.frag, f)] + Parity(Placed(t, k, f), k, n)
  }

  /** The frames of one call, if nothing fails. */
  ghost function Plan(t: TxState, k: nat, n: nat, f: Vec): (air: seq<OnAir>)
    requires StateOk(t, k, n) && t.frag < n && WellFormed(f)
    ensures |air| >= |Fragments(t, k, n, f)|
  {
    OnAirOf(Fragments(t, k, n, f), t.session) + Announcements(Placed(t, k, f), k, n)
  }

  /** Where a call leaves the transmitter when c frames of its plan get on air. */
  function After(t: TxState, k: nat, n: nat, f: Vec, c: nat): TxState
  {
    if c == 0 then t else Closed(Placed(t, k, f), k, n, c - 1)
  }

  /** The plan is the first fragment and then the plan for closing. */
  lemma {:induction false} PlanSplits(t: TxState, k: nat, n: nat, f: Vec)
    requires StateOk(t, k, n) && t.frag < n && WellFormed(f)
    ensures StateOk(Placed(t, k, f), k, n)
    ensures Plan(t, k, n, f)
         == [Fragment(t.session, 256 * |t.closed| + t.frag, f)] + ClosePlan(Placed(t, k, f), k, n)
  {
    hide Parity, Announcements, StateOk, Placed;
    PlacedOk(t, k, n, f);
    var first, rest := [Arrival(|t.closed|, t.frag, f)], Parity(Placed(t, k, f), k, n);
    assert OnAirOf(first + rest, t.session) == OnAirOf(first, t.session) + OnAirOf(rest, t.session);
    assert OnAirOf(first, t.session) == [Fragment(t.session, 256 * |t.closed| + t.frag, f)];
    PlacedSession(t, k, f);
  }

  lemma {:induction false} PlacedSession(t: TxState, k: nat, f: Vec)
    ensures Placed(t, k, f).session == t.session && Placed(t, k, f).closed == t.closed
  {}

  /** All a call sends, in any state, fits the buffers of a receiver. */
  lemma {:induction false} PlannedFits(t: TxState, k: nat, n: nat, f: Vec, i: nat)
    requires StateOk(t, k, n) && t.frag < n && WellFormed(f) && i < |Fragments(t, k, n, f)|
    ensures 3 <= |Fragments(t, k, n, f)[i].body| <= 3996
  {
    hide CodeShard, BlockSize;
    PlacedOk(t, k, n, f);
    var u := Placed(t, k, f);
    if i > 0 {
      assert Fragments(t, k, n, f)[i] == Parity(u, k, n)[i - 1];
      FitAllSizes(u.open, u.size);
      assert Parity(u, k, n)[i - 1]
          == Arrival(|u.closed|, u.frag + (i - 1), CodeShard(k, FitAll(u.open, u.size), u.size, u.frag + (i - 1)));
    }
  }

  // --------------------------------------------------------------- the abstract sender

  /** The state as the abstract sender sees it: with all data fragments the block is closed. */
  function TxOf(t: TxState, k: nat): Tx
  {
    if t.frag < k then Tx(t.closed, t.open) else Tx(t.closed + [t.open], [])
  }

  lemma {:induction false} TxOfOk(t: TxState, k: nat, n: nat)
    requires StateOk(t, k, n)
    ensures TxOk(TxOf(t, k), k)
  {}

  /** Below index k a call plans just what the abstract sender sends. */
  lemma {:induction false} PlannedIsSent(t: TxState, k: nat, n: nat, f: Vec)
    requires StateOk(t, k, n) && t.frag < k && WellFormed(f)
    ensures TxOk(TxOf(t, k), k)
    ensures SendFragment(TxOf(t, k), k, n, f) == (TxOf(Placed(t, k, f), k), Fragments(t, k, n, f))
  {
    hide CodeShard, BlockSize, FitAll, WellFormed;
    TxOfOk(t, k, n);
    PlacedOk(t, k, n, f);
    var u := Placed(t, k, f);
    var first := [Arrival(|t.closed|, t.frag, f)];
    if u.frag < k {
      assert Parity(u, k, n) == [];
      assert first + [] == first;
    } else {
      SizeOfFull(u, k, n, t, f);
      ParityAtBlockSize(u, k, n);
    }
  }

  lemma {:induction false} ParityAtBlockSize(u: TxState, k: nat, n: nat)
    requires StateOk(u, k, n) && u.frag == k && u.size == BlockSize(u.open)
    ensures Parity(u, k, n) == ParityFragments(k, n, |u.closed|, u.open)
  {
    hide CodeShard, BlockSize, FitAll, AllWellFormed;
    var a, b := Parity(u, k, n), ParityFragments(k, n, |u.closed|, u.open);
    forall i | 0 <= i < n - k ensures a[i] == b[i] {
      assert b[i] == Arrival(|u.closed|, k + i, BodyOf(k, u.open, k + i));
    }
  }

  lemma {:induction false} SizeOfFull(u: TxState, k: nat, n: nat, t: TxState, f: Vec)
    requires StateOk(t, k, n) && t.frag < k && WellFormed(f) && u == Placed(t, k, f)
    ensures u.size == BlockSize(u.open)
  {
    OpenMore(t.open, f);
  }

  /** The fragments of the parity that are not on air yet. */
  function Left(t: TxState, k: nat, n: nat): nat
  {
    if t.frag < k || n < t.frag then 0 else n - t.frag
  }

  /**
    The fragments of the session on air are those the abstract sender sends for these
    operations, but for the parity the open block is still to send.
  */
  ghost predicate Traced(t: TxState, k: nat, n: nat, air: seq<OnAir>, ops: seq<Op>)
    requires Params(k, n)
  {
    var (tx, sent) := SendAll(k, n, ops);
    && tx == TxOf(t, k) && Left(t, k, n) <= |sent|
    && OfSession(air, t.session) == OnAirOf(sent[..|sent| - Left(t, k, n)], t.session)
  }

  /** The frames of a session among the first c of a plan. */
  lemma {:induction false} PlanOfSession(t: TxState, k: nat, n: nat, f: Vec, c: nat)
    requires Params(k, n) && StateOk(t, k, n) && t.frag < n && WellFormed(f) && c <= |Plan(t, k, n, f)|
    ensures var fragments := Fragments(t, k, n, f);
      var m := if c < |fragments| then c else |fragments|;
      && OfSession(Plan(t, k, n, f)[..c], t.session) == OnAirOf(fragments[..m], t.session)
      && OfSession(Plan(t, k, n, f)[..c], t.session + 1) == []
  {
    hide Fragments, Announcements, StateOk, OfSession;
    var fragments, more := Fragments(t, k, n, f), Announcements(Placed(t, k, f), k, n);
    var m := if c < |fragments| then c else |fragments|;
    var a, b := OnAirOf(fragments[..m], t.session), more[..c - m];
    assert Plan(t, k, n, f)[..c] == a + b;
    AnnouncementsOnly(Placed(t, k, f), k, n);
    OfSessionJoin(a, b, t.session);
    OfSessionJoin(a, b, t.session + 1);
    OfSessionAll(a, t.session);
    OfSessionNone(a, t.session + 1);
    OfSessionNone(b, t.session);
    OfSessionNone(b, t.session + 1);
  }

  lemma {:induction false} AnnouncementsOnly(t: TxState, k: nat, n: nat)
    requires k <= n
    ensures forall i :: 0 <= i < |Announcements(t, k, n)| ==> Announcements(t, k, n)[i].Announcement?
  {}

  /** The operations of the session a call leaves the transmitter in. */
  function OpsAfter(ops: seq<Op>, op: Op, t: TxState, t': TxState, c: nat): seq<Op>
  {
    if c == 0 then ops else if t'.session == t.session then ops + [op] else []
  }

  /** A call with the block not full goes on as the abstract sender does, whatever fails. */
  lemma {:induction false} CallIsTraced(t: TxState, k: nat, n: nat, op: Op, air: seq<OnAir>, ops: seq<Op>, c: nat)
    requires StateOk(t, k, n) && t.frag < k && Traced(t, k, n, air, ops) && !(op == FecOnly && t.frag == 0)
    requires c <= |Plan(t, k, n, FragmentOf(op))| && OfSession(air, t.session + 1) == []
    ensures var t' := After(t, k, n, FragmentOf(op), c);
      Traced(t', k, n, air + Plan(t, k, n, FragmentOf(op))[..c], OpsAfter(ops, op, t, t', c))
  {
    hide Plan, SendAll, FragmentOf, OfSession, WellFormed, StateOk, After, OnAirOf, TxOf, Traced;
    var f := FragmentOf(op);
    assert Params(k, n) && t.frag < n by {
      ParamsOf(t, k, n);
    }
    var plan, t' := Plan(t, k, n, f), After(t, k, n, f, c);
    if c == 0 {
      assert air + plan[..0] == air;
      AfterNothing(t, k, n, f);
      assert Traced(t, k, n, air, ops);
    } else {
      PlanOfSession(t, k, n, f, c);
      OfSessionJoin(air, plan[..c], t.session);
      OfSessionJoin(air, plan[..c], t.session + 1);
      if t'.session == t.session {
        TracedParts(t, k, n, air, ops);
        SendMore(t, k, n, op, ops);
        SentMore(t, k, n, f, op, ops, c);
        OnAirMore(SendAll(k, n, ops).1, Fragments(t, k, n, f), Left(t', k, n), t.session);
        MakeTraced(t', k, n, air + plan[..c], ops + [op]);
      } else {
        NextSession(t, k, n, f, c);
        NothingSent(k, n);
        MakeTraced(t', k, n, air + plan[..c], []);
      }
    }
  }

  lemma {:induction false} TracedParts(t: TxState, k: nat, n: nat, air: seq<OnAir>, ops: seq<Op>)
    requires Params(k, n) && Traced(t, k, n, air, ops) && t.frag < k
    ensures SendAll(k, n, ops).0 == TxOf(t, k) && OfSession(air, t.session) == OnAirOf(SendAll(k, n, ops).1, t.session)
  {
    hide SendAll;
    var sent := SendAll(k, n, ops).1;
    assert sent[..|sent|] == sent;
  }

  lemma {:induction false} MakeTraced(t: TxState, k: nat, n: nat, air: seq<OnAir>, ops: seq<Op>)
    requires Params(k, n) && SendAll(k, n, ops).0 == TxOf(t, k)
    requires Left(t, k, n) <= |SendAll(k, n, ops).1|
    requires var sent := SendAll(k, n, ops).1;
      OfSession(air, t.session) == OnAirOf(sent[..|sent| - Left(t, k, n)], t.session)
    ensures Traced(t, k, n, air, ops)
  {}

  lemma {:induction false} ParamsOf(t: TxState, k: nat, n: nat)
    requires StateOk(t, k, n)
    ensures Params(k, n) && (t.frag < k ==> t.frag < n)
  {}

  lemma {:induction false} AfterNothing(t: TxState, k: nat, n: nat, f: Vec)
    ensures After(t, k, n, f, 0) == t
  {}

  lemma {:induction false} NextSession(t: TxState, k: nat, n: nat, f: Vec, c: nat)
    requires k > 0 && After(t, k, n, f, c).session != t.session
    ensures After(t, k, n, f, c) == TxState(t.session + 1, [], [], 0, 0)
    ensures Left(After(t, k, n, f, c), k, n) == 0 && TxOf(After(t, k, n, f, c), k) == Tx([], [])
  {}

  lemma {:induction false} OnAirMore(sent: seq<Arrival>, more: seq<Arrival>, left: nat, session: nat)
    requires left <= |more|
    ensures OnAirOf(sent, session) + OnAirOf(more[..|more| - left], session)
         == OnAirOf((sent + more)[..|sent + more| - left], session)
  {
    assert (sent + more)[..|sent + more| - left] == sent + more[..|more| - left];
  }

  /** A session that has sent nothing yet. */
  lemma {:induction false} NothingTraced(session: nat, k: nat, n: nat, air: seq<OnAir>)
    requires Params(k, n) && OfSession(air, session) == []
    ensures Traced(TxState(session, [], [], 0, 0), k, n, air, []) && StateOk(TxState(session, [], [], 0, 0), k, n)
  {
    NothingSent(k, n);
  }

  lemma {:induction false} NothingSent(k: nat, n: nat)
    requires Params(k, n)
    ensures SendAll(k, n, []) == (Tx([], []), []) && forall s :: OnAirOf([], s) == []
  {}

  /** The abstract sender after one more operation. */
  lemma {:induction false} SendMore(t: TxState, k: nat, n: nat, op: Op, ops: seq<Op>)
    requires StateOk(t, k, n) && t.frag < k && SendAll(k, n, ops).0 == TxOf(t, k) && !(op == FecOnly && t.frag == 0)
    ensures SendAll(k, n, ops + [op])
         == (TxOf(Placed(t, k, FragmentOf(op)), k), SendAll(k, n, ops).1 + Fragments(t, k, n, FragmentOf(op)))
  {
    hide SendFragment, Fragments, FragmentOf, Placed;
    assert (ops + [op])[..|ops|] == ops;
    PlannedIsSent(t, k, n, FragmentOf(op));
  }

  lemma {:induction false} SentMore(t: TxState, k: nat, n: nat, f: Vec, op: Op, ops: seq<Op>, c: nat)
    requires StateOk(t, k, n) && t.frag < k && WellFormed(f) && 0 < c <= |Plan(t, k, n, f)|
    requires After(t, k, n, f, c).session == t.session
    ensures var t', fragments := After(t, k, n, f, c), Fragments(t, k, n, f);
      && TxOf(t', k) == TxOf(Placed(t, k, f), k) && Left(t', k, n) <= |fragments|
      && |fragments| - Left(t', k, n) == (if c < |fragments| then c else |fragments|)
    ensures Left(t, k, n) == 0
  {
    hide WellFormed;
  }

  // ---------------------------------------------------------------- which frames are true

  /** The fragments of the session on air are authentic: those of its blocks, data and parity. */
  lemma {:induction false} OnAirIsAuthentic(t: TxState, k: nat, n: nat, air: seq<OnAir>, ops: seq<Op>) returns (sent: seq<Arrival>)
    requires StateOk(t, k, n) && Traced(t, k, n, air, ops)
    ensures OfSession(air, t.session) == OnAirOf(sent, t.session)
    ensures BlocksOk(BlocksOf(TxOf(t, k)), k) && AllAuthentic(k, n, BlocksOf(TxOf(t, k)), sent)
  {
    hide SendAll, TxOf;
    AllSentIsAuthentic(k, n, ops);
    var all := SendAll(k, n, ops).1;
    sent := all[..|all| - Left(t, k, n)];
  }

  /** The blocks once the fragment of a call belongs to its block, if it does. */
  function BlocksAfter(t: TxState, k: nat, f: Vec): Blocks
  {
    t.closed + [Placed(t, k, f).open]
  }

  lemma {:induction false} BlocksAfterOk(t: TxState, k: nat, n: nat, f: Vec)
    requires StateOk(t, k, n) && t.frag < n && WellFormed(f)
    ensures BlocksOk(BlocksAfter(t, k, f), k)
  {}

  /** A fragment sent under a parity index is authentic only if it happens to be that parity. */
  lemma {:induction false} StrayIsAuthenticExactly(t: TxState, k: nat, n: nat, f: Vec)
    requires StateOk(t, k, n) && k <= t.frag < n && WellFormed(f)
    ensures BlocksOk(BlocksAfter(t, k, f), k)
    ensures Authentic(k, n, BlocksAfter(t, k, f), Arrival(|t.closed|, t.frag, f)) <==> f == BodyOf(k, t.open, t.frag)
  {
    hide CodeShard, BlockSize;
    BlocksAfterOk(t, k, n, f);
    assert BlocksAfter(t, k, f)[|t.closed|] == t.open;
  }

  /** Parity is authentic exactly if it is computed at the size of the block. */
  lemma {:induction false} ParityIsAuthenticExactly(t: TxState, k: nat, n: nat, i: nat)
    requires StateOk(t, k, n) && k <= t.frag && i < n - t.frag && BlocksOk(t.closed + [t.open], k)
    ensures Authentic(k, n, t.closed + [t.open], Parity(t, k, n)[i]) <==> t.size == BlockSize(t.open)
  {
    hide BlockSize, FitAll, AllWellFormed;
    var a := Parity(t, k, n)[i];
    FitAllSizes(t.open, t.size);
    FitAllSizes(t.open, BlockSize(t.open));
    assert (t.closed + [t.open])[|t.closed|] == t.open;
    assert a == Arrival(|t.closed|, t.frag + i, CodeShard(k, FitAll(t.open, t.size), t.size, t.frag + i));
    ParitySize(k, t.open, t.frag + i);
  }

  /** What is authentic with an empty open block behind is authentic without it. */
  lemma {:induction false} LastBlockIrrelevant(k: nat, n: nat, blocks: Blocks, sent: seq<Arrival>)
    requires Params(k, n) && BlocksOk(blocks + [[]], k) && AllAuthentic(k, n, blocks + [[]], sent)
    requires forall i :: 0 <= i < |sent| ==> sent[i].block < |blocks|
    ensures BlocksOk(blocks, k) && AllAuthentic(k, n, blocks, sent)
  {
    hide BodyOf, AllWellFormed, Sendable;
    forall b | 0 <= b < |blocks| ensures blocks[b] == (blocks + [[]])[b] {}
    forall i | 0 <= i < |sent| ensures Authentic(k, n, blocks, sent[i]) {
      assert Authentic(k, n, blocks + [[]], sent[i]);
    }
  }

  lemma {:induction false} FragmentsOfBlock(t: TxState, k: nat, n: nat, f: Vec)
    requires StateOk(t, k, n) && t.frag < n && WellFormed(f)
    ensures forall i :: 0 <= i < |Fragments(t, k, n, f)| ==> Fragments(t, k, n, f)[i].block == |t.closed|
  {
    hide CodeShard, WellFormed, BlockSize;
  }

  lemma {:induction false} PlannedIsAuthentic(t: TxState, k: nat, n: nat, f: Vec)
    requires StateOk(t, k, n) && t.frag < k && WellFormed(f) && BlocksOk(BlocksAfter(t, k, f), k)
    ensures AllAuthentic(k, n, BlocksAfter(t, k, f), Fragments(t, k, n, f))
  {
    hide AllAuthentic, Fragments, WellFormed, StateOk, BlocksOk;
    ParamsOf(t, k, n);
    PlannedIsSent(t, k, n, f);
    FragmentIsData(TxOf(t, k), k, n, f);
    FragmentsOfBlock(t, k, n, f);
    var u := Placed(t, k, f);
    if u.frag < k {
      assert BlocksOf(TxOf(u, k)) == BlocksAfter(t, k, f);
    } else {
      assert BlocksOf(TxOf(u, k)) == BlocksAfter(t, k, f) + [[]];
      LastBlockIrrelevant(k, n, BlocksAfter(t, k, f), Fragments(t, k, n, f));
    }
  }

  /** The parity after a stray fragment: all authentic, or none of it. */
  lemma {:induction false} StrayParity(t: TxState, k: nat, n: nat, f: Vec)
    requires StateOk(t, k, n) && k <= t.frag < n && WellFormed(f) && BlocksOk(BlocksAfter(t, k, f), k)
    ensures |Fragments(t, k, n, f)| == n - t.frag
    ensures forall i :: 0 < i < n - t.frag ==>
      (Authentic(k, n, BlocksAfter(t, k, f), Fragments(t, k, n, f)[i]) <==> Placed(t, k, f).size == BlockSize(t.open))
  {
    hide Authentic, WellFormed, BlockSize, Parity;
    PlacedOk(t, k, n, f);
    var u := Placed(t, k, f);
    forall i | 0 < i < n - t.frag
      ensures Authentic(k, n, BlocksAfter(t, k, f), Fragments(t, k, n, f)[i]) <==> u.size == BlockSize(t.open)
    {
      ParityIsAuthenticExactly(u, k, n, i - 1);
      assert Fragments(t, k, n, f)[i] == Parity(u, k, n)[i - 1];
    }
  }

  /**
    The first c fragments of a call, those that get on air when the injection after them
    fails, are authentic exactly if there are none, or the call came before the data of
    the block was complete, or its fragment is the parity of that index and any parity
    after it has the right size.
  */
  lemma {:induction false} CallIsAuthenticExactly(t: TxState, k: nat, n: nat, f: Vec, c: nat)
    requires StateOk(t, k, n) && t.frag < n && WellFormed(f) && c <= |Fragments(t, k, n, f)|
    ensures BlocksOk(BlocksAfter(t, k, f), k)
    ensures AllAuthentic(k, n, BlocksAfter(t, k, f), Fragments(t, k, n, f)[..c]) <==>
      c == 0 || t.frag < k || (f == BodyOf(k, t.open, t.frag) && (c == 1 || t.size == BlockSize(t.open)))
  {
    hide Authentic, BodyOf, BlockSize, WellFormed, Fragments, BlocksOk, BlocksAfter;
    BlocksAfterOk(t, k, n, f);
    var fragments := Fragments(t, k, n, f);
    if t.frag < k {
      PlannedIsAuthentic(t, k, n, f);
    } else if c > 0 {
      StrayIsAuthenticExactly(t, k, n, f);
      StrayParity(t, k, n, f);
      FirstFragment(t, k, n, f);
      if f == BodyOf(k, t.open, t.frag) {
        ParitySize(k, t.open, t.frag);
      }
      var some := fragments[..c];
      if AllAuthentic(k, n, BlocksAfter(t, k, f), some) {
        assert some[0] == fragments[0] && (c > 1 ==> some[1] == fragments[1]);
        assert Authentic(k, n, BlocksAfter(t, k, f), some[0]) && (c > 1 ==> Authentic(k, n, BlocksAfter(t, k, f), some[1]));
      }
    }
  }

  lemma {:induction false} FirstFragment(t: TxState, k: nat, n: nat, f: Vec)
    requires StateOk(t, k, n) && t.frag < n && WellFormed(f)
    ensures Fragments(t, k, n, f)[0] == Arrival(|t.closed|, t.frag, f)
  {}
}
