/**
  Overflow of the receive window: blocks pushed out by a jump ahead are lost with
  whatever had been received of them (pkg/rx/ring.go, pkg/rx/aggregator.go).
*/
module Eviction {
  import opened Matrices
  import opened ReedSolomon
  import opened Packets
  import opened Window
  import opened WindowRuns

  // ------------------------------------------------------------------ one admission

  /** The newest of old and new slots: the oldest ones are dropped. */
  lemma {:induction false} NewestFrom(live: seq<Slot>, added: seq<Slot>)
    ensures var drop := if |live| + |added| > RING_SIZE then |live| + |added| - RING_SIZE else 0;
      drop <= |live| ==> Newest(live + added) == live[drop..] + added
    ensures |live| + |added| > RING_SIZE && |added| == RING_SIZE ==> Newest(live + added) == added
  {}

  /** Making room for block b drops the blocks 40 or more behind it and appends empty ones. */
  lemma {:induction false} AdmitDrops(w: Window, k: nat, n: nat, b: nat) returns (drop: nat)
    requires Params(k, n) && Valid(w, k, n) && w.live != [] && w.last.value < b
    ensures drop <= |w.live| && forall i :: 0 <= i < |w.live| ==> (i >= drop <==> b < w.live[i].idx + RING_SIZE)
    ensures Admit(w, n, b).live == w.live[drop..] + EmptySlots(n, b + 1 - NewCount(w, b), NewCount(w, b))
  {
    hide SlotsOk, EmptySlots, Newest;
    var count := NewCount(w, b);
    NewestFrom(w.live, EmptySlots(n, b + 1 - count, count));
    drop := if |w.live| + count > RING_SIZE then |w.live| + count - RING_SIZE else 0;
  }

  /**
    Making room for block b pushes out exactly the blocks 40 or more behind it; what
    stays is unchanged, and all other slots are new and empty.
  */
  lemma {:induction false} EvictedExactlyWhenFarBehind(w: Window, k: nat, n: nat, b: nat, i: nat)
    requires Params(k, n) && Valid(w, k, n) && i < |w.live| && w.last.value < b
    ensures var w' := Admit(w, n, b);
      && (w.live[i] in w'.live <==> b < w.live[i].idx + 40)
      && (w.live[i] !in w'.live ==> w'.live != [] && w.live[i].idx < w'.live[0].idx)
      && forall j :: 0 <= j < |w'.live| ==> w'.live[j] in w.live || w'.live[j] == EmptySlot(n, w'.live[j].idx)
  {
    hide SlotsOk, Admit;
    AdmitIsValid(w, k, n, b);
    var drop := AdmitDrops(w, k, n, b);
    var w', count := Admit(w, n, b), NewCount(w, b);
    var added := EmptySlots(n, b + 1 - count, count);
    assert w'.live[0].idx + |w'.live| == b + 1;
    assert w.live[i].idx + |w.live| == w.last.value + 1 + i;
    if i >= drop {
      assert w'.live[i - drop] == w.live[i];
    }
  }

  // ---------------------------------------------------------------------- one packet

  /** The slot holds data fragment j of block c and has not passed it on. */
  predicate Holds(slot: Slot, k: nat, c: nat, j: nat, body: Vec)
  {
    slot.idx == c && slot.sent <= j < k <= |slot.frags| && slot.frags[j] == body != []
  }

  /** Data fragment j of block c has been received and not been passed on. */
  predicate Waiting(w: Window, k: nat, c: nat, j: nat, body: Vec)
  {
    exists i :: 0 <= i < |w.live| && Holds(w.live[i], k, c, j, body)
  }

  lemma {:induction false} HandOverHas(slot: Slot, from: nat, to: nat, j: nat)
    requires from <= j < to <= |slot.frags| && slot.frags[j] != []
    ensures Handed(slot.idx, j, slot.frags[j]) in HandOver(slot, from, to)
    decreases if from < to then to - from else 0
  {
    if from < j {
      HandOverHas(slot, from + 1, to, j);
    }
  }

  lemma {:induction false} FlushHas(live: seq<Slot>, k: nat, n: nat, i: nat, c: nat, j: nat, body: Vec)
    requires k <= n && SlotsFit(live, n) && i < |live| && Holds(live[i], k, c, j, body)
    ensures Handed(c, j, body) in Flush(live, k, n)
  {
    hide HandOver;
    if i == 0 {
      HandOverHas(live[0], live[0].sent, k, j);
    } else {
      assert live[1..][i - 1] == live[i];
      FlushHas(live[1..], k, n, i - 1, c, j, body);
    }
  }

  /** Storing another fragment at position i: what slot l holds is passed on or stays. */
  lemma {:induction false} StorePassesOrKeeps(w: Window, k: nat, n: nat, i: nat, f: nat, x: Vec,
                                              l: nat, c: nat, j: nat, body: Vec)
    requires Params(k, n) && Valid(w, k, n) && i < |w.live| && x != []
    requires l < |w.live| && Holds(w.live[l], k, c, j, body)
    ensures var (w', out) := StoreAt(w, k, n, i, f, x);
      Handed(c, j, body) in out || Waiting(w', k, c, j, body)
  {
    hide HandOver, Flush, CountPresent, Recovered, RunEnd;
    assert SlotOk(w.live[i], k, n) && SlotOk(w.live[0], k, n);
    var (w', out) := StoreAt(w, k, n, i, f, x);
    if f < n && w.live[i].frags[f] == [] {
      var stored := w.live[i].(frags := w.live[i].frags[f := x]);
      var end := if i == 0 then RunEnd(stored.frags, stored.sent, k) else stored.sent;
      var slot := stored.(sent := end);
      if l == i && j < end {
        HandOverHas(stored, stored.sent, end, j);
      } else if end == k {
        assert w'.live[l - 1] == w.live[l];
      } else if CountPresent(slot.frags, 0, n) < k {
        assert Holds(w'.live[l], k, c, j, body);
      } else {
        StorePassesAll(w, k, n, i, slot, l, c, j, body);
      }
    }
  }

  /** When a block becomes decodable, it and the older ones pass on all they hold. */
  lemma {:induction false} StorePassesAll(w: Window, k: nat, n: nat, i: nat, slot: Slot, l: nat, c: nat, j: nat, body: Vec)
    requires Params(k, n) && Valid(w, k, n) && i < |w.live| && l < |w.live|
    requires |slot.frags| == n && CountPresent(slot.frags, 0, n) >= k
    requires Holds(if l == i then slot else w.live[l], k, c, j, body)
    ensures SlotsFit(w.live[..i], n)
    ensures Handed(c, j, body) in Flush(w.live[..i], k, n) || Handed(c, j, body) in HandOver(Completed(slot, k), slot.sent, k)
            || Waiting(w.(live := w.live[i + 1..]), k, c, j, body)
  {
    hide HandOver, Flush, CountPresent;
    assert forall q :: 0 <= q < |w.live| ==> SlotOk(w.live[q], k, n);
    if l < i {
      assert w.live[..i][l] == w.live[l];
      FlushHas(w.live[..i], k, n, l, c, j, body);
    } else if l == i {
      HandOverHas(Completed(slot, k), slot.sent, k, j);
    } else {
      assert w.live[i + 1..][l - i - 1] == w.live[l];
    }
  }

  /** A packet less than 40 blocks ahead: what is waiting is passed on or goes on waiting. */
  lemma {:induction false} StepPassesOrKeeps(w: Window, k: nat, n: nat, a: Arrival, c: nat, j: nat, body: Vec)
    requires Params(k, n) && Valid(w, k, n) && a.body != []
    requires Waiting(w, k, c, j, body) && a.block < c + RING_SIZE
    ensures var (w', out) := Step(w, k, n, a.block, a.frag, a.body);
      Handed(c, j, body) in out || Waiting(w', k, c, j, body)
  {
    hide StoreAt, Valid, Holds, Admit;
    if !Rejects(w, a.block) {
      var l :| 0 <= l < |w.live| && Holds(w.live[l], k, c, j, body);
      if Find(w.live, a.block) < |w.live| {
        StorePassesOrKeeps(w, k, n, Find(w.live, a.block), a.frag, a.body, l, c, j, body);
      } else {
        AdmitIsValid(w, k, n, a.block);
        var w1 := Admit(w, n, a.block);
        var l1 := AdmitKeeps(w, k, n, a.block, l, c, j, body);
        StorePassesOrKeeps(w1, k, n, |w1.live| - 1, a.frag, a.body, l1, c, j, body);
      }
    }
  }

  lemma {:induction false} AdmitKeeps(w: Window, k: nat, n: nat, b: nat, l: nat, c: nat, j: nat, body: Vec) returns (l1: nat)
    requires Params(k, n) && Valid(w, k, n) && (w.last.Some? ==> w.last.value < b) && b < c + RING_SIZE
    requires l < |w.live| && Holds(w.live[l], k, c, j, body)
    ensures l1 < |Admit(w, n, b).live| && Holds(Admit(w, n, b).live[l1], k, c, j, body)
  {
    hide Admit, SlotsOk;
    EvictedExactlyWhenFarBehind(w, k, n, b, l);
    l1 :| 0 <= l1 < |Admit(w, n, b).live| && Admit(w, n, b).live[l1] == w.live[l];
  }

  /** A packet 40 blocks ahead or more: what is waiting is not passed on, and the floor rises above it. */
  lemma {:induction false} StepEvicts(w: Window, k: nat, n: nat, a: Arrival, c: nat, j: nat, body: Vec)
    requires Params(k, n) && Valid(w, k, n) && Admissible(a)
    requires Waiting(w, k, c, j, body) && a.block >= c + RING_SIZE
    ensures var (w', out) := Step(w, k, n, a.block, a.frag, a.body);
      Handed(c, j, body) !in out && Floor(w') > 256 * c + j
  {
    hide StoreAt, Admit, SlotsOk;
    var l :| 0 <= l < |w.live| && Holds(w.live[l], k, c, j, body);
    assert w.live[l].idx + |w.live| == w.last.value + 1 + l;
    EvictedExactlyWhenFarBehind(w, k, n, a.block, l);
    AdmitIsValid(w, k, n, a.block);
    NotFound(w, a.block);
    var w1 := Admit(w, n, a.block);
    assert Floor(w1) > 256 * c + j;
    StoreRises(w1, k, n, |w1.live| - 1, a.frag, a.body);
  }

  lemma {:induction false} NotFound(w: Window, b: nat)
    requires w.live != [] ==> w.last.Some? && Consecutive(w.live, w.last.value)
    requires w.last.Some? && w.last.value < b
    ensures Find(w.live, b) == |w.live|
  {
    forall i | 0 <= i < |w.live| ensures w.live[i].idx != b {
      assert w.live[i].idx + |w.live| == w.last.value + 1 + i;
    }
  }

  // --------------------------------------------------------------------- whole runs

  /** From the m-th arrival on, one from 40 blocks ahead of c or more found the fragment not yet put out. */
  ghost predicate Overtaken(k: nat, n: nat, arrivals: seq<Arrival>, m: nat, h: Handed)
    requires Params(k, n) && AllAdmissible(arrivals)
  {
    exists l :: m <= l < |arrivals| && arrivals[l].block >= h.block + RING_SIZE && h !in Before(k, n, arrivals, l)
  }

  /** What was handed over before arrival l. */
  ghost function Before(k: nat, n: nat, arrivals: seq<Arrival>, l: nat): seq<Handed>
    requires Params(k, n) && AllAdmissible(arrivals) && l <= |arrivals|
  {
    Run(k, n, arrivals[..l]).out
  }

  /** Put out, waiting, or gone: whether it can still be put out. */
  ghost predicate Safe(k: nat, s: State, h: Handed)
  {
    h in s.out || Waiting(s.w, k, h.block, h.frag, h.body)
  }

  ghost predicate Gone(s: State, h: Handed)
  {
    h !in s.out && Floor(s.w) > Rank(h)
  }

  lemma {:induction false} GoneStays(s: State, k: nat, n: nat, a: Arrival, h: Handed)
    requires Params(k, n) && Valid(s.w, k, n) && Admissible(a) && Gone(s, h)
    ensures var (w, out) := Step(s.w, k, n, a.block, a.frag, a.body); Gone(State(w, s.out + out), h)
  {
    hide Step, Floor;
    StepRises(s.w, k, n, a.block, a.frag, a.body);
  }

  lemma {:induction false} GoneIsNotSafe(s: State, k: nat, n: nat, h: Handed)
    requires Params(k, n) && Valid(s.w, k, n) && Gone(s, h)
    ensures !Safe(k, s, h)
  {
    hide SlotsOk;
    if Waiting(s.w, k, h.block, h.frag, h.body) {
      var l :| 0 <= l < |s.w.live| && Holds(s.w.live[l], k, h.block, h.frag, h.body);
      assert s.w.live[0].idx + |s.w.live| == s.w.last.value + 1;
      assert s.w.live[l].idx + |s.w.live| == s.w.last.value + 1 + l;
      FloorOrder(s.w, k, n, l);
    }
  }

  /**
    A data fragment that is waiting after m arrivals is lost exactly if an arrival from
    40 blocks ahead or more comes before it is put out. Otherwise it is put out, or is
    still waiting in the window at the end.
  */
  lemma {:induction false} LostExactlyWhenOvertaken(k: nat, n: nat, arrivals: seq<Arrival>, m: nat, h: Handed)
    requires Params(k, n) && AllAdmissible(arrivals) && m <= |arrivals|
    requires AllAdmissible(arrivals[..m]) && Waiting(Run(k, n, arrivals[..m]).w, k, h.block, h.frag, h.body)
    ensures Overtaken(k, n, arrivals, m, h) <==> !Safe(k, Run(k, n, arrivals), h)
    ensures Overtaken(k, n, arrivals, m, h) ==> Gone(Run(k, n, arrivals), h)
  {
    hide Step, Floor, Rank, Waiting, Valid;
    if m == |arrivals| {
      assert arrivals[..m] == arrivals;
    } else {
      var q := |arrivals| - 1;
      var before, a := arrivals[..q], arrivals[q];
      assert before[..m] == arrivals[..m] && Admissible(a);
      LostExactlyWhenOvertaken(k, n, before, m, h);
      OvertakenMore(k, n, arrivals, m, h);
      var s := Run(k, n, before);
      OneMoreStep(k, n, s, a, h);
    }
  }

  /** Overtaken before, or by the last arrival. */
  lemma {:induction false} OvertakenMore(k: nat, n: nat, arrivals: seq<Arrival>, m: nat, h: Handed)
    requires Params(k, n) && AllAdmissible(arrivals) && m < |arrivals|
    ensures var q := |arrivals| - 1;
      && AllAdmissible(arrivals[..q])
      && (Overtaken(k, n, arrivals, m, h) <==>
          Overtaken(k, n, arrivals[..q], m, h) ||
          (arrivals[q].block >= h.block + RING_SIZE && h !in Run(k, n, arrivals[..q]).out))
  {
    hide Run;
    var q := |arrivals| - 1;
    forall l | 0 <= l <= q ensures Before(k, n, arrivals, l) == Run(k, n, arrivals[..l]).out
      && Before(k, n, arrivals[..q], l) == Before(k, n, arrivals, l)
    {
      assert arrivals[..q][..l] == arrivals[..l];
    }
    if Overtaken(k, n, arrivals[..q], m, h) {
      var l :| m <= l < q && arrivals[..q][l].block >= h.block + RING_SIZE && h !in Before(k, n, arrivals[..q], l);
      assert arrivals[l] == arrivals[..q][l] && h !in Before(k, n, arrivals, l);
    }
    if Overtaken(k, n, arrivals, m, h) {
      var l :| m <= l < |arrivals| && arrivals[l].block >= h.block + RING_SIZE && h !in Before(k, n, arrivals, l);
      if l < q {
        assert arrivals[l] == arrivals[..q][l] && h !in Before(k, n, arrivals[..q], l);
      }
    }
    if arrivals[q].block >= h.block + RING_SIZE && h !in Run(k, n, arrivals[..q]).out {
      assert h !in Before(k, n, arrivals, q);
    }
  }

  /** One arrival, seen by one fragment. */
  lemma {:induction false} OneMoreStep(k: nat, n: nat, s: State, a: Arrival, h: Handed)
    requires Params(k, n) && Valid(s.w, k, n) && Admissible(a) && (Safe(k, s, h) || Gone(s, h))
    ensures var (w, out) := Step(s.w, k, n, a.block, a.frag, a.body);
      var t := State(w, s.out + out);
      && Valid(w, k, n)
      && (Gone(s, h) || (a.block >= h.block + RING_SIZE && h !in s.out) ==> Gone(t, h) && !Safe(k, t, h))
      && (Safe(k, s, h) && (a.block < h.block + RING_SIZE || h in s.out) ==> Safe(k, t, h))
  {
    hide Step, Floor, Rank, Waiting, Valid;
    StepKeepsValid(s.w, k, n, a.block, a.frag, a.body);
    var (w, out) := Step(s.w, k, n, a.block, a.frag, a.body);
    var t := State(w, s.out + out);
    if Gone(s, h) {
      GoneIsNotSafe(s, k, n, h);
      GoneStays(s, k, n, a, h);
      GoneIsNotSafe(t, k, n, h);
    } else if h !in s.out {
      if a.block >= h.block + RING_SIZE {
        StepEvicts(s.w, k, n, a, h.block, h.frag, h.body);
        RankIs(h);
        GoneIsNotSafe(t, k, n, h);
      } else {
        StepPassesOrKeeps(s.w, k, n, a, h.block, h.frag, h.body);
        assert Handed(h.block, h.frag, h.body) == h;
      }
    }
  }

  lemma {:induction false} RankIs(h: Handed)
    ensures Rank(h) == 256 * h.block + h.frag
  {}

  /** After m arrivals only ranks from the floor on are still handed over. */
  lemma {:induction false} LaterOutputsAboveFloor(k: nat, n: nat, arrivals: seq<Arrival>, m: nat)
    requires Params(k, n) && AllAdmissible(arrivals) && m <= |arrivals|
    ensures AllAdmissible(arrivals[..m])
    ensures var now, later := Run(k, n, arrivals[..m]), Run(k, n, arrivals);
      && Floor(now.w) <= Floor(later.w) && |now.out| <= |later.out| && later.out[..|now.out|] == now.out
      && forall i :: |now.out| <= i < |later.out| ==> Floor(now.w) <= Rank(later.out[i])
  {
    hide Step, Floor, Rank;
    if m == |arrivals| {
      assert arrivals[..m] == arrivals;
    } else {
      var l := |arrivals| - 1;
      LaterOutputsAboveFloor(k, n, arrivals[..l], m);
      assert arrivals[..l][..m] == arrivals[..m];
      var s, a := Run(k, n, arrivals[..l]), arrivals[l];
      StepRises(s.w, k, n, a.block, a.frag, a.body);
    }
  }

  /** A block that has fallen out of the window is never heard of again. */
  lemma {:induction false} BlockBehindIsLost(k: nat, n: nat, arrivals: seq<Arrival>, m: nat, c: nat, i: nat)
    requires Params(k, n) && AllAdmissible(arrivals) && m <= |arrivals| && AllAdmissible(arrivals[..m])
    requires var w := Run(k, n, arrivals[..m]).w; w.live != [] && c < w.live[0].idx
    requires |Run(k, n, arrivals[..m]).out| <= i < |Run(k, n, arrivals).out|
    ensures Run(k, n, arrivals).out[i].block != c
  {
    hide Run;
    LaterOutputsAboveFloor(k, n, arrivals, m);
    RunDataOnly(k, n, arrivals);
  }

  /** The second fragment of a block alone: it waits for the first. */
  lemma {:induction false} SecondFragmentWaits(x: Vec)
    requires x != []
    ensures var w := Window([EmptySlot(2, 0)], Some(0));
      && Valid(w, 2, 2) && StoreAt(w, 2, 2, 0, 1, x) == (w.(live := [Slot(0, [[], x], 0)]), [])
      && Step(Window([], None), 2, 2, 0, 1, x) == StoreAt(w, 2, 2, 0, 1, x)
  {
    var w0, w := Window([], None), Window([EmptySlot(2, 0)], Some(0));
    AdmitIsValid(w0, 2, 2, 0);
    assert Admit(w0, 2, 0).live == w.live;
    var frags := EmptySlot(2, 0).frags[1 := x];
    assert frags == [[], x];
    assert CountPresent(frags, 0, 2) == CountPresent(frags, 0, 1) + 1 && CountPresent(frags, 0, 1) == 0;
    assert w.live[0 := Slot(0, frags, 0)] == [Slot(0, [[], x], 0)];
  }

  /** A block behind the front one with one fragment of two puts nothing out. */
  lemma {:induction false} LoneFragmentStored(w: Window, i: nat, y: Vec)
    requires Valid(w, 2, 2) && 0 < i < |w.live| && w.live[i] == EmptySlot(2, w.live[i].idx) && y != []
    ensures StoreAt(w, 2, 2, i, 0, y).1 == []
  {
    var frags := w.live[i].frags[0 := y];
    assert CountPresent(frags, 0, 2) == CountPresent(frags, 0, 1) == CountPresent(frags, 0, 0) + 1;
  }

  /**
    The condition is met: a fragment received of block 0 is lost when a fragment of
    block 40 arrives, and nothing is put out.
  */
  lemma {:induction false} ReceivedAndLost(x: Vec, y: Vec)
    requires x != [] && y != []
    ensures var arrivals, h := [Arrival(0, 1, x), Arrival(40, 0, y)], Handed(0, 1, x);
      && AllAdmissible(arrivals) && AllAdmissible(arrivals[..1])
      && Waiting(Run(2, 2, arrivals[..1]).w, 2, 0, 1, x)
      && Overtaken(2, 2, arrivals, 1, h) && Gone(Run(2, 2, arrivals), h) && Run(2, 2, arrivals).out == []
  {
    hide Step, StoreAt, Valid, Admit, Floor;
    var arrivals, h := [Arrival(0, 1, x), Arrival(40, 0, y)], Handed(0, 1, x);
    assert arrivals[..1][..0] == [] && arrivals[..1][0] == arrivals[0];
    SecondFragmentWaits(x);
    var w := Run(2, 2, arrivals[..1]).w;
    assert w == Window([Slot(0, [[], x], 0)], Some(0)) && Run(2, 2, arrivals[..1]).out == [];
    assert Holds(w.live[0], 2, 0, 1, x);
    assert h !in Before(2, 2, arrivals, 1);
    LostExactlyWhenOvertaken(2, 2, arrivals, 1, h);
    AdmitIsValid(w, 2, 2, 40);
    NotFound(w, 40);
    var w1 := Admit(w, 2, 40);
    AdmittedFull(w);
    LoneFragmentStored(w1, |w1.live| - 1, y);
    StepIsStoreAtEnd(w, 2, 2, 40, 0, y);
  }

  lemma {:induction false} AdmittedFull(w: Window)
    requires Valid(w, 2, 2) && w.last == Some(0) && |w.live| == 1
    ensures |Admit(w, 2, 40).live| == RING_SIZE
  {}

  lemma {:induction false} StepIsStoreAtEnd(w: Window, k: nat, n: nat, b: nat, f: nat, body: Vec)
    requires Params(k, n) && Valid(w, k, n) && body != [] && w.last.Some? && w.last.value < b
    requires Valid(Admit(w, n, b), k, n) && Admit(w, n, b).live != []
    ensures Step(w, k, n, b, f, body) == StoreAt(Admit(w, n, b), k, n, |Admit(w, n, b).live| - 1, f, body)
  {
    hide StoreAt, Admit;
    NotFound(w, b);
  }
}
