/**
  Complete delivery: when blocks become decodable in order and nothing arrives from
  40 or more blocks ahead of one that is not, every data fragment is handed over
  exactly once and in order, whatever is lost, repeated or reordered inside a block.
*/
module Delivery {
  import opened ReedSolomon
  import opened Packets
  import opened Window
  import opened WindowRuns
  import opened Fidelity

  /** The fragments of block b among the arrivals, the first of each index. */
  function Received(arrivals: seq<Arrival>, b: nat, n: nat): (frags: Shards)
    ensures |frags| == n
  {
    if arrivals == [] then EmptySlot(n, b).frags
    else
      var a := arrivals[|arrivals| - 1];
      var r := Received(arrivals[..|arrivals| - 1], b, n);
      if a.block == b && a.frag < n && r[a.frag] == [] then r[a.frag := a.body] else r
  }

  /** k distinct fragments of the block have arrived. */
  predicate Complete(arrivals: seq<Arrival>, b: nat, k: nat, n: nat)
  {
    CountPresent(Received(arrivals, b, n), 0, n) >= k
  }

  /**
    The first fragment is from the first block; a block is complete before any later
    one is, and before anything arrives from 40 or more blocks ahead.
  */
  ghost predicate Orderly(arrivals: seq<Arrival>, k: nat, n: nat)
  {
    arrivals == [] ||
    var m := |arrivals| - 1;
    && Orderly(arrivals[..m], k, n)
    && (m == 0 ==> arrivals[0].block == 0)
    && (forall b: nat :: b + RING_SIZE <= arrivals[m].block ==> Complete(arrivals[..m], b, k, n))
    && (forall b: nat, b': nat :: b < b' && Complete(arrivals, b', k, n) ==> Complete(arrivals, b, k, n))
  }

  // ------------------------------------------------------------ what has arrived

  lemma {:induction false} ReceivedLast(arrivals: seq<Arrival>, a: Arrival, b: nat, n: nat)
    ensures var r := Received(arrivals, b, n);
      Received(arrivals + [a], b, n) ==
        if a.block == b && a.frag < n && r[a.frag] == [] then r[a.frag := a.body] else r
  {
    assert (arrivals + [a])[..|arrivals|] == arrivals;
  }

  lemma {:induction false} CompleteStays(arrivals: seq<Arrival>, a: Arrival, b: nat, k: nat, n: nat)
    requires Complete(arrivals, b, k, n) && a.body != []
    ensures Complete(arrivals + [a], b, k, n)
  {
    ReceivedLast(arrivals, a, b, n);
    var r := Received(arrivals, b, n);
    if a.block == b && a.frag < n && r[a.frag] == [] {
      CountAfterStore(r, a.frag, a.body, n);
    }
  }

  lemma {:induction false} OthersUnchanged(arrivals: seq<Arrival>, a: Arrival, b: nat, n: nat)
    requires a.block != b
    ensures Received(arrivals + [a], b, n) == Received(arrivals, b, n)
  {
    ReceivedLast(arrivals, a, b, n);
  }

  // ------------------------------------------------------------- what is delivered

  /** The first s fragments of block b. */
  function Prefix(blocks: Blocks, b: nat, s: nat): (out: seq<Handed>)
    requires b < |blocks| && s <= |blocks[b]|
    ensures |out| == s
  {
    seq(s, j requires 0 <= j < s => Handed(b, j, blocks[b][j]))
  }

  /** All fragments of the first c blocks, in order. */
  function Whole(blocks: Blocks, c: nat): seq<Handed>
    requires c <= |blocks|
  {
    if c == 0 then [] else Whole(blocks, c - 1) + Prefix(blocks, c - 1, |blocks[c - 1]|)
  }

  /** Handing over true fragments without a gap continues the prefix. */
  lemma {:induction false} HandOverContinues(slot: Slot, from: nat, to: nat, k: nat, blocks: Blocks)
    requires from <= to <= k && slot.idx < |blocks| && DataTrue(slot.frags, k, blocks[slot.idx])
    requires forall j :: from <= j < to ==> slot.frags[j] != []
    requires to <= |blocks[slot.idx]|
    ensures Prefix(blocks, slot.idx, from) + HandOver(slot, from, to) == Prefix(blocks, slot.idx, to)
    decreases if from < to then to - from else 0
  {
    if from < to {
      HandOverContinues(slot, from + 1, to, k, blocks);
      var h := Handed(slot.idx, from, slot.frags[from]);
      assert Prefix(blocks, slot.idx, from) + [h] == Prefix(blocks, slot.idx, from + 1);
      assert HandOver(slot, from, to) == [h] + HandOver(slot, from + 1, to);
      assert Prefix(blocks, slot.idx, from) + ([h] + HandOver(slot, from + 1, to))
          == (Prefix(blocks, slot.idx, from) + [h]) + HandOver(slot, from + 1, to);
    }
  }

  // ---------------------------------------------------------------- the invariant

  /** Slots from block c on, holding what has arrived; only the first has passed any on. */
  ghost predicate InStep(live: seq<Slot>, arrivals: seq<Arrival>, c: nat, n: nat)
  {
    forall i :: 0 <= i < |live| ==>
      live[i].idx == c + i && live[i].frags == Received(arrivals, c + i, n) && SentThere(live[i]) && (i > 0 ==> live[i].sent == 0)
  }

  /** Everything passed on of a slot is in it. */
  predicate SentThere(slot: Slot)
  {
    slot.sent <= |slot.frags| && forall j :: 0 <= j < slot.sent ==> slot.frags[j] != []
  }

  function SentOfFront(live: seq<Slot>): nat
  {
    if live == [] then 0 else live[0].sent
  }

  ghost predicate Delivered(out: seq<Handed>, blocks: Blocks, c: nat, s: nat)
  {
    && c <= |blocks|
    && (s > 0 ==> c < |blocks| && s <= |blocks[c]|)
    && out == Whole(blocks, c) + (if s == 0 then [] else Prefix(blocks, c, s))
  }

  /** Blocks below c are complete and delivered; the window starts at block c. */
  ghost predicate Inv(st: State, arrivals: seq<Arrival>, c: nat, blocks: Blocks, k: nat, n: nat)
  {
    && (forall b: nat :: Complete(arrivals, b, k, n) <==> b < c)
    && (if arrivals == [] then st.w == Window([], None)
        else st.w.last.Some? && c + |st.w.live| == st.w.last.value + 1)
    && (forall b: nat :: c + |st.w.live| <= b ==> Received(arrivals, b, n) == EmptySlot(n, b).frags)
    && InStep(st.w.live, arrivals, c, n)
    && Delivered(st.out, blocks, c, SentOfFront(st.w.live))
  }

  // ------------------------------------------------------------------ one arrival

  /** The window an arrival for block b is stored in: slots c.. up to at least b. */
  ghost predicate Ready(w: Window, arrivals: seq<Arrival>, c: nat, b: nat, k: nat, n: nat)
  {
    && Valid(w, k, n) && w.last.Some? && c + |w.live| == w.last.value + 1
    && c <= b < c + |w.live| && InStep(w.live, arrivals, c, n)
    && (forall q: nat :: c + |w.live| <= q ==> Received(arrivals, q, n) == EmptySlot(n, q).frags)
  }

  lemma {:induction false} FindInStep(live: seq<Slot>, c: nat, b: nat)
    requires forall i :: 0 <= i < |live| ==> live[i].idx == c + i
    ensures Find(live, b) == if c <= b < c + |live| then b - c else |live|
  {
    if live != [] && live[0].idx != b {
      FindInStep(live[1..], c + 1, b);
    }
  }

  /** Room is made without anything falling out. */
  lemma {:induction false} AdmitInStep(st: State, arrivals: seq<Arrival>, c: nat, b: nat, blocks: Blocks, k: nat, n: nat)
    requires Params(k, n) && Valid(st.w, k, n) && Inv(st, arrivals, c, blocks, k, n)
    requires c + |st.w.live| <= b < c + RING_SIZE && (arrivals == [] ==> b == 0)
    ensures st.w.last.Some? ==> st.w.last.value < b
    ensures var w1 := Admit(st.w, n, b);
      && Ready(w1, arrivals, c, b, k, n) && b - c == |w1.live| - 1
      && SentOfFront(w1.live) == SentOfFront(st.w.live)
  {
    hide Delivered, Complete;
    AdmitIsValid(st.w, k, n, b);
    var count := NewCount(st.w, b);
    var added := EmptySlots(n, b + 1 - count, count);
    var w1 := Admit(st.w, n, b);
    assert count == b + 1 - (c + |st.w.live|);
    assert w1.live == st.w.live + added;
    forall i | 0 <= i < |w1.live|
      ensures w1.live[i].idx == c + i && w1.live[i].frags == Received(arrivals, c + i, n)
      ensures SentThere(w1.live[i]) && (i > 0 ==> w1.live[i].sent == 0)
    {
      if i >= |st.w.live| {
        assert w1.live[i] == EmptySlot(n, c + i);
      }
    }
  }

  /** What an arrival for an incomplete block is stored into. */
  ghost function Entered(w: Window, n: nat, b: nat): Window
    requires w.last.Some? && Find(w.live, b) == |w.live| ==> w.last.value < b
  {
    if Find(w.live, b) < |w.live| then w else Admit(w, n, b)
  }

  lemma {:induction false} EnterReady(st: State, arrivals: seq<Arrival>, c: nat, b: nat, blocks: Blocks, k: nat, n: nat)
    requires Params(k, n) && Valid(st.w, k, n) && Inv(st, arrivals, c, blocks, k, n)
    requires c <= b < c + RING_SIZE && (arrivals == [] ==> b == 0)
    ensures !Rejects(st.w, b)
    ensures st.w.last.Some? && Find(st.w.live, b) == |st.w.live| ==> st.w.last.value < b
    ensures var w1 := Entered(st.w, n, b);
      && Ready(w1, arrivals, c, b, k, n)
      && SentOfFront(w1.live) == SentOfFront(st.w.live)
  {
    hide Delivered, Complete, Admit;
    FindInStep(st.w.live, c, b);
    if c + |st.w.live| <= b {
      AdmitInStep(st, arrivals, c, b, blocks, k, n);
    }
  }

  lemma {:induction false} StepIsStore(w: Window, k: nat, n: nat, c: nat, a: Arrival, arrivals: seq<Arrival>)
    requires Params(k, n) && Valid(w, k, n) && a.body != [] && !Rejects(w, a.block)
    requires w.last.Some? && Find(w.live, a.block) == |w.live| ==> w.last.value < a.block
    requires Ready(Entered(w, n, a.block), arrivals, c, a.block, k, n)
    ensures Step(w, k, n, a.block, a.frag, a.body) == StoreAt(Entered(w, n, a.block), k, n, a.block - c, a.frag, a.body)
  {
    hide StoreAt, Admit, Valid;
    var w1 := Entered(w, n, a.block);
    FindInStep(w1.live, c, a.block);
    if Find(w.live, a.block) == |w.live| {
      AdmitIsValid(w, k, n, a.block);
      assert w1.live[|w1.live| - 1].idx == a.block;
    }
  }

  /** Blocks below c are complete, and no others. */
  ghost predicate CompleteBelow(arrivals: seq<Arrival>, c: nat, k: nat, n: nat)
  {
    forall b: nat :: Complete(arrivals, b, k, n) <==> b < c
  }

  ghost predicate NothingFrom(arrivals: seq<Arrival>, top: nat, n: nat)
  {
    forall q: nat :: top <= q ==> Received(arrivals, q, n) == EmptySlot(n, q).frags
  }

  /** Which blocks are complete after an arrival for block b. */
  lemma {:induction false} CompleteAfter(arrivals: seq<Arrival>, a: Arrival, c: nat, k: nat, n: nat)
    requires CompleteBelow(arrivals, c, k, n) && c <= a.block
    ensures Complete(arrivals + [a], a.block, k, n) && a.block == c ==> CompleteBelow(arrivals + [a], c + 1, k, n)
    ensures !Complete(arrivals + [a], a.block, k, n) ==> CompleteBelow(arrivals + [a], c, k, n)
  {
    forall b: nat | b != a.block ensures Complete(arrivals + [a], b, k, n) <==> b < c {
      OthersUnchanged(arrivals, a, b, n);
      assert Complete(arrivals, b, k, n) <==> b < c;
    }
  }

  /** The slots after an arrival for the block at position i. */
  lemma {:induction false} InStepAfter(live: seq<Slot>, arrivals: seq<Arrival>, c: nat, i: nat, a: Arrival, n: nat, slot: Slot)
    requires InStep(live, arrivals, c, n) && i < |live| && a.block == c + i
    requires slot.idx == a.block && slot.frags == Received(arrivals + [a], a.block, n)
    requires SentThere(slot) && (i > 0 ==> slot.sent == 0)
    ensures InStep(live[i := slot], arrivals + [a], c, n)
    ensures i == 0 ==> InStep(live[1..], arrivals + [a], c + 1, n) && SentOfFront(live[1..]) == 0
  {
    forall j | 0 <= j < |live| && j != i ensures live[j].frags == Received(arrivals + [a], c + j, n) {
      OthersUnchanged(arrivals, a, c + j, n);
    }
  }

  lemma {:induction false} NothingFromAfter(arrivals: seq<Arrival>, top: nat, a: Arrival, n: nat)
    requires NothingFrom(arrivals, top, n) && a.block < top
    ensures NothingFrom(arrivals + [a], top, n)
  {
    forall q: nat | top <= q ensures Received(arrivals + [a], q, n) == EmptySlot(n, q).frags {
      OthersUnchanged(arrivals, a, q, n);
    }
  }

  lemma {:induction false} MakeInv(st: State, arrivals: seq<Arrival>, c: nat, blocks: Blocks, k: nat, n: nat)
    requires CompleteBelow(arrivals, c, k, n) && arrivals != []
    requires st.w.last.Some? && c + |st.w.live| == st.w.last.value + 1
    requires NothingFrom(arrivals, c + |st.w.live|, n) && InStep(st.w.live, arrivals, c, n)
    requires Delivered(st.out, blocks, c, SentOfFront(st.w.live))
    ensures Inv(st, arrivals, c, blocks, k, n)
  {}

  /** A fragment that is there already. */
  lemma {:induction false} RepeatKeepsInv(w: Window, out: seq<Handed>, arrivals: seq<Arrival>, c: nat, a: Arrival,
                                          blocks: Blocks, k: nat, n: nat)
    requires Params(k, n) && Ready(w, arrivals, c, a.block, k, n) && CompleteBelow(arrivals, c, k, n)
    requires Delivered(out, blocks, c, SentOfFront(w.live))
    requires a.frag < n && w.live[a.block - c].frags[a.frag] != []
    ensures Inv(State(w, out), arrivals + [a], c, blocks, k, n)
  {
    hide Valid, Delivered;
    var i := a.block - c;
    ReceivedLast(arrivals, a, a.block, n);
    CompleteAfter(arrivals, a, c, k, n);
    assert !Complete(arrivals, a.block, k, n);
    InStepAfter(w.live, arrivals, c, i, a, n, w.live[i]);
    assert w.live[i := w.live[i]] == w.live;
    NothingFromAfter(arrivals, c + |w.live|, a, n);
    MakeInv(State(w, out), arrivals + [a], c, blocks, k, n);
  }

  /** A new fragment of a block behind the front one: it waits. */
  lemma {:induction false} WaitKeepsInv(w: Window, out: seq<Handed>, arrivals: seq<Arrival>, c: nat, a: Arrival,
                                        blocks: Blocks, k: nat, n: nat)
    requires Params(k, n) && Ready(w, arrivals, c, a.block, k, n) && CompleteBelow(arrivals, c, k, n)
    requires Delivered(out, blocks, c, SentOfFront(w.live))
    requires a.frag < n && a.body != [] && c < a.block && w.live[a.block - c].frags[a.frag] == []
    requires Complete(arrivals + [a], a.block, k, n) ==> Complete(arrivals + [a], c, k, n)
    ensures var (w', more) := StoreAt(w, k, n, a.block - c, a.frag, a.body);
      Inv(State(w', out + more), arrivals + [a], c, blocks, k, n)
  {
    hide Delivered, Flush, Recovered, CountPresent, SlotOk;
    var i := a.block - c;
    var stored := w.live[i].(frags := w.live[i].frags[a.frag := a.body]);
    ReceivedLast(arrivals, a, a.block, n);
    OthersUnchanged(arrivals, a, c, n);
    assert !Complete(arrivals, c, k, n) && !Complete(arrivals + [a], a.block, k, n);
    CompleteAfter(arrivals, a, c, k, n);
    HandOverNone(stored, stored.sent);
    assert stored.(sent := stored.sent) == stored;
    InStepAfter(w.live, arrivals, c, i, a, n, stored);
    NothingFromAfter(arrivals, c + |w.live|, a, n);
    var w' := w.(live := w.live[i := stored]);
    assert StoreAt(w, k, n, i, a.frag, a.body) == (w', []);
    assert out + [] == out;
    MakeInv(State(w', out), arrivals + [a], c, blocks, k, n);
  }

  lemma {:induction false} DeliveredMore(out: seq<Handed>, blocks: Blocks, c: nat, s: nat, more: seq<Handed>, e: nat)
    requires Delivered(out, blocks, c, s) && c < |blocks| && s <= e <= |blocks[c]|
    requires Prefix(blocks, c, s) + more == Prefix(blocks, c, e)
    ensures Delivered(out + more, blocks, c, e)
  {
    assert Prefix(blocks, c, 0) == [];
    assert Whole(blocks, c) + Prefix(blocks, c, s) + more == Whole(blocks, c) + (Prefix(blocks, c, s) + more);
    if e == 0 {
      assert more == [];
    }
  }

  lemma {:induction false} DeliveredBlock(out: seq<Handed>, blocks: Blocks, c: nat, k: nat)
    requires c < |blocks| && |blocks[c]| == k > 0 && Delivered(out, blocks, c, k)
    ensures Delivered(out, blocks, c + 1, 0)
  {
    assert out == Whole(blocks, c + 1);
    assert out + [] == out;
  }

  /** The front slot with the new fragment, and the run without gaps passed on. */
  function FrontStored(w: Window, a: Arrival, k: nat): (slot: Slot)
    requires w.live != [] && a.frag < |w.live[0].frags| && w.live[0].sent <= k <= |w.live[0].frags|
  {
    var frags := w.live[0].frags[a.frag := a.body];
    Slot(w.live[0].idx, frags, RunEnd(frags, w.live[0].sent, k))
  }

  /** What holds after a new fragment of the front block, complete or not. */
  lemma {:induction false} FrontFacts(w: Window, out: seq<Handed>, arrivals: seq<Arrival>, c: nat, a: Arrival,
                                      blocks: Blocks, k: nat, n: nat)
    requires Params(k, n) && Ready(w, arrivals, c, a.block, k, n) && CompleteBelow(arrivals, c, k, n)
    requires Delivered(out, blocks, c, SentOfFront(w.live))
    requires BlocksOk(blocks, k) && WindowFaithful(w.live, k, n, blocks) && Authentic(k, n, blocks, a)
    requires a.body != [] && c == a.block && w.live[0].frags[a.frag] == []
    ensures var slot := FrontStored(w, a, k);
      && slot.idx == c && slot.frags == Received(arrivals + [a], c, n)
      && SentThere(slot) && slot.sent <= |blocks[c]|
      && Faithful(k, n, blocks[c], slot.frags)
      && InStep(w.live[0 := slot], arrivals + [a], c, n)
      && InStep(w.live[1..], arrivals + [a], c + 1, n) && SentOfFront(w.live[1..]) == 0
      && Delivered(out + HandOver(slot, w.live[0].sent, slot.sent), blocks, c, slot.sent)
  {
    hide Delivered, CountPresent, HandOver, Faithful, Prefix, BodyOf, InStep, Consecutive;
    assert SlotFaithful(w.live[0], k, n, blocks);
    FrontSlot(w.live, arrivals, c, n);
    var s := w.live[0].sent;
    var slot := FrontStored(w, a, k);
    ReceivedLast(arrivals, a, c, n);
    StoreFaithful(k, n, blocks[c], w.live[0].frags, a.frag, a.body);
    FaithfulIsDataTrue(k, n, blocks[c], slot.frags);
    DeliveredBound(out, blocks, c, s);
    RunWithin(slot.frags, s, slot.sent, k, blocks[c]);
    HandOverContinues(slot, s, slot.sent, k, blocks);
    DeliveredMore(out, blocks, c, s, HandOver(slot, s, slot.sent), slot.sent);
    InStepAfter(w.live, arrivals, c, 0, a, n, slot);
  }

  lemma {:induction false} HandOverSame(a: Slot, b: Slot, from: nat, to: nat)
    requires a.idx == b.idx && a.frags == b.frags && to <= |a.frags|
    ensures HandOver(a, from, to) == HandOver(b, from, to)
    decreases if from < to then to - from else 0
  {
    if from < to {
      HandOverSame(a, b, from + 1, to);
    }
  }

  /** A new fragment of the front block: the run without gaps, or all of it, is passed on. */
  lemma {:induction false} FrontKeepsInv(w: Window, out: seq<Handed>, arrivals: seq<Arrival>, c: nat, a: Arrival,
                                         blocks: Blocks, k: nat, n: nat) returns (c': nat)
    requires Params(k, n) && Ready(w, arrivals, c, a.block, k, n) && CompleteBelow(arrivals, c, k, n)
    requires Delivered(out, blocks, c, SentOfFront(w.live))
    requires BlocksOk(blocks, k) && WindowFaithful(w.live, k, n, blocks) && Authentic(k, n, blocks, a)
    requires a.body != [] && c == a.block && w.live[0].frags[a.frag] == []
    ensures var (w', more) := StoreAt(w, k, n, 0, a.frag, a.body);
      Inv(State(w', out + more), arrivals + [a], c', blocks, k, n)
  {
    hide Delivered, Flush, Recovered, CountPresent, HandOver, Faithful, Prefix, BodyOf, InStep, Consecutive, SentThere;
    hide WindowFaithful, RunEnd;
    FrontFacts(w, out, arrivals, c, a, blocks, k, n);
    NothingFromAfter(arrivals, c + |w.live|, a, n);
    CompleteAfter(arrivals, a, c, k, n);
    var slot := FrontStored(w, a, k);
    var s, end := w.live[0].sent, slot.sent;
    var early := HandOver(slot, s, end);
    HandOverSame(slot, slot.(sent := s), s, end);
    var w' := w.(live := w.live[1..]);
    if end == k {
      c' := c + 1;
      SentAll(slot, k, n);
      DeliveredBlock(out + early, blocks, c, k);
      MakeInv(State(w', out + early), arrivals + [a], c', blocks, k, n);
    } else if CountPresent(slot.frags, 0, n) < k {
      c' := c;
      MakeInv(State(w.(live := w.live[0 := slot]), out + early), arrivals + [a], c', blocks, k, n);
    } else {
      c' := c + 1;
      var rest := HandOver(Completed(slot, k), end, k);
      RecoveredDelivers(out + early, blocks, c, slot, k, n);
      FlushNothing(w.live, k, n);
      assert out + (early + Flush(w.live[..0], k, n) + rest) == out + early + rest;
      MakeInv(State(w', out + early + rest), arrivals + [a], c', blocks, k, n);
    }
  }

  lemma {:induction false} SentAll(slot: Slot, k: nat, n: nat)
    requires SentThere(slot) && slot.sent == k <= n == |slot.frags|
    ensures CountPresent(slot.frags, 0, n) >= k
  {
    PresentAll(slot.frags, k, n);
  }

  lemma {:induction false} RecoveredDelivers(out: seq<Handed>, blocks: Blocks, c: nat, slot: Slot, k: nat, n: nat)
    requires Params(k, n) && BlocksOk(blocks, k) && c < |blocks| && slot.idx == c && slot.sent <= k
    requires |slot.frags| == n
    requires Faithful(k, n, blocks[c], slot.frags) && CountPresent(slot.frags, 0, n) >= k
    requires Delivered(out, blocks, c, slot.sent)
    ensures Delivered(out + HandOver(Completed(slot, k), slot.sent, k), blocks, c + 1, 0)
  {
    hide Delivered, Recovered, HandOver, Faithful, Prefix;
    RecoveryIsExact(k, n, blocks[c], slot.frags);
    var t := Completed(slot, k);
    WholeAfterRecovery(t, slot.sent, k, blocks);
    DeliveredMore(out, blocks, c, slot.sent, HandOver(t, slot.sent, k), k);
    DeliveredBlock(out + HandOver(t, slot.sent, k), blocks, c, k);
  }

  lemma {:induction false} FrontSlot(live: seq<Slot>, arrivals: seq<Arrival>, c: nat, n: nat)
    requires InStep(live, arrivals, c, n) && live != []
    ensures live[0].idx == c && live[0].frags == Received(arrivals, c, n) && SentThere(live[0])
  {}

  lemma {:induction false} FlushNothing(live: seq<Slot>, k: nat, n: nat)
    requires k <= n
    ensures SlotsFit(live[..0], n) && Flush(live[..0], k, n) == []
  {}

  lemma {:induction false} DeliveredBound(out: seq<Handed>, blocks: Blocks, c: nat, s: nat)
    requires Delivered(out, blocks, c, s) && c < |blocks|
    ensures s <= |blocks[c]|
  {}

  lemma {:induction false} RunWithin(frags: Shards, s: nat, end: nat, k: nat, d: Shards)
    requires s <= end <= k <= |frags| && DataTrue(frags, k, d) && s <= |d|
    requires forall j :: s <= j < end ==> frags[j] != []
    ensures end <= |d|
    ensures end == k && s < end ==> |d| >= k
  {
    if s < end {
      assert frags[end - 1] != [];
    }
  }

  /** A slot whose data fragments are all there is complete. */
  lemma {:induction false} PresentAll(frags: Shards, k: nat, n: nat)
    requires k <= n == |frags| && forall i :: 0 <= i < k ==> frags[i] != []
    ensures CountPresent(frags, 0, n) >= k
  {
    CountRun(frags, k);
    CountSplit(frags, 0, k, n);
  }

  lemma {:induction false} CountRun(frags: Shards, k: nat)
    requires k <= |frags| && forall i :: 0 <= i < k ==> frags[i] != []
    ensures CountPresent(frags, 0, k) == k
  {
    if k > 0 {
      CountRun(frags, k - 1);
    }
  }

  lemma {:induction false} WholeAfterRecovery(t: Slot, end: nat, k: nat, blocks: Blocks)
    requires end <= k <= |t.frags| && t.idx < |blocks| && |blocks[t.idx]| == k && AllWellFormed(blocks[t.idx])
    requires forall i :: 0 <= i < k ==> t.frags[i] == blocks[t.idx][i]
    ensures Prefix(blocks, t.idx, end) + HandOver(t, end, k) == Prefix(blocks, t.idx, k)
  {
    assert forall i :: 0 <= i < k ==> WellFormed(blocks[t.idx][i]);
    HandOverContinues(t, end, k, k, blocks);
  }

  lemma {:induction false} NothingComplete(b: nat, k: nat, n: nat)
    requires Params(k, n)
    ensures !Complete([], b, k, n)
  {
    NothingPresent(EmptySlot(n, b).frags, n);
  }

  /** A fragment of a block that is delivered already changes nothing. */
  lemma {:induction false} LateKeepsInv(st: State, arrivals: seq<Arrival>, c: nat, a: Arrival, blocks: Blocks, k: nat, n: nat)
    requires Params(k, n) && Valid(st.w, k, n) && Inv(st, arrivals, c, blocks, k, n)
    requires a.body != [] && a.block < c
    ensures Rejects(st.w, a.block) && Inv(st, arrivals + [a], c, blocks, k, n)
  {
    hide Delivered, Valid;
    FindInStep(st.w.live, c, a.block);
    if arrivals == [] {
      NothingComplete(a.block, k, n);
    }
    forall b: nat | b != a.block
      ensures Received(arrivals + [a], b, n) == Received(arrivals, b, n)
    {
      OthersUnchanged(arrivals, a, b, n);
    }
    CompleteStays(arrivals, a, a.block, k, n);
    forall b: nat ensures Complete(arrivals + [a], b, k, n) <==> b < c {
      assert Complete(arrivals, b, k, n) <==> b < c;
    }
    MakeInv(st, arrivals + [a], c, blocks, k, n);
  }

  /** One arrival. */
  lemma {:induction false} StepKeepsInv(st: State, arrivals: seq<Arrival>, c: nat, a: Arrival,
                                        blocks: Blocks, k: nat, n: nat) returns (c': nat)
    requires Params(k, n) && Valid(st.w, k, n) && Inv(st, arrivals, c, blocks, k, n)
    requires BlocksOk(blocks, k) && WindowFaithful(st.w.live, k, n, blocks) && Authentic(k, n, blocks, a) && a.body != []
    requires arrivals == [] ==> a.block == 0
    requires c + RING_SIZE <= a.block ==> Complete(arrivals, c, k, n)
    requires c < a.block && Complete(arrivals + [a], a.block, k, n) ==> Complete(arrivals + [a], c, k, n)
    ensures var (w, out) := Step(st.w, k, n, a.block, a.frag, a.body);
      Inv(State(w, st.out + out), arrivals + [a], c', blocks, k, n)
  {
    hide Delivered, Valid, StoreAt, WindowFaithful, SlotFaithful;
    if a.block < c {
      c' := c;
      LateKeepsInv(st, arrivals, c, a, blocks, k, n);
      assert st.out + [] == st.out;
    } else {
      assert Complete(arrivals, c, k, n) <==> c < c;
      EnterReady(st, arrivals, c, a.block, blocks, k, n);
      var w1 := Entered(st.w, n, a.block);
      StepIsStore(st.w, k, n, c, a, arrivals);
      EnteredFaithful(st.w, k, n, a.block, blocks);
      c' := StoreKeepsInv(w1, st.out, arrivals, c, a, blocks, k, n);
    }
  }

  lemma {:induction false} EnteredFaithful(w: Window, k: nat, n: nat, b: nat, blocks: Blocks)
    requires Params(k, n) && Valid(w, k, n) && BlocksOk(blocks, k) && b < |blocks|
    requires WindowFaithful(w.live, k, n, blocks)
    requires w.last.Some? && Find(w.live, b) == |w.live| ==> w.last.value < b
    ensures WindowFaithful(Entered(w, n, b).live, k, n, blocks)
  {
    if Find(w.live, b) == |w.live| {
      AdmitFaithful(w, k, n, b, blocks);
    }
  }

  lemma {:induction false} StoreKeepsInv(w: Window, out: seq<Handed>, arrivals: seq<Arrival>, c: nat, a: Arrival,
                                         blocks: Blocks, k: nat, n: nat) returns (c': nat)
    requires Params(k, n) && Ready(w, arrivals, c, a.block, k, n) && CompleteBelow(arrivals, c, k, n)
    requires Delivered(out, blocks, c, SentOfFront(w.live))
    requires BlocksOk(blocks, k) && WindowFaithful(w.live, k, n, blocks) && Authentic(k, n, blocks, a) && a.body != []
    requires c < a.block && Complete(arrivals + [a], a.block, k, n) ==> Complete(arrivals + [a], c, k, n)
    ensures var (w', more) := StoreAt(w, k, n, a.block - c, a.frag, a.body);
      Inv(State(w', out + more), arrivals + [a], c', blocks, k, n)
  {
    var i := a.block - c;
    c' := c;
    if w.live[i].frags[a.frag] != [] {
      hide Delivered, InStep, Inv;
      RepeatKeepsInv(w, out, arrivals, c, a, blocks, k, n);
      assert out + [] == out;
    } else if c < a.block {
      hide StoreAt, Delivered, Inv;
      WaitKeepsInv(w, out, arrivals, c, a, blocks, k, n);
    } else {
      hide StoreAt, Delivered, Inv;
      c' := FrontKeepsInv(w, out, arrivals, c, a, blocks, k, n);
    }
  }

  /** The state after a run, and how many blocks are delivered. */
  lemma {:induction false} RunKeepsInv(arrivals: seq<Arrival>, blocks: Blocks, k: nat, n: nat) returns (c: nat)
    requires Params(k, n) && BlocksOk(blocks, k) && AllAuthentic(k, n, blocks, arrivals) && Orderly(arrivals, k, n)
    ensures AllAdmissible(arrivals) && Inv(Run(k, n, arrivals), arrivals, c, blocks, k, n)
  {
    hide Step, Authentic, AllTrue, WindowFaithful, Inv, Complete;
    AuthenticRunsAdmissible(k, n, blocks, arrivals);
    if arrivals == [] {
      c := 0;
      InvInitially(blocks, k, n);
    } else {
      var m := |arrivals| - 1;
      var before, a := arrivals[..m], arrivals[m];
      assert before + [a] == arrivals && Admissible(a);
      var c0 := RunKeepsInv(before, blocks, k, n);
      NothingInventedOrAltered(k, n, blocks, before);
      assert before == [] ==> a.block == 0;
      c := StepKeepsInv(Run(k, n, before), before, c0, a, blocks, k, n);
    }
  }

  lemma {:induction false} InvInitially(blocks: Blocks, k: nat, n: nat)
    requires Params(k, n)
    ensures Inv(Initial(), [], 0, blocks, k, n)
  {
    forall b: nat ensures !Complete([], b, k, n) {
      NothingComplete(b, k, n);
    }
  }

  // ------------------------------------------------------------- the final theorem

  /** What has arrived of a block is what was sent of it. */
  lemma {:induction false} ReceivedIsFaithful(arrivals: seq<Arrival>, b: nat, blocks: Blocks, k: nat, n: nat)
    requires Params(k, n) && BlocksOk(blocks, k) && AllAuthentic(k, n, blocks, arrivals)
    ensures b < |blocks| ==> Faithful(k, n, blocks[b], Received(arrivals, b, n))
    ensures b >= |blocks| ==> Received(arrivals, b, n) == EmptySlot(n, b).frags
  {
    hide Authentic, Faithful, BodyOf, Sendable;
    if arrivals == [] {
      if b < |blocks| {
        EmptyFaithful(k, n, b, blocks);
      }
    } else {
      var m := |arrivals| - 1;
      var a := arrivals[m];
      ReceivedIsFaithful(arrivals[..m], b, blocks, k, n);
      assert Authentic(k, n, blocks, a);
      AuthenticParts(k, n, blocks, a);
      if a.block == b {
        StoreFaithful(k, n, blocks[b], Received(arrivals[..m], b, n), a.frag, a.body);
      }
    }
  }

  lemma {:induction false} AuthenticParts(k: nat, n: nat, blocks: Blocks, a: Arrival)
    requires Params(k, n) && BlocksOk(blocks, k) && Authentic(k, n, blocks, a)
    ensures a.block < |blocks| && AllWellFormed(blocks[a.block]) && a.frag < n
    ensures Sendable(k, n, blocks[a.block], a.frag) && a.body == BodyOf(k, blocks[a.block], a.frag)
  {}

  /** Only closed blocks can become complete. */
  lemma {:induction false} CompleteMeansClosed(arrivals: seq<Arrival>, b: nat, blocks: Blocks, k: nat, n: nat)
    requires Params(k, n) && BlocksOk(blocks, k) && AllAuthentic(k, n, blocks, arrivals)
    requires Complete(arrivals, b, k, n)
    ensures b < |blocks| && |blocks[b]| == k
  {
    hide Faithful;
    ReceivedIsFaithful(arrivals, b, blocks, k, n);
    if b < |blocks| {
      EnoughMeansClosed(k, n, blocks[b], Received(arrivals, b, n));
    } else {
      NothingPresent(EmptySlot(n, b).frags, n);
    }
  }

  lemma {:induction false} NextIncomplete(st: State, arrivals: seq<Arrival>, c: nat, blocks: Blocks, k: nat, n: nat)
    requires Inv(st, arrivals, c, blocks, k, n)
    ensures !Complete(arrivals, c, k, n)
  {}

  /**
    If the arrivals are orderly and every closed block gets k of its fragments, what is
    handed over is every data fragment of the closed blocks, once and in order, and
    then the first fragments of the open block.
  */
  lemma {:induction false} EverythingDelivered(arrivals: seq<Arrival>, blocks: Blocks, closed: nat, k: nat, n: nat)
    returns (s: nat)
    requires Params(k, n) && BlocksOk(blocks, k) && AllAuthentic(k, n, blocks, arrivals) && Orderly(arrivals, k, n)
    requires closed <= |blocks| && forall b :: closed <= b < |blocks| ==> |blocks[b]| < k
    requires forall b :: 0 <= b < closed ==> Complete(arrivals, b, k, n)
    ensures AllAdmissible(arrivals)
    ensures s > 0 ==> closed < |blocks| && s <= |blocks[closed]|
    ensures Run(k, n, arrivals).out == Whole(blocks, closed) + (if s == 0 then [] else Prefix(blocks, closed, s))
  {
    hide Authentic, Faithful;
    var c := RunKeepsInv(arrivals, blocks, k, n);
    if closed < c {
      assert Complete(arrivals, closed, k, n) <==> closed < c;
      CompleteMeansClosed(arrivals, closed, blocks, k, n);
    }
    NextIncomplete(Run(k, n, arrivals), arrivals, c, blocks, k, n);
    s := SentOfFront(Run(k, n, arrivals).w.live);
  }
}
