/**
  Runs of the receive window over any fragments: what each packet keeps, and that
  output goes strictly forward.
*/
module WindowRuns {
  import opened Matrices
  import opened ReedSolomon
  import opened Packets
  import opened Window

  /** A received fragment with an authentic block and fragment index. */
  datatype Arrival = Arrival(block: nat, frag: nat, body: Vec)

  predicate Admissible(a: Arrival)
  {
    a.frag < 256 && a.body != []
  }

  predicate AllAdmissible(arrivals: seq<Arrival>)
  {
    forall i :: 0 <= i < |arrivals| ==> Admissible(arrivals[i])
  }

  /** A window and everything handed over so far. */
  datatype State = State(w: Window, out: seq<Handed>)

  function Initial(): State { State(Window([], None), []) }

  /** A whole run. */
  ghost function Run(k: nat, n: nat, arrivals: seq<Arrival>): (s: State)
    requires Params(k, n) && AllAdmissible(arrivals)
    ensures Valid(s.w, k, n)
  {
    if arrivals == [] then Initial()
    else
      var m := |arrivals| - 1;
      var s := Run(k, n, arrivals[..m]);
      var a := arrivals[m];
      assert Admissible(a);
      StepKeepsValid(s.w, k, n, a.block, a.frag, a.body);
      var (w, out) := Step(s.w, k, n, a.block, a.frag, a.body);
      State(w, s.out + out)
  }

  // ------------------------------------------------------- what every packet keeps

  lemma {:induction false} TailConsecutive(live: seq<Slot>, top: nat, i: nat)
    requires i <= |live| && Consecutive(live, top)
    ensures Consecutive(live[i..], top)
  {}

  /** Between packets the window holds consecutive blocks, none of them decodable. */
  lemma {:induction false} StoreKeepsValid(w: Window, k: nat, n: nat, i: nat, f: nat, body: Vec)
    requires Params(k, n) && Valid(w, k, n) && i < |w.live| && body != []
    ensures Valid(StoreAt(w, k, n, i, f, body).0, k, n)
    ensures StoreAt(w, k, n, i, f, body).0.last == w.last
  {
    hide Flush, HandOver, Completed, CountPresent;
    if f < n && w.live[i].frags[f] == [] {
      TailConsecutive(w.live, w.last.value, 1);
      TailConsecutive(w.live, w.last.value, i + 1);
    }
  }

  lemma {:induction false} StepKeepsValid(w: Window, k: nat, n: nat, b: nat, f: nat, body: Vec)
    requires Params(k, n) && Valid(w, k, n) && body != []
    ensures Valid(Step(w, k, n, b, f, body).0, k, n)
  {
    hide StoreAt, Valid, Admit;
    if !Rejects(w, b) {
      if Find(w.live, b) < |w.live| {
        StoreKeepsValid(w, k, n, Find(w.live, b), f, body);
      } else {
        AdmitIsValid(w, k, n, b);
        var w1 := Admit(w, n, b);
        StoreKeepsValid(w1, k, n, |w1.live| - 1, f, body);
      }
    }
  }

  // ------------------------------------------------------------ output goes forward

  /** The order of (block, fragment) pairs, as the data nonce encodes it. */
  function Rank(h: Handed): nat { 256 * h.block + h.frag }

  /** Strictly increasing, from `lo` on and below `hi`. */
  predicate Rising(out: seq<Handed>, lo: nat, hi: nat)
  {
    && (forall i :: 0 <= i < |out| ==> lo <= Rank(out[i]) < hi)
    && (forall i, j :: 0 <= i < j < |out| ==> Rank(out[i]) < Rank(out[j]))
  }

  lemma {:induction false} RisingJoin(a: seq<Handed>, b: seq<Handed>, lo: nat, mid: nat, hi: nat)
    requires Rising(a, lo, mid) && Rising(b, mid, hi) && lo <= mid <= hi
    ensures Rising(a + b, lo, hi)
  {
    hide Rank;
  }

  lemma {:induction false} RisingWidens(a: seq<Handed>, lo: nat, hi: nat, lo': nat, hi': nat)
    requires Rising(a, lo, hi) && lo' <= lo && hi <= hi'
    ensures Rising(a, lo', hi')
  {
    hide Rank;
  }

  lemma {:induction false} OneRises(h: Handed)
    ensures Rising([h], Rank(h), Rank(h) + 1) && Rank(h) == 256 * h.block + h.frag
  {}

  lemma {:induction false} HandOverRises(slot: Slot, from: nat, to: nat)
    requires to <= |slot.frags| <= 255
    ensures Rising(HandOver(slot, from, to), 256 * slot.idx + from, 256 * slot.idx + (if from < to then to else from))
    decreases if from < to then to - from else 0
  {
    hide Rising, Rank;
    var base := 256 * slot.idx;
    if from >= to {
      NothingRises(base + from);
    } else {
      HandOverRises(slot, from + 1, to);
      var rest := HandOver(slot, from + 1, to);
      if slot.frags[from] == [] {
        assert HandOver(slot, from, to) == rest;
        RisingWidens(rest, base + from + 1, base + to, base + from, base + to);
      } else {
        var h := Handed(slot.idx, from, slot.frags[from]);
        OneRises(h);
        RisingJoin([h], rest, base + from, base + from + 1, base + to);
      }
    }
  }

  /** The least rank that may still be handed over. */
  function Floor(w: Window): nat
  {
    if w.live != [] then 256 * w.live[0].idx + w.live[0].sent
    else if w.last.Some? then 256 * (w.last.value + 1)
    else 0
  }

  lemma {:induction false} FlushRises(live: seq<Slot>, k: nat, n: nat, top: nat)
    requires Params(k, n) && SlotsOk(live, k, n) && Consecutive(live, top) && live != []
    ensures SlotsFit(live, n)
    ensures Rising(Flush(live, k, n), 256 * live[0].idx + live[0].sent, 256 * (top + 1))
    decreases |live|
  {
    hide HandOver, Rising;
    assert SlotsFit(live, n);
    HandOverRises(live[0], live[0].sent, k);
    var head := HandOver(live[0], live[0].sent, k);
    var lo, mid := 256 * live[0].idx + live[0].sent, 256 * live[0].idx + k;
    if |live| == 1 {
      assert Flush(live, k, n) == head + Flush(live[1..], k, n);
      assert live[1..] == [] && Flush(live[1..], k, n) == [];
      assert head + [] == head;
      RisingWidens(head, lo, mid, lo, 256 * (top + 1));
    } else {
      TailConsecutive(live, top, 1);
      assert SlotsOk(live[1..], k, n);
      FlushRises(live[1..], k, n, top);
      var rest := Flush(live[1..], k, n);
      var next := 256 * live[1].idx + live[1].sent;
      assert live[1].idx == live[0].idx + 1;
      RisingWidens(head, lo, mid, lo, next);
      RisingJoin(head, rest, lo, next, 256 * (top + 1));
    }
  }

  /** Completing a slot behind i older ones: first what is left of those, then its own. */
  lemma {:induction false} CompletionRises(w: Window, k: nat, n: nat, i: nat, slot: Slot)
    requires Params(k, n) && Valid(w, k, n) && i < |w.live|
    requires slot.idx == w.live[i].idx && |slot.frags| == n && w.live[i].sent <= slot.sent < k
    ensures SlotsFit(w.live[..i], n)
    ensures var w' := w.(live := w.live[i + 1..]);
      var lo := if i == 0 then 256 * slot.idx + slot.sent else Floor(w);
      lo <= Floor(w') && Rising(Flush(w.live[..i], k, n) + HandOver(slot, slot.sent, k), lo, Floor(w'))
  {
    hide Rising, HandOver, CountPresent;
    var base := 256 * slot.idx;
    var w' := w.(live := w.live[i + 1..]);
    FloorOfTail(w, k, n, i + 1);
    FloorOrder(w, k, n, i);
    HandOverRises(slot, slot.sent, k);
    var tail := HandOver(slot, slot.sent, k);
    if i == 0 {
      assert w.live[..0] == [] && Flush([], k, n) + tail == tail;
      RisingWidens(tail, base + slot.sent, base + k, base + slot.sent, Floor(w'));
    } else {
      HeadConsecutive(w.live, w.last.value, i);
      assert SlotsOk(w.live[..i], k, n);
      FlushRises(w.live[..i], k, n, slot.idx - 1);
      RisingWidens(tail, base + slot.sent, base + k, base, Floor(w'));
      RisingJoin(Flush(w.live[..i], k, n), tail, Floor(w), base, Floor(w'));
    }
  }

  /** One stored fragment hands over ranks from the old floor up to the new one. */
  lemma {:induction false} StoreRises(w: Window, k: nat, n: nat, i: nat, f: nat, body: Vec)
    requires Params(k, n) && Valid(w, k, n) && i < |w.live| && body != []
    ensures var (w', out) := StoreAt(w, k, n, i, f, body);
      Floor(w) <= Floor(w') && Rising(out, Floor(w), Floor(w'))
  {
    hide Rising, HandOver, Flush, CountPresent, Recovered;
    NothingRises(Floor(w));
    if f < n && w.live[i].frags[f] == [] {
      var stored := w.live[i].(frags := w.live[i].frags[f := body]);
      FloorOrder(w, k, n, i);
      var end := if i == 0 then RunEnd(stored.frags, stored.sent, k) else stored.sent;
      var slot := stored.(sent := end);
      var base := 256 * w.live[i].idx;
      HandOverRises(stored, stored.sent, end);
      HandOverNone(stored, stored.sent);
      var early := HandOver(stored, stored.sent, end);
      FloorOfTail(w, k, n, 1);
      if end == k {
        RisingWidens(early, base + stored.sent, base + k, Floor(w), Floor(w.(live := w.live[1..])));
      } else if CountPresent(slot.frags, 0, n) >= k {
        var t := Completed(slot, k);
        CompletionRises(w, k, n, i, t);
        var rest := Flush(w.live[..i], k, n) + HandOver(t, end, k);
        var w' := w.(live := w.live[i + 1..]);
        assert early + Flush(w.live[..i], k, n) + HandOver(t, end, k) == early + rest;
        if i == 0 {
          RisingJoin(early, rest, base + stored.sent, base + end, Floor(w'));
        } else {
          assert early + rest == rest;
        }
      }
    }
  }

  lemma {:induction false} HandOverNone(slot: Slot, from: nat)
    requires from <= |slot.frags|
    ensures HandOver(slot, from, from) == []
  {}

  lemma {:induction false} NothingRises(lo: nat)
    ensures Rising([], lo, lo)
  {}

  lemma {:induction false} HeadConsecutive(live: seq<Slot>, top: nat, i: nat)
    requires 0 < i < |live| && Consecutive(live, top)
    ensures live[i].idx > 0 && Consecutive(live[..i], live[i].idx - 1)
  {
    assert live[0].idx + |live| == top + 1 && live[i].idx + |live| == top + 1 + i;
  }

  /** The floor once the first i blocks are gone is above all they could hand over. */
  lemma {:induction false} FloorOfTail(w: Window, k: nat, n: nat, i: nat)
    requires Params(k, n) && Valid(w, k, n) && 1 <= i <= |w.live|
    ensures Floor(w.(live := w.live[i..])) >= 256 * (w.live[i - 1].idx + 1)
  {
    hide SlotOk;
    assert w.live[i - 1].idx + |w.live| == w.last.value + i;
    if i < |w.live| {
      assert w.live[i].idx + |w.live| == w.last.value + 1 + i;
    }
  }

  lemma {:induction false} FloorOrder(w: Window, k: nat, n: nat, i: nat)
    requires Params(k, n) && Valid(w, k, n) && i < |w.live|
    ensures i > 0 ==> Floor(w) < 256 * w.live[i].idx
    ensures i == 0 ==> Floor(w) == 256 * w.live[0].idx + w.live[0].sent
    ensures w.live[i].sent < k
  {
    assert SlotOk(w.live[0], k, n) && SlotOk(w.live[i], k, n);
    assert w.live[0].idx + |w.live| == w.last.value + 1;
    assert w.live[i].idx + |w.live| == w.last.value + 1 + i;
  }

  /** Making room only raises the floor: what falls out is never handed over. */
  lemma {:induction false} AdmitRaisesFloor(w: Window, k: nat, n: nat, b: nat)
    requires Params(k, n) && Valid(w, k, n) && (w.last.Some? ==> w.last.value < b)
    ensures Floor(w) <= Floor(Admit(w, n, b))
  {
    hide SlotOk;
    AdmitIsValid(w, k, n, b);
    var w1 := Admit(w, n, b);
    assert w1.live[0].idx + |w1.live| == b + 1;
    if w.live != [] {
      assert w.live[0].idx + |w.live| == w.last.value + 1;
      AdmitFront(w, k, n, b);
      assert SlotOk(w.live[0], k, n) && w.live[0].sent < k by {
        FloorOrder(w, k, n, 0);
      }
    } else if w.last.Some? {
      assert |w1.live| <= NewCount(w, b);
    }
  }

  lemma {:induction false} AdmitFront(w: Window, k: nat, n: nat, b: nat)
    requires Params(k, n) && Valid(w, k, n) && w.live != [] && w.last.value < b
    ensures var w1 := Admit(w, n, b);
      w1.live != [] && (w1.live[0] == w.live[0] || w1.live[0].idx > w.live[0].idx)
  {
    hide SlotOk;
    AdmitIsValid(w, k, n, b);
    var w1 := Admit(w, n, b);
    assert w1.live[0].idx + |w1.live| == b + 1;
    assert w.live[0].idx + |w.live| == w.last.value + 1;
    var all := w.live + EmptySlots(n, b + 1 - NewCount(w, b), NewCount(w, b));
    if |all| <= RING_SIZE {
      assert w1.live == all && all[0] == w.live[0];
    } else {
      assert |w1.live| == RING_SIZE;
    }
  }

  lemma {:induction false} StepRises(w: Window, k: nat, n: nat, b: nat, f: nat, body: Vec)
    requires Params(k, n) && Valid(w, k, n) && body != []
    ensures var (w', out) := Step(w, k, n, b, f, body);
      Floor(w) <= Floor(w') && Rising(out, Floor(w), Floor(w'))
  {
    hide StoreAt, Valid, Admit, Rising, Floor;
    if Rejects(w, b) {
      NothingRises(Floor(w));
    } else if Find(w.live, b) < |w.live| {
      StoreRises(w, k, n, Find(w.live, b), f, body);
    } else {
      AdmitIsValid(w, k, n, b);
      AdmitRaisesFloor(w, k, n, b);
      var w1 := Admit(w, n, b);
      StoreRises(w1, k, n, |w1.live| - 1, f, body);
      RisingWidens(StoreAt(w1, k, n, |w1.live| - 1, f, body).1, Floor(w1),
                   Floor(StoreAt(w1, k, n, |w1.live| - 1, f, body).0), Floor(w),
                   Floor(StoreAt(w1, k, n, |w1.live| - 1, f, body).0));
    }
  }

  /**
    Whatever arrives, in whatever order and however often, the (block, fragment) pairs
    handed over are strictly increasing: in order, and each at most once.
  */
  lemma {:induction false} OutputInOrderAtMostOnce(k: nat, n: nat, arrivals: seq<Arrival>)
    requires Params(k, n) && AllAdmissible(arrivals)
    ensures var s := Run(k, n, arrivals);
      Rising(s.out, 0, Floor(s.w))
  {
    hide Step, Rising;
    if arrivals == [] {
      NothingRises(0);
    } else {
      hide Floor;
      var m := |arrivals| - 1;
      OutputInOrderAtMostOnce(k, n, arrivals[..m]);
      var s := Run(k, n, arrivals[..m]);
      var a := arrivals[m];
      StepRises(s.w, k, n, a.block, a.frag, a.body);
      var (w, out) := Step(s.w, k, n, a.block, a.frag, a.body);
      RisingJoin(s.out, out, 0, Floor(s.w), Floor(w));
    }
  }

  // ------------------------------------------------------------- only data goes out

  predicate DataOnly(out: seq<Handed>, k: nat)
  {
    forall i :: 0 <= i < |out| ==> out[i].frag < k
  }

  lemma {:induction false} HandOverDataOnly(slot: Slot, from: nat, to: nat, k: nat)
    requires to <= |slot.frags| && to <= k
    ensures DataOnly(HandOver(slot, from, to), k)
    decreases if from < to then to - from else 0
  {
    if from < to {
      HandOverDataOnly(slot, from + 1, to, k);
    }
  }

  lemma {:induction false} FlushDataOnly(live: seq<Slot>, k: nat, n: nat)
    requires k <= n && SlotsFit(live, n)
    ensures DataOnly(Flush(live, k, n), k)
  {
    hide HandOver;
    if live != [] {
      HandOverDataOnly(live[0], live[0].sent, k, k);
      FlushDataOnly(live[1..], k, n);
    }
  }

  lemma {:induction false} StoreDataOnly(w: Window, k: nat, n: nat, i: nat, f: nat, body: Vec)
    requires Params(k, n) && Valid(w, k, n) && i < |w.live| && body != []
    ensures DataOnly(StoreAt(w, k, n, i, f, body).1, k)
  {
    hide HandOver, Flush, CountPresent, Recovered;
    if f < n && w.live[i].frags[f] == [] {
      var stored := w.live[i].(frags := w.live[i].frags[f := body]);
      var end := if i == 0 then RunEnd(stored.frags, stored.sent, k) else stored.sent;
      HandOverDataOnly(stored, stored.sent, end, k);
      FlushDataOnly(w.live[..i], k, n);
      if CountPresent(stored.frags, 0, n) >= k {
        HandOverDataOnly(Completed(stored.(sent := end), k), end, k, k);
      }
    }
  }

  /** Only data fragments are ever handed over. */
  lemma {:induction false} RunDataOnly(k: nat, n: nat, arrivals: seq<Arrival>)
    requires Params(k, n) && AllAdmissible(arrivals)
    ensures DataOnly(Run(k, n, arrivals).out, k)
  {
    hide StoreAt, Valid, Admit;
    if arrivals != [] {
      var m := |arrivals| - 1;
      RunDataOnly(k, n, arrivals[..m]);
      var s, a := Run(k, n, arrivals[..m]), arrivals[m];
      StepKeepsValid(s.w, k, n, a.block, a.frag, a.body);
      if !Rejects(s.w, a.block) {
        if Find(s.w.live, a.block) < |s.w.live| {
          StoreDataOnly(s.w, k, n, Find(s.w.live, a.block), a.frag, a.body);
        } else {
          AdmitIsValid(s.w, k, n, a.block);
          var w1 := Admit(s.w, n, a.block);
          StoreDataOnly(w1, k, n, |w1.live| - 1, a.frag, a.body);
        }
      }
    }
  }
}
