/**
  Output before a block is complete: what the first block of a session does, and
  exactly when the front block has a fragment ready that is not yet put out.
*/
module PromptOutput {
  import opened Matrices
  import opened ReedSolomon
  import opened Packets
  import opened Window
  import opened WindowRuns
  import opened Delivery
  import opened BlockDelivery

  // ---------------------------------------------------- the first block of a session

  /** The first block seen is alone in the window, whatever its index. */
  lemma {:induction false} FirstBlockAlone(n: nat, b: nat)
    ensures Admit(Window([], None), n, b) == Window([EmptySlot(n, b)], Some(b))
  {
    assert EmptySlots(n, b, 1) == [EmptySlot(n, b)];
    assert [] + EmptySlots(n, b, 1) == EmptySlots(n, b, 1);
  }

  /** The first arrival of a session: fragment 0 is put out at once, any other waits. */
  lemma {:induction false} FirstArrival(k: nat, n: nat, b: nat, f: nat, x: Vec)
    requires Params(k, n) && f < n && x != []
    ensures AllAdmissible([Arrival(b, f, x)])
    ensures f == 0 ==> Run(k, n, [Arrival(b, f, x)]).out == [Handed(b, 0, x)]
    ensures var waiting := Window([Slot(b, EmptySlot(n, b).frags[f := x], if f == 0 then 1 else 0)], Some(b));
      k > 1 ==> Run(k, n, [Arrival(b, f, x)]) == State(waiting, if f == 0 then [Handed(b, 0, x)] else [])
    ensures k == 1 && f == 0 ==> Run(k, n, [Arrival(b, f, x)]).w == Window([], Some(b))
  {
    hide Step, Valid;
    var a := [Arrival(b, f, x)];
    assert a[..0] == [];
    FirstStep(k, n, b, f, x);
    assert [] + Step(Window([], None), k, n, b, f, x).1 == Step(Window([], None), k, n, b, f, x).1;
  }

  lemma {:induction false} FirstStep(k: nat, n: nat, b: nat, f: nat, x: Vec)
    requires Params(k, n) && f < n && x != []
    ensures Valid(Window([], None), k, n)
    ensures var (w, out) := Step(Window([], None), k, n, b, f, x);
      && (f == 0 ==> out == [Handed(b, 0, x)])
      && (k == 1 && f == 0 ==> w == Window([], Some(b)))
      && (k > 1 ==> w == Window([Slot(b, EmptySlot(n, b).frags[f := x], if f == 0 then 1 else 0)], Some(b)))
      && (k > 1 && f > 0 ==> out == [])
  {
    hide Recovered;
    FirstBlockAlone(n, b);
    AdmitIsValid(Window([], None), k, n, b);
    var slot := EmptySlot(n, b);
    var frags := slot.frags[f := x];
    NothingPresent(slot.frags, n);
    CountAfterStore(slot.frags, f, x, n);
    assert RunEnd(frags, 0, k) == (if f == 0 then 1 else 0);
    var stored := Slot(b, frags, 0);
    assert HandOver(stored, 1, 1) == [];
    assert HandOver(stored, 0, RunEnd(frags, 0, k)) == (if f == 0 then [Handed(b, 0, x)] else []);
    assert [slot][1..] == [];
  }

  // ------------------------------------------------------------ ready but held back

  /** The next fragment of the front block is there and has not been put out. */
  predicate HeldBack(w: Window)
  {
    w.live != [] && w.live[0].sent < |w.live[0].frags| && w.live[0].frags[w.live[0].sent] != []
  }

  predicate BehindUnsent(live: seq<Slot>)
  {
    forall i :: 0 < i < |live| ==> live[i].sent == 0
  }

  lemma {:induction false} RunEndStops(frags: Shards, from: nat, k: nat)
    requires from <= k <= |frags|
    ensures RunEnd(frags, from, k) == k || frags[RunEnd(frags, from, k)] == []
    decreases k - from
  {
    if from < k && frags[from] != [] {
      RunEndStops(frags, from + 1, k);
    }
  }

  /** The front slot is an unchanged one, or nothing of it is held back after a new fragment of it. */
  predicate FrontAfter(w: Window, w': Window)
  {
    w'.live != [] ==>
      || (w'.live[0] in w.live && (w'.live[0] == w.live[0] || w'.live[0].sent == 0))
      || (!HeldBack(w') && w.live != [] && w'.live[0].idx == w.live[0].idx && w'.live[0].frags != w.live[0].frags)
      || (!HeldBack(w') && (w.last.Some? ==> w.last.value < w'.live[0].idx))
  }

  lemma {:induction false} StoreFront(w: Window, k: nat, n: nat, i: nat, f: nat, body: Vec)
    requires Params(k, n) && Valid(w, k, n) && i < |w.live| && body != [] && BehindUnsent(w.live)
    ensures var w' := StoreAt(w, k, n, i, f, body).0;
      && BehindUnsent(w'.live)
      && (w'.live != [] ==>
           || w'.live[0] == w.live[0]
           || (w'.live[0] in w.live && w'.live[0].sent == 0)
           || (i == 0 && !HeldBack(w') && w'.live[0].idx == w.live[0].idx && w'.live[0].frags != w.live[0].frags))
  {
    hide HandOver, Flush, Recovered, CountPresent, RunEnd, Consecutive;
    assert SlotOk(w.live[i], k, n);
    if f < n && w.live[i].frags[f] == [] {
      var frags := w.live[i].frags[f := body];
      assert frags[f] != w.live[i].frags[f];
      RunEndStops(frags, w.live[i].sent, k);
    }
  }

  /** What one packet does to the front of the window. */
  lemma {:induction false} StepFront(w: Window, k: nat, n: nat, a: Arrival)
    requires Params(k, n) && Valid(w, k, n) && a.body != [] && BehindUnsent(w.live)
    ensures var w' := Step(w, k, n, a.block, a.frag, a.body).0;
      BehindUnsent(w'.live) && FrontAfter(w, w')
  {
    hide StoreAt, Valid, HeldBack;
    if !Rejects(w, a.block) {
      if Find(w.live, a.block) < |w.live| {
        StoreFront(w, k, n, Find(w.live, a.block), a.frag, a.body);
      } else {
        AdmitIsValid(w, k, n, a.block);
        var w1 := Admit(w, n, a.block);
        AdmittedBehind(w, n, a.block);
        AdmittedFront(w, w1, n, a.block);
        StoreFront(w1, k, n, |w1.live| - 1, a.frag, a.body);
      }
    }
  }

  lemma {:induction false} AdmittedBehind(w: Window, n: nat, b: nat)
    requires BehindUnsent(w.live) && (w.last.Some? ==> w.last.value < b)
    ensures BehindUnsent(Admit(w, n, b).live)
  {
    var count := NewCount(w, b);
    var added := EmptySlots(n, b + 1 - count, count);
    var all := w.live + added;
    forall p | 0 < p < |all| ensures all[p].sent == 0 {
      if p >= |w.live| {
        assert all[p] == added[p - |w.live|] == EmptySlot(n, b + 1 - count + (p - |w.live|));
      }
    }
  }

  /** Any slot after making room, as the front one. */
  lemma {:induction false} AdmittedFront(w: Window, w1: Window, n: nat, b: nat)
    requires BehindUnsent(w.live) && (w.last.Some? ==> w.last.value < b) && w1 == Admit(w, n, b)
    ensures forall w2: Window :: w2.live != [] && w2.live[0] in w1.live ==> FrontAfter(w, w2)
  {
    hide Admit;
    forall w2: Window | w2.live != [] && w2.live[0] in w1.live ensures FrontAfter(w, w2) {
      var j :| 0 <= j < |w1.live| && w1.live[j] == w2.live[0];
      AdmittedSlots(w, n, b, j);
    }
  }

  lemma {:induction false} RunBehindUnsent(k: nat, n: nat, arrivals: seq<Arrival>)
    requires Params(k, n) && AllAdmissible(arrivals)
    ensures BehindUnsent(Run(k, n, arrivals).w.live)
  {
    hide Step, Valid;
    if arrivals != [] {
      var m := |arrivals| - 1;
      RunBehindUnsent(k, n, arrivals[..m]);
      assert Admissible(arrivals[m]);
      StepFront(Run(k, n, arrivals[..m]).w, k, n, arrivals[m]);
    }
  }

  /** What one more arrival does to the front of the window. */
  lemma {:induction false} RunFront(k: nat, n: nat, arrivals: seq<Arrival>)
    requires Params(k, n) && AllAdmissible(arrivals) && arrivals != []
    ensures FrontAfter(Run(k, n, arrivals[..|arrivals| - 1]).w, Run(k, n, arrivals).w)
  {
    hide Step, Valid;
    var m := |arrivals| - 1;
    RunBehindUnsent(k, n, arrivals[..m]);
    assert Admissible(arrivals[m]);
    StepFront(Run(k, n, arrivals[..m]).w, k, n, arrivals[m]);
  }

  predicate FrontIs(w: Window, c: nat)
  {
    w.live != [] && w.live[0].idx == c
  }

  /** The front slot holds what has arrived of its block. */
  lemma {:induction false} FrontReceived(k: nat, n: nat, arrivals: seq<Arrival>, c: nat)
    requires Params(k, n) && AllAdmissible(arrivals) && FrontIs(Run(k, n, arrivals).w, c)
    ensures Run(k, n, arrivals).w.live[0].frags == Received(arrivals, c, n)
  {
    hide Run;
    RunHolds(k, n, arrivals);
    var st := Run(k, n, arrivals);
    assert SlotTracks(st.w.live[0], st.out, arrivals, n);
  }

  lemma {:induction false} ReceivedGrows(arrivals: seq<Arrival>, m: nat, c: nat, n: nat, f: nat)
    requires m <= |arrivals| && f < n && Received(arrivals[..m], c, n)[f] != []
    ensures Received(arrivals, c, n)[f] == Received(arrivals[..m], c, n)[f]
  {
    if m < |arrivals| {
      assert arrivals[..|arrivals| - 1][..m] == arrivals[..m];
      ReceivedGrows(arrivals[..|arrivals| - 1], m, c, n, f);
    } else {
      assert arrivals[..m] == arrivals;
    }
  }

  /** Once something new has come it stays so. */
  lemma {:induction false} NewStays(arrivals: seq<Arrival>, m: nat, c: nat, n: nat)
    requires m < |arrivals| && Received(arrivals, c, n) == Received(arrivals[..m], c, n)
    ensures Received(arrivals[..|arrivals| - 1], c, n) == Received(arrivals[..m], c, n)
  {
    hide Received;
    var l := |arrivals| - 1;
    var x, y, z := Received(arrivals[..m], c, n), Received(arrivals[..l], c, n), Received(arrivals, c, n);
    assert arrivals[..l][..m] == arrivals[..m];
    forall f | 0 <= f < n ensures y[f] == x[f] {
      if x[f] != [] {
        ReceivedGrows(arrivals[..l], m, c, n, f);
      }
      if y[f] != [] {
        ReceivedGrows(arrivals, l, c, n, f);
      }
    }
  }

  /** While block c stays in front: held back as before as long as nothing new of it comes, and not after that. */
  lemma {:induction false} FrontStays(k: nat, n: nat, arrivals: seq<Arrival>, c: nat)
    requires Params(k, n) && AllAdmissible(arrivals) && arrivals != []
    requires FrontIs(Run(k, n, arrivals).w, c) && FrontIs(Run(k, n, arrivals[..|arrivals| - 1]).w, c)
    ensures var before := arrivals[..|arrivals| - 1];
      HeldBack(Run(k, n, arrivals).w) <==>
        HeldBack(Run(k, n, before).w) && Received(arrivals, c, n) == Received(before, c, n)
  {
    hide Run, SlotsOk;
    var before := arrivals[..|arrivals| - 1];
    RunFront(k, n, arrivals);
    FrontReceived(k, n, arrivals, c);
    FrontReceived(k, n, before, c);
    var w, w' := Run(k, n, before).w, Run(k, n, arrivals).w;
    if w'.live[0] in w.live && w'.live[0] != w.live[0] {
      var j :| 0 <= j < |w.live| && w.live[j] == w'.live[0];
      OnlyOneSlot(w, k, n, 0, j);
    }
    assert w.live[0].idx + |w.live| == w.last.value + 1;
    if w'.live[0] == w.live[0] {
      FrontUnchanged(w, w');
    }
  }

  lemma {:induction false} FrontUnchanged(w: Window, w': Window)
    requires w.live != [] && w'.live != [] && w.live[0] == w'.live[0]
    ensures HeldBack(w) <==> HeldBack(w')
  {}

  /** When a block becomes the front one: held back if its first fragment was there before. */
  lemma {:induction false} FrontMoves(k: nat, n: nat, arrivals: seq<Arrival>, c: nat)
    requires Params(k, n) && AllAdmissible(arrivals) && arrivals != []
    requires FrontIs(Run(k, n, arrivals).w, c) && !FrontIs(Run(k, n, arrivals[..|arrivals| - 1]).w, c)
    ensures var before := arrivals[..|arrivals| - 1];
      HeldBack(Run(k, n, arrivals).w) <==>
        Received(before, c, n)[0] != [] && Received(arrivals, c, n) == Received(before, c, n)
  {
    hide Run, SlotsOk;
    var before := arrivals[..|arrivals| - 1];
    RunFront(k, n, arrivals);
    FrontReceived(k, n, arrivals, c);
    RunHolds(k, n, before);
    var st, w' := Run(k, n, before), Run(k, n, arrivals).w;
    if w'.live[0] in st.w.live {
      var j :| 0 <= j < |st.w.live| && st.w.live[j] == w'.live[0];
      assert SlotTracks(st.w.live[j], st.out, before, n);
    }
  }

  /** Block c has been the front one since the m-th arrival. */
  ghost predicate FrontSince(k: nat, n: nat, arrivals: seq<Arrival>, m: nat, c: nat)
    requires Params(k, n) && AllAdmissible(arrivals)
  {
    && 0 < m <= |arrivals| && !FrontIs(Run(k, n, arrivals[..m - 1]).w, c)
    && forall j :: m <= j <= |arrivals| ==> FrontIs(Run(k, n, arrivals[..j]).w, c)
  }

  lemma {:induction false} FrontStillSince(k: nat, n: nat, arrivals: seq<Arrival>, m: nat, c: nat)
    requires Params(k, n) && AllAdmissible(arrivals) && arrivals != []
    requires FrontSince(k, n, arrivals[..|arrivals| - 1], m, c) && FrontIs(Run(k, n, arrivals).w, c)
    ensures FrontSince(k, n, arrivals, m, c)
  {
    hide Run, FrontIs;
    var l := |arrivals| - 1;
    assert arrivals[..l][..m - 1] == arrivals[..m - 1];
    forall j | m <= j <= |arrivals| ensures FrontIs(Run(k, n, arrivals[..j]).w, c) {
      if j <= l {
        assert arrivals[..l][..j] == arrivals[..j];
      } else {
        assert arrivals[..j] == arrivals;
      }
    }
  }

  lemma {:induction false} FrontSinceNow(k: nat, n: nat, arrivals: seq<Arrival>, c: nat)
    requires Params(k, n) && AllAdmissible(arrivals) && arrivals != []
    requires FrontIs(Run(k, n, arrivals).w, c) && !FrontIs(Run(k, n, arrivals[..|arrivals| - 1]).w, c)
    ensures FrontSince(k, n, arrivals, |arrivals|, c)
  {
    hide Run, FrontIs;
    assert arrivals[..|arrivals|] == arrivals;
  }

  /**
    After any arrivals the next fragment of the front block is ready but not put out if
    and only if the first fragment of that block was there before it became the front
    one, and nothing new of it has come since.
  */
  lemma {:induction false} HeldBackExactly(k: nat, n: nat, arrivals: seq<Arrival>, c: nat) returns (m: nat)
    requires Params(k, n) && AllAdmissible(arrivals) && FrontIs(Run(k, n, arrivals).w, c)
    ensures FrontSince(k, n, arrivals, m, c)
    ensures HeldBack(Run(k, n, arrivals).w) <==>
      && Received(arrivals[..m - 1], c, n)[0] != []
      && Received(arrivals, c, n) == Received(arrivals[..m - 1], c, n)
  {
    hide HeldBack, Received, FrontSince;
    assert arrivals != [];
    hide Run, FrontIs;
    var before := arrivals[..|arrivals| - 1];
    if FrontIs(Run(k, n, before).w, c) {
      m := HeldBackExactly(k, n, before, c);
      assert before[..m - 1] == arrivals[..m - 1] by {
        SinceInRange(k, n, before, m, c);
      }
      FrontStillSince(k, n, arrivals, m, c);
      FrontStays(k, n, arrivals, c);
      SinceInRange(k, n, arrivals, m, c);
      if Received(arrivals, c, n) == Received(arrivals[..m - 1], c, n) {
        NewStays(arrivals, m - 1, c, n);
      }
    } else {
      m := |arrivals|;
      FrontSinceNow(k, n, arrivals, c);
      FrontMoves(k, n, arrivals, c);
    }
  }

  lemma {:induction false} SinceInRange(k: nat, n: nat, arrivals: seq<Arrival>, m: nat, c: nat)
    requires Params(k, n) && AllAdmissible(arrivals) && FrontSince(k, n, arrivals, m, c)
    ensures 0 < m <= |arrivals|
  {}

  lemma {:induction false} SecondStep(x: Vec, y: Vec)
    requires x != [] && y != []
    ensures var w := Window([Slot(0, [x, [], []], 1)], Some(0));
      var w' := Window([Slot(0, [x, [], []], 1), Slot(1, [y, [], []], 0)], Some(1));
      Valid(w, 2, 3) && Step(w, 2, 3, 1, 0, y) == (w', [])
  {
    var w := Window([Slot(0, [x, [], []], 1)], Some(0));
    CountOfThree([x, [], []]);
    CountOfThree([y, [], []]);
    AdmitIsValid(w, 2, 3, 1);
    var s := EmptySlot(3, 1);
    assert s.frags == [[], [], []] && EmptySlots(3, 1, 1) == [s];
    var w1 := Admit(w, 3, 1);
    assert w1.live == [w.live[0], s];
    assert s.frags[0 := y] == [y, [], []];
    assert w1.live[1 := Slot(1, [y, [], []], 0)] == [w.live[0], Slot(1, [y, [], []], 0)];
    assert HandOver(Slot(1, [y, [], []], 0), 0, 0) == [];
  }

  lemma {:induction false} CountOfThree(frags: Shards)
    requires |frags| == 3
    ensures CountPresent(frags, 0, 3) ==
      (if frags[0] == [] then 0 else 1) + (if frags[1] == [] then 0 else 1) + (if frags[2] == [] then 0 else 1)
  {
    assert CountPresent(frags, 0, 1) == (if frags[0] == [] then 0 else 1);
    assert CountPresent(frags, 0, 2) == CountPresent(frags, 0, 1) + (if frags[1] == [] then 0 else 1);
  }

  lemma {:induction false} ThirdStep(x: Vec, y: Vec, z: Vec)
    requires x != [] && y != [] && z != []
    ensures var w := Window([Slot(0, [x, [], []], 1), Slot(1, [y, [], []], 0)], Some(1));
      && Valid(w, 2, 3)
      && Step(w, 2, 3, 0, 1, z) == (Window([Slot(1, [y, [], []], 0)], Some(1)), [Handed(0, 1, z)])
  {
    var w := Window([Slot(0, [x, [], []], 1), Slot(1, [y, [], []], 0)], Some(1));
    CountOfThree([x, [], []]);
    CountOfThree([y, [], []]);
    var frags := [x, [], []][1 := z];
    assert frags == [x, z, []];
    assert RunEnd(frags, 1, 2) == 2;
    var stored := Slot(0, frags, 1);
    assert HandOver(stored, 2, 2) == [];
    assert HandOver(stored, 1, 2) == [Handed(0, 1, z)];
  }

  /**
    It happens: block 1 becomes the front one with a fragment in it, which waits although
    nothing is missing before it.
  */
  lemma {:induction false} ReadyButHeldBack(x: Vec, y: Vec, z: Vec)
    requires x != [] && y != [] && z != []
    ensures var arrivals := [Arrival(0, 0, x), Arrival(1, 0, y), Arrival(0, 1, z)];
      && AllAdmissible(arrivals)
      && Run(2, 3, arrivals) == State(Window([Slot(1, [y, [], []], 0)], Some(1)), [Handed(0, 0, x), Handed(0, 1, z)])
      && HeldBack(Run(2, 3, arrivals).w)
  {
    hide Step, Valid;
    hide Step, Valid;
    var a := [Arrival(0, 0, x), Arrival(1, 0, y), Arrival(0, 1, z)];
    var one, two := a[..1], a[..2];
    assert one == [Arrival(0, 0, x)] && two[..1] == one && a[..2] == two;
    FirstArrival(2, 3, 0, 0, x);
    assert EmptySlot(3, 0).frags[0 := x] == [x, [], []];
    SecondStep(x, y);
    assert Run(2, 3, two) ==
      State(Window([Slot(0, [x, [], []], 1), Slot(1, [y, [], []], 0)], Some(1)), [Handed(0, 0, x)]);
    ThirdStep(x, y, z);
  }
}
