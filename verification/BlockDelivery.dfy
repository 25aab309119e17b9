/**
  Delivery block by block: a block that becomes decodable before any later one, and
  before anything arrives from 40 or more blocks ahead, is put out whole, whatever
  becomes of the other blocks.
*/
module BlockDelivery {
  import opened ReedSolomon
  import opened Packets
  import opened Window
  import opened WindowRuns
  import opened Fidelity
  import opened Delivery
  import opened Eviction

  // ------------------------------------------- what every run keeps, whatever arrives

  /** The slot holds all that has arrived of its block, and what it passed on has been put out. */
  ghost predicate SlotTracks(slot: Slot, out: seq<Handed>, arrivals: seq<Arrival>, n: nat)
  {
    && slot.frags == Received(arrivals, slot.idx, n) && SentThere(slot)
    && forall j :: 0 <= j < slot.sent ==> Handed(slot.idx, j, slot.frags[j]) in out
  }

  ghost predicate AllTrack(live: seq<Slot>, out: seq<Handed>, arrivals: seq<Arrival>, n: nat)
  {
    forall i :: 0 <= i < |live| ==> SlotTracks(live[i], out, arrivals, n)
  }

  /** Nothing has arrived of the blocks behind the last known one. */
  ghost predicate NothingBeyond(last: Option<nat>, arrivals: seq<Arrival>, n: nat)
  {
    forall q: nat :: (last.Some? ==> last.value < q) ==> Received(arrivals, q, n) == EmptySlot(n, q).frags
  }

  ghost predicate Holding(st: State, arrivals: seq<Arrival>, n: nat)
  {
    && (if arrivals == [] then st == Initial() else st.w.last.Some?)
    && AllTrack(st.w.live, st.out, arrivals, n) && NothingBeyond(st.w.last, arrivals, n)
  }

  /** An arrival for another block: the slot still tracks its own. */
  lemma {:induction false} OtherTracks(slot: Slot, out: seq<Handed>, more: seq<Handed>, arrivals: seq<Arrival>, a: Arrival, n: nat)
    requires SlotTracks(slot, out, arrivals, n) && slot.idx != a.block
    ensures SlotTracks(slot, out + more, arrivals + [a], n)
  {
    OthersUnchanged(arrivals, a, slot.idx, n);
  }

  lemma {:induction false} BeyondStays(last: nat, arrivals: seq<Arrival>, a: Arrival, n: nat)
    requires NothingBeyond(Some(last), arrivals, n) && a.block <= last
    ensures NothingBeyond(Some(last), arrivals + [a], n)
  {
    forall q: nat | last < q ensures Received(arrivals + [a], q, n) == EmptySlot(n, q).frags {
      OthersUnchanged(arrivals, a, q, n);
    }
  }

  /** A fragment that is there already, or has no place in the block. */
  lemma {:induction false} SameTracks(slot: Slot, out: seq<Handed>, arrivals: seq<Arrival>, a: Arrival, n: nat)
    requires SlotTracks(slot, out, arrivals, n) && slot.idx == a.block && |slot.frags| == n
    requires a.frag >= n || slot.frags[a.frag] != []
    ensures SlotTracks(slot, out + [], arrivals + [a], n)
  {
    ReceivedLast(arrivals, a, slot.idx, n);
    assert out + [] == out;
  }

  /** A new fragment, and the run without gaps passed on. */
  lemma {:induction false} StoredTracks(slot: Slot, out: seq<Handed>, arrivals: seq<Arrival>, a: Arrival, k: nat, n: nat, end: nat, rest: seq<Handed>)
    requires SlotTracks(slot, out, arrivals, n) && slot.idx == a.block && |slot.frags| == n >= k && slot.sent <= k
    requires a.frag < n && slot.frags[a.frag] == [] && a.body != []
    requires var frags := slot.frags[a.frag := a.body]; end == slot.sent || end == RunEnd(frags, slot.sent, k)
    ensures var stored := slot.(frags := slot.frags[a.frag := a.body]);
      SlotTracks(stored.(sent := end), out + (HandOver(stored, slot.sent, end) + rest), arrivals + [a], n)
  {
    hide HandOver;
    ReceivedLast(arrivals, a, slot.idx, n);
    var stored := slot.(frags := slot.frags[a.frag := a.body]);
    var all := out + (HandOver(stored, slot.sent, end) + rest);
    forall j | 0 <= j < end ensures stored.frags[j] != [] && Handed(slot.idx, j, stored.frags[j]) in all {
      if j < slot.sent {
        assert slot.frags[j] != [] && Handed(slot.idx, j, slot.frags[j]) in out;
      } else {
        HandOverHas(stored, slot.sent, end, j);
      }
    }
  }

  lemma {:induction false} OnlyOneSlot(w: Window, k: nat, n: nat, i: nat, j: nat)
    requires Valid(w, k, n) && i < |w.live| && j < |w.live| && i != j
    ensures w.live[i].idx != w.live[j].idx
  {
    hide SlotsOk;
    assert w.live[i].idx + |w.live| == w.last.value + 1 + i;
  }

  /** Storing keeps it all: the slots that stay track their blocks. */
  lemma {:induction false} StoreTracks(w: Window, out: seq<Handed>, arrivals: seq<Arrival>, a: Arrival, i: nat, k: nat, n: nat)
    requires Params(k, n) && Valid(w, k, n) && i < |w.live| && w.live[i].idx == a.block && a.body != []
    requires AllTrack(w.live, out, arrivals, n)
    ensures var (w', more) := StoreAt(w, k, n, i, a.frag, a.body);
      AllTrack(w'.live, out + more, arrivals + [a], n)
  {
    hide HandOver, Flush, Recovered, CountPresent, RunEnd, SlotTracks, Consecutive;
    assert SlotOk(w.live[i], k, n);
    var (w', more) := StoreAt(w, k, n, i, a.frag, a.body);
    forall j | 0 <= j < |w.live| && j != i ensures SlotTracks(w.live[j], out + more, arrivals + [a], n) {
      OnlyOneSlot(w, k, n, i, j);
      OtherTracks(w.live[j], out, more, arrivals, a, n);
    }
    if a.frag >= n || w.live[i].frags[a.frag] != [] {
      SameTracks(w.live[i], out, arrivals, a, n);
    } else {
      var stored := w.live[i].(frags := w.live[i].frags[a.frag := a.body]);
      var end := if i == 0 then RunEnd(stored.frags, stored.sent, k) else stored.sent;
      StoredTracks(w.live[i], out, arrivals, a, k, n, end, []);
      assert HandOver(stored, stored.sent, end) + [] == HandOver(stored, stored.sent, end);
    }
  }

  /** Room for block b: every slot is an old one, or empty and behind the last known block. */
  lemma {:induction false} AdmittedSlots(w: Window, n: nat, b: nat, j: nat)
    requires (w.last.Some? ==> w.last.value < b) && j < |Admit(w, n, b).live|
    ensures var slot := Admit(w, n, b).live[j];
      slot in w.live || (slot == EmptySlot(n, slot.idx) && (w.last.Some? ==> w.last.value < slot.idx))
  {
    var count := NewCount(w, b);
    var added := EmptySlots(n, b + 1 - count, count);
    var all, slot := w.live + added, Admit(w, n, b).live[j];
    var p := if |all| > RING_SIZE then |all| - RING_SIZE + j else j;
    assert slot == all[p];
    if p >= |w.live| {
      assert slot == added[p - |w.live|] == EmptySlot(n, b + 1 - count + (p - |w.live|));
    }
  }

  lemma {:induction false} AdmitTracks(w: Window, out: seq<Handed>, arrivals: seq<Arrival>, b: nat, n: nat)
    requires (w.last.Some? ==> w.last.value < b)
    requires AllTrack(w.live, out, arrivals, n) && NothingBeyond(w.last, arrivals, n)
    ensures AllTrack(Admit(w, n, b).live, out, arrivals, n) && NothingBeyond(Some(b), arrivals, n)
  {
    hide Admit;
    forall j | 0 <= j < |Admit(w, n, b).live| ensures SlotTracks(Admit(w, n, b).live[j], out, arrivals, n) {
      AdmittedSlots(w, n, b, j);
    }
  }

  /** The window a fragment of block b is stored in, and where. */
  ghost function Place(w: Window, n: nat, b: nat): (i: nat)
    requires !Rejects(w, b)
  {
    var w1 := Entered(w, n, b);
    if Find(w.live, b) < |w.live| then Find(w.live, b) else if w1.live == [] then 0 else |w1.live| - 1
  }

  lemma {:induction false} PlaceFacts(w: Window, k: nat, n: nat, a: Arrival)
    requires Params(k, n) && Valid(w, k, n) && a.body != [] && !Rejects(w, a.block)
    ensures var w1, i := Entered(w, n, a.block), Place(w, n, a.block);
      && Valid(w1, k, n) && i < |w1.live| && w1.live[i].idx == a.block && w1.last.Some? && a.block <= w1.last.value
      && Step(w, k, n, a.block, a.frag, a.body) == StoreAt(w1, k, n, i, a.frag, a.body)
      && w1.last == if Find(w.live, a.block) < |w.live| then w.last else Some(a.block)
  {
    hide StoreAt, Admit, SlotsOk;
    var f := Find(w.live, a.block);
    if f < |w.live| {
      assert w.live[f].idx + |w.live| == w.last.value + 1 + f;
    } else {
      AdmitIsValid(w, k, n, a.block);
    }
  }

  /** What holds of the window after any arrivals. */
  lemma {:induction false} StepHolds(st: State, arrivals: seq<Arrival>, a: Arrival, k: nat, n: nat)
    requires Params(k, n) && Valid(st.w, k, n) && Holding(st, arrivals, n) && a.body != []
    ensures var (w, more) := Step(st.w, k, n, a.block, a.frag, a.body);
      Holding(State(w, st.out + more), arrivals + [a], n)
  {
    hide StoreAt, Valid, Admit, AllTrack, NothingBeyond;
    if Rejects(st.w, a.block) {
      RejectedHolds(st, arrivals, a, n);
      assert st.out + [] == st.out;
    } else {
      PlaceFacts(st.w, k, n, a);
      var w1, i := Entered(st.w, n, a.block), Place(st.w, n, a.block);
      if Find(st.w.live, a.block) == |st.w.live| {
        AdmitTracks(st.w, st.out, arrivals, a.block, n);
      }
      StoreTracks(w1, st.out, arrivals, a, i, k, n);
      StoreKeepsValid(w1, k, n, i, a.frag, a.body);
      BeyondStays(w1.last.value, arrivals, a, n);
    }
  }

  lemma {:induction false} RejectedHolds(st: State, arrivals: seq<Arrival>, a: Arrival, n: nat)
    requires Holding(st, arrivals, n) && Rejects(st.w, a.block)
    ensures Holding(st, arrivals + [a], n)
  {
    hide SlotTracks;
    BeyondStays(st.w.last.value, arrivals, a, n);
    forall i | 0 <= i < |st.w.live| ensures SlotTracks(st.w.live[i], st.out, arrivals + [a], n) {
      OtherTracks(st.w.live[i], st.out, [], arrivals, a, n);
      assert st.out + [] == st.out;
    }
  }

  /** Whatever arrives: each block in flight holds all that arrived of it. */
  lemma {:induction false} RunHolds(k: nat, n: nat, arrivals: seq<Arrival>)
    requires Params(k, n) && AllAdmissible(arrivals)
    ensures Holding(Run(k, n, arrivals), arrivals, n)
  {
    hide Step, Holding, Valid;
    if arrivals == [] {
      NothingHeld(n);
    } else {
      var m := |arrivals| - 1;
      RunHolds(k, n, arrivals[..m]);
      assert Admissible(arrivals[m]) && arrivals[..m] + [arrivals[m]] == arrivals;
      StepHolds(Run(k, n, arrivals[..m]), arrivals[..m], arrivals[m], k, n);
    }
  }

  lemma {:induction false} NothingHeld(n: nat)
    ensures Holding(Initial(), [], n)
  {}

  // ------------------------------------------------------------------- one block

  /** Every data fragment of block b is among what was put out. */
  ghost predicate AllOut(out: seq<Handed>, b: nat, d: Shards, k: nat)
  {
    |d| >= k && forall j :: 0 <= j < k ==> Handed(b, j, d[j]) in out
  }

  predicate InFlight(live: seq<Slot>, b: nat)
  {
    exists i :: 0 <= i < |live| && live[i].idx == b
  }

  /** Block b is put out, or in flight, or still to come. */
  ghost predicate OnItsWay(st: State, b: nat, d: Shards, k: nat)
  {
    AllOut(st.out, b, d, k) || InFlight(st.w.live, b) || (st.w.last.Some? ==> st.w.last.value < b)
  }

  /** The front block after its last data fragment: all of it has been passed on. */
  lemma {:induction false} FrontIsOut(slot: Slot, out: seq<Handed>, arrivals: seq<Arrival>, d: Shards, k: nat, n: nat)
    requires SlotTracks(slot, out, arrivals, n) && slot.sent == k > 0 && DataTrue(slot.frags, k, d)
    ensures AllOut(out, slot.idx, d, k)
  {
    assert slot.frags[k - 1] != [];
  }

  /** A recovered block: what was not passed on yet follows now. */
  lemma {:induction false} RecoveredIsOut(slot: Slot, out: seq<Handed>, arrivals: seq<Arrival>, d: Shards, k: nat, n: nat, mid: seq<Handed>)
    requires Params(k, n) && AllWellFormed(d) && |d| <= k && Faithful(k, n, d, slot.frags)
    requires SlotTracks(slot, out, arrivals, n) && slot.sent <= k && CountPresent(slot.frags, 0, n) >= k
    ensures AllOut(out + (mid + HandOver(Completed(slot, k), slot.sent, k)), slot.idx, d, k)
  {
    hide HandOver, Recovered, BodyOf, CountPresent, Sendable;
    RecoveryIsExact(k, n, d, slot.frags);
    FaithfulIsDataTrue(k, n, d, slot.frags);
    var t := Completed(slot, k);
    var all := out + (mid + HandOver(t, slot.sent, k));
    forall j | 0 <= j < k ensures Handed(slot.idx, j, d[j]) in all {
      if j < slot.sent {
        assert slot.frags[j] != [] && Handed(slot.idx, j, slot.frags[j]) in out;
      } else {
        assert WellFormed(d[j]);
        HandOverHas(t, slot.sent, k, j);
      }
    }
  }

  /** Storing a fragment of a block up to b, or of one behind that does not become complete. */
  lemma {:induction false} StoreKeepsBlock(w: Window, out: seq<Handed>, arrivals: seq<Arrival>, a: Arrival, i: nat, l: nat,
                                           blocks: Blocks, k: nat, n: nat)
    requires Params(k, n) && Valid(w, k, n) && i < |w.live| && w.live[i].idx == a.block && a.body != []
    requires BlocksOk(blocks, k) && WindowFaithful(w.live, k, n, blocks) && Authentic(k, n, blocks, a)
    requires AllTrack(w.live, out, arrivals, n) && l < |w.live| && w.live[l].idx < |blocks|
    requires l < i ==> !Complete(arrivals + [a], a.block, k, n)
    ensures var (w', more) := StoreAt(w, k, n, i, a.frag, a.body);
      AllOut(out + more, w.live[l].idx, blocks[w.live[l].idx], k) || InFlight(w'.live, w.live[l].idx)
  {
    hide HandOver, Flush, Recovered, CountPresent, RunEnd, SlotTracks, Consecutive, Faithful, Sendable, BodyOf, AllOut;
    var (w', more) := StoreAt(w, k, n, i, a.frag, a.body);
    var b, d := w.live[l].idx, blocks[a.block];
    assert SlotOk(w.live[i], k, n) && SlotTracks(w.live[i], out, arrivals, n) && SlotFaithful(w.live[i], k, n, blocks);
    AuthenticParts(k, n, blocks, a);
    if w.live[i].frags[a.frag] != [] {
      assert w'.live[l].idx == b;
    } else {
      var stored := w.live[i].(frags := w.live[i].frags[a.frag := a.body]);
      var end := if i == 0 then RunEnd(stored.frags, stored.sent, k) else stored.sent;
      var slot, early := stored.(sent := end), HandOver(stored, stored.sent, end);
      StoredTracks(w.live[i], out, arrivals, a, k, n, end, []);
      assert early + [] == early;
      StoreFaithful(k, n, d, w.live[i].frags, a.frag, a.body);
      if end == k {
        if l == 0 {
          FaithfulIsDataTrue(k, n, d, slot.frags);
          FrontIsOut(slot, out + early, arrivals + [a], d, k, n);
        } else {
          assert w'.live[l - 1].idx == b;
        }
      } else if CountPresent(slot.frags, 0, n) < k {
        assert w'.live[l].idx == b;
      } else if i < l {
        assert w'.live[l - i - 1].idx == b;
      } else {
        assert l == i by {
          StoredIsComplete(slot, out + early, arrivals + [a], k, n);
        }
        RecoveredIsOut(slot, out + early, arrivals + [a], d, k, n, Flush(w.live[..i], k, n));
        OutJoins(out, early, Flush(w.live[..i], k, n), HandOver(Completed(slot, k), end, k));
      }
    }
  }

  lemma {:induction false} OutJoins(a: seq<Handed>, b: seq<Handed>, c: seq<Handed>, d: seq<Handed>)
    ensures a + b + (c + d) == a + (b + c + d)
  {}

  lemma {:induction false} StoredIsComplete(slot: Slot, out: seq<Handed>, arrivals: seq<Arrival>, k: nat, n: nat)
    requires SlotTracks(slot, out, arrivals, n) && CountPresent(slot.frags, 0, n) >= k
    ensures Complete(arrivals, slot.idx, k, n)
  {}

  /** Room for a block less than 40 ahead: block b stays in flight, or comes into flight. */
  lemma {:induction false} AdmitCovers(w: Window, k: nat, n: nat, b: nat, c: nat)
    requires Params(k, n) && Valid(w, k, n) && w.last.Some? && w.last.value < c < b + RING_SIZE
    requires InFlight(w.live, b) || w.last.value < b <= c
    ensures InFlight(Admit(w, n, c).live, b)
  {
    hide SlotsOk, Admit;
    AdmitIsValid(w, k, n, c);
    var w1 := Admit(w, n, c);
    if InFlight(w.live, b) {
      var l :| 0 <= l < |w.live| && w.live[l].idx == b;
      EvictedExactlyWhenFarBehind(w, k, n, c, l);
      assert w.live[l] in w1.live;
    } else {
      AdmitReaches(w, n, c);
      var p := b + |w1.live| - 1 - c;
      assert w1.live[p].idx + |w1.live| == c + 1 + p;
    }
  }

  lemma {:induction false} AdmitReaches(w: Window, n: nat, c: nat)
    requires w.last.Some? && w.last.value < c
    ensures |Admit(w, n, c).live| >= RING_SIZE || |Admit(w, n, c).live| >= c - w.last.value
  {}

  /** One arrival: nothing from 40 ahead of b, and no later block complete. */
  lemma {:induction false} StepKeepsBlock(st: State, arrivals: seq<Arrival>, a: Arrival, b: nat, blocks: Blocks, k: nat, n: nat)
    requires Params(k, n) && Valid(st.w, k, n) && Holding(st, arrivals, n) && a.body != []
    requires BlocksOk(blocks, k) && WindowFaithful(st.w.live, k, n, blocks) && Authentic(k, n, blocks, a)
    requires b < |blocks| && OnItsWay(st, b, blocks[b], k) && a.block < b + RING_SIZE
    requires arrivals == [] ==> a.block <= b
    requires b < a.block ==> !Complete(arrivals + [a], a.block, k, n)
    ensures var (w, more) := Step(st.w, k, n, a.block, a.frag, a.body);
      OnItsWay(State(w, st.out + more), b, blocks[b], k)
  {
    hide StoreAt, Valid, Admit, AllTrack, NothingBeyond, WindowFaithful, Complete, Authentic;
    if !AllOut(st.out, b, blocks[b], k) && !Rejects(st.w, a.block) {
      PlaceFacts(st.w, k, n, a);
      var w1, i := Entered(st.w, n, a.block), Place(st.w, n, a.block);
      StoreKeepsValid(w1, k, n, i, a.frag, a.body);
      AuthenticParts(k, n, blocks, a);
      EnteredFaithful(st.w, k, n, a.block, blocks);
      EnteredHolds(st, arrivals, a.block, b, k, n);
      if InFlight(w1.live, b) {
        var l :| 0 <= l < |w1.live| && w1.live[l].idx == b;
        LaterBehind(w1, k, n, l, i);
        StoreKeepsBlock(w1, st.out, arrivals, a, i, l, blocks, k, n);
      }
    }
  }

  lemma {:induction false} LaterBehind(w: Window, k: nat, n: nat, l: nat, i: nat)
    requires Valid(w, k, n) && l < |w.live| && i < |w.live|
    ensures l < i ==> w.live[l].idx < w.live[i].idx
  {
    hide SlotsOk;
    assert w.live[l].idx + |w.live| == w.last.value + 1 + l;
  }

  /** Entering a block: b is in flight afterwards, or still to come. */
  lemma {:induction false} EnteredHolds(st: State, arrivals: seq<Arrival>, c: nat, b: nat, k: nat, n: nat)
    requires Params(k, n) && Valid(st.w, k, n) && Holding(st, arrivals, n) && !Rejects(st.w, c) && c < b + RING_SIZE
    requires InFlight(st.w.live, b) || (st.w.last.Some? ==> st.w.last.value < b)
    requires arrivals == [] ==> c <= b
    ensures var w1 := Entered(st.w, n, c);
      && AllTrack(w1.live, st.out, arrivals, n)
      && (InFlight(w1.live, b) || (w1.last.Some? ==> w1.last.value < b))
  {
    hide Admit, AllTrack, NothingBeyond, SlotsOk;
    if Find(st.w.live, c) == |st.w.live| {
      AdmitTracks(st.w, st.out, arrivals, c, n);
      AdmitIsValid(st.w, k, n, c);
      if st.w.last.None? {
        var w1 := Admit(st.w, n, c);
        assert w1.live[|w1.live| - 1].idx == c;
      } else if InFlight(st.w.live, b) || b <= c {
        AdmitCovers(st.w, k, n, b, c);
      }
    }
  }

  /** In these arrivals nothing comes from 40 or more blocks ahead of b, and no later block is complete. */
  ghost predicate Undisturbed(arrivals: seq<Arrival>, b: nat, k: nat, n: nat)
  {
    && (arrivals != [] ==> arrivals[0].block <= b)
    && (forall i :: 0 <= i < |arrivals| ==> arrivals[i].block < b + RING_SIZE)
    && (forall c: nat :: b < c ==> !Complete(arrivals, c, k, n))
  }

  lemma {:induction false} UndisturbedBefore(arrivals: seq<Arrival>, b: nat, k: nat, n: nat)
    requires arrivals != [] && AllAdmissible(arrivals) && Undisturbed(arrivals, b, k, n)
    ensures Undisturbed(arrivals[..|arrivals| - 1], b, k, n)
  {
    hide Complete;
    var m := |arrivals| - 1;
    assert Admissible(arrivals[m]) && arrivals[..m] + [arrivals[m]] == arrivals;
    forall c: nat | b < c ensures !Complete(arrivals[..m], c, k, n) {
      if Complete(arrivals[..m], c, k, n) {
        CompleteStays(arrivals[..m], arrivals[m], c, k, n);
      }
    }
  }

  lemma {:induction false} RunKeepsBlock(arrivals: seq<Arrival>, b: nat, blocks: Blocks, k: nat, n: nat)
    requires Params(k, n) && BlocksOk(blocks, k) && AllAuthentic(k, n, blocks, arrivals)
    requires b < |blocks| && Undisturbed(arrivals, b, k, n)
    ensures AllAdmissible(arrivals) && OnItsWay(Run(k, n, arrivals), b, blocks[b], k)
  {
    hide Step, Authentic, AllTrue, WindowFaithful, OnItsWay, Complete, Holding, Valid;
    AuthenticRunsAdmissible(k, n, blocks, arrivals);
    if arrivals == [] {
      NothingOnItsWay(b, blocks[b], k);
    } else {
      var m := |arrivals| - 1;
      var before, a := arrivals[..m], arrivals[m];
      assert before + [a] == arrivals && Admissible(a);
      UndisturbedBefore(arrivals, b, k, n);
      RunKeepsBlock(before, b, blocks, k, n);
      NothingInventedOrAltered(k, n, blocks, before);
      RunHolds(k, n, before);
      assert before == [] ==> a == arrivals[0];
      StepKeepsBlock(Run(k, n, before), before, a, b, blocks, k, n);
    }
  }

  lemma {:induction false} NothingOnItsWay(b: nat, d: Shards, k: nat)
    ensures OnItsWay(Initial(), b, d, k)
  {}

  /** Between packets no block in flight is complete. */
  lemma {:induction false} InFlightIsIncomplete(st: State, arrivals: seq<Arrival>, i: nat, k: nat, n: nat)
    requires Valid(st.w, k, n) && AllTrack(st.w.live, st.out, arrivals, n) && i < |st.w.live|
    ensures !Complete(arrivals, st.w.live[i].idx, k, n)
  {
    hide CountPresent, Consecutive;
    assert SlotOk(st.w.live[i], k, n) && SlotTracks(st.w.live[i], st.out, arrivals, n);
  }

  /** A complete block is neither in flight nor still to come. */
  lemma {:induction false} CompleteIsOut(st: State, arrivals: seq<Arrival>, b: nat, d: Shards, k: nat, n: nat)
    requires Params(k, n) && Valid(st.w, k, n) && Holding(st, arrivals, n) && Complete(arrivals, b, k, n)
    requires OnItsWay(st, b, d, k)
    ensures AllOut(st.out, b, d, k)
  {
    hide CountPresent, Valid, AllTrack;
    NothingPresent(EmptySlot(n, b).frags, n);
    forall i | 0 <= i < |st.w.live| ensures st.w.live[i].idx != b {
      InFlightIsIncomplete(st, arrivals, i, k, n);
    }
  }

  /**
    If after m arrivals block b is complete and no later one is, and nothing came from 40
    blocks ahead of it by then, every data fragment of b is put out, whatever is lost of
    the other blocks and whatever arrives later.
  */
  lemma {:induction false} CompleteBlockIsDelivered(arrivals: seq<Arrival>, m: nat, b: nat, blocks: Blocks, k: nat, n: nat)
    requires Params(k, n) && BlocksOk(blocks, k) && AllAuthentic(k, n, blocks, arrivals) && m <= |arrivals|
    requires Complete(arrivals[..m], b, k, n) && Undisturbed(arrivals[..m], b, k, n)
    ensures AllAdmissible(arrivals) && b < |blocks| && |blocks[b]| == k
    ensures forall j :: 0 <= j < k ==> Handed(b, j, blocks[b][j]) in Run(k, n, arrivals).out
  {
    hide Run, Complete, Undisturbed, Authentic, Holding, Valid, OnItsWay;
    AuthenticRunsAdmissible(k, n, blocks, arrivals);
    var before := arrivals[..m];
    assert AllAuthentic(k, n, blocks, before);
    CompleteMeansClosed(before, b, blocks, k, n);
    RunKeepsBlock(before, b, blocks, k, n);
    RunHolds(k, n, before);
    CompleteIsOut(Run(k, n, before), before, b, blocks[b], k, n);
    LaterOutputsAboveFloor(k, n, arrivals, m);
    var now, later := Run(k, n, before).out, Run(k, n, arrivals).out;
    forall j | 0 <= j < k ensures Handed(b, j, blocks[b][j]) in later {
      assert Handed(b, j, blocks[b][j]) in later[..|now|];
    }
  }
}
