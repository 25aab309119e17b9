/**
  The receive window as a value: the blocks in flight, oldest first, and what one
  received fragment does to them (pkg/rx/ring.go and pkg/rx/aggregator.go).
*/
module Window {
  import opened Matrices
  import opened ReedSolomon
  import opened Packets

  const RING_SIZE := 40

  /** A block in flight: the fragments received ([] if not), and how many were passed on. */
  datatype Slot = Slot(idx: nat, frags: Shards, sent: nat)

  /** The blocks in flight, and the highest block index seen. */
  datatype Window = Window(live: seq<Slot>, last: Option<nat>)

  /** A fragment handed to `outputFragment`. */
  datatype Handed = Handed(block: nat, frag: nat, body: Vec)

  // ------------------------------------------------------------------- admission

  function EmptySlot(n: nat, b: nat): Slot
  {
    Slot(b, seq(n, _ => []), 0)
  }

  function EmptySlots(n: nat, b: nat, count: nat): (s: seq<Slot>)
    ensures |s| == count
  {
    seq(count, i requires 0 <= i => EmptySlot(n, b + i))
  }

  /** The position of block b, or the number of blocks if it is not in flight. */
  function Find(live: seq<Slot>, b: nat): (i: nat)
    ensures i <= |live|
    ensures i < |live| ==> live[i].idx == b
    ensures forall j :: 0 <= j < i ==> live[j].idx != b
  {
    if live == [] then 0
    else if live[0].idx == b then 0
    else 1 + Find(live[1..], b)
  }

  /** How many slots block b needs: one for every block since the last known one, at most 40. */
  function NewCount(w: Window, b: nat): (count: nat)
    requires w.last.Some? ==> w.last.value < b
    ensures 1 <= count <= RING_SIZE && count <= b + 1
    ensures w.last.Some? ==> count <= b - w.last.value
  {
    if w.last.None? then 1
    else if b - w.last.value > RING_SIZE then RING_SIZE
    else b - w.last.value
  }

  /** The newest slots; the oldest fall out of a full ring. */
  function Newest(all: seq<Slot>): seq<Slot>
  {
    if |all| > RING_SIZE then all[|all| - RING_SIZE..] else all
  }

  /** Make room for block b and the blocks skipped before it. */
  function Admit(w: Window, n: nat, b: nat): Window
    requires w.last.Some? ==> w.last.value < b
  {
    var count := NewCount(w, b);
    Window(Newest(w.live + EmptySlots(n, b + 1 - count, count)), Some(b))
  }

  predicate Rejects(w: Window, b: nat)
  {
    Find(w.live, b) == |w.live| && w.last.Some? && b <= w.last.value
  }

  // -------------------------------------------------------------------- recovery

  function MaxSize(frags: Shards, lo: nat, hi: nat): nat
    requires lo <= hi <= |frags|
  {
    if lo == hi then 0
    else
      var m := MaxSize(frags, lo, hi - 1);
      if |frags[hi - 1]| > m then |frags[hi - 1]| else m
  }

  /** The shard size for decoding: that of the parity shards, or else of the data shards. */
  function DecodeSize(frags: Shards, k: nat): nat
    requires k <= |frags|
  {
    var m := MaxSize(frags, k, |frags|);
    if m == 0 then MaxSize(frags, 0, k) else m
  }

  /** A received fragment at the decoding size: cut, or padded by the zeroed buffer. */
  function Fit(f: Vec, sz: nat): (g: Vec)
    ensures |g| == sz
  {
    if |f| >= sz then f[..sz] else f + Zeros(sz - |f|)
  }

  function FitAll(frags: Shards, sz: nat): (g: Shards)
    ensures |g| == |frags|
  {
    seq(|frags|, i requires 0 <= i < |frags| => if frags[i] == [] then [] else Fit(frags[i], sz))
  }

  /** The size of a rebuilt fragment, read from its own header. */
  function RebuiltSize(shard: Vec): (s: nat)
    ensures s <= |shard|
  {
    if |shard| < PACKET_HDR_SIZE then |shard|
    else if PACKET_HDR_SIZE + SizeField(shard) > |shard| then |shard|
    else PACKET_HDR_SIZE + SizeField(shard)
  }

  /** A rebuilt fragment is cut at the size its header gives, if it has that much, and else it stays as it is. */
  lemma {:induction false} RebuiltAt(shard: Vec, size: nat)
    requires size <= |shard|
    ensures RebuiltSize(shard) == size <==>
      if |shard| >= 3 && (var high: nat, low: nat := shard[1], shard[2]; 3 + 256 * high + low <= |shard|)
      then size >= 3 && shard[1] == (size - 3) / 256 && shard[2] == (size - 3) % 256
      else size == |shard|
  {}

  predicate DataMissing(frags: Shards, k: nat)
    requires k <= |frags|
  {
    exists i :: 0 <= i < k && frags[i] == []
  }

  predicate Params(k: nat, n: nat)
  {
    1 <= k <= n <= 255
  }

  lemma {:induction false} SizesBound(frags: Shards, lo: nat, hi: nat)
    requires lo <= hi <= |frags|
    ensures forall i :: lo <= i < hi ==> |frags[i]| <= MaxSize(frags, lo, hi)
    ensures MaxSize(frags, lo, hi) > 0 ==> exists i :: lo <= i < hi && |frags[i]| == MaxSize(frags, lo, hi)
  {
    if lo < hi {
      SizesBound(frags, lo, hi - 1);
    }
  }

  /** The decoding size is that of the largest parity fragment there, or without any of the largest fragment. */
  lemma {:induction false} DecodeSizeFrom(frags: Shards, k: nat)
    requires k <= |frags|
    ensures var lo := if exists i :: k <= i < |frags| && frags[i] != [] then k else 0;
      && (forall i :: lo <= i < |frags| ==> |frags[i]| <= DecodeSize(frags, k))
      && (DecodeSize(frags, k) > 0 ==> exists i :: lo <= i < |frags| && |frags[i]| == DecodeSize(frags, k))
  {
    SizesBound(frags, k, |frags|);
    SizesBound(frags, 0, k);
  }

  lemma {:induction false} CountOfFit(frags: Shards, sz: nat, lo: nat, hi: nat)
    requires lo <= hi <= |frags| && sz > 0
    ensures CountPresent(FitAll(frags, sz), lo, hi) == CountPresent(frags, lo, hi)
    decreases hi - lo
  {
    if lo < hi {
      CountOfFit(frags, sz, lo, hi - 1);
    }
  }

  lemma {:induction false} SomePresent(frags: Shards, lo: nat, hi: nat)
    requires lo <= hi <= |frags| && CountPresent(frags, lo, hi) > 0
    ensures exists i :: lo <= i < hi && frags[i] != []
    decreases hi - lo
  {
    if !Present(frags, hi - 1) {
      SomePresent(frags, lo, hi - 1);
    }
  }

  /** With k fragments there is always something to decode. */
  lemma {:induction false} FitIsDecodable(frags: Shards, k: nat)
    requires Params(k, |frags|) && CountPresent(frags, 0, |frags|) >= k
    ensures Decodable(FitAll(frags, DecodeSize(frags, k)), k, DecodeSize(frags, k))
  {
    SomePresent(frags, 0, |frags|);
    SizesBound(frags, 0, k);
    SizesBound(frags, k, |frags|);
    CountOfFit(frags, DecodeSize(frags, k), 0, |frags|);
  }

  /** `Recover`: the fragments with every missing data fragment rebuilt. */
  ghost function Recovered(frags: Shards, k: nat): (r: Shards)
    requires Params(k, |frags|) && CountPresent(frags, 0, |frags|) >= k
    ensures |r| == |frags|
  {
    FitIsDecodable(frags, k);
    var sz := DecodeSize(frags, k);
    seq(|frags|, i requires 0 <= i < |frags| =>
      if i < k && frags[i] == [] then
        var shard := Rebuilt(FitAll(frags, sz), k, sz, i);
        shard[..RebuiltSize(shard)]
      else frags[i])
  }

  // ---------------------------------------------------------------------- output

  /** The fragments received of a slot from position `from` to `to`, in order. */
  function HandOver(slot: Slot, from: nat, to: nat): seq<Handed>
    requires to <= |slot.frags|
    decreases if from < to then to - from else 0
  {
    if from >= to then []
    else (if slot.frags[from] == [] then [] else [Handed(slot.idx, from, slot.frags[from])]) + HandOver(slot, from + 1, to)
  }

  predicate SlotsFit(live: seq<Slot>, n: nat)
  {
    forall i :: 0 <= i < |live| ==> |live[i].frags| == n
  }

  /** What is left of the older blocks, in order. */
  function Flush(live: seq<Slot>, k: nat, n: nat): seq<Handed>
    requires k <= n && SlotsFit(live, n)
  {
    if live == [] then []
    else HandOver(live[0], live[0].sent, k) + Flush(live[1..], k, n)
  }

  /** Where the gapless run of fragments from `from` on ends. */
  function RunEnd(frags: Shards, from: nat, k: nat): (e: nat)
    requires from <= k <= |frags|
    ensures from <= e <= k
    ensures forall i :: from <= i < e ==> frags[i] != []
    decreases k - from
  {
    if from == k || frags[from] == [] then from else RunEnd(frags, from + 1, k)
  }

  // -------------------------------------------------------------------- one packet

  /**
    What every window satisfies between packets: consecutive blocks ending with the
    last known one, at most 40 of them, none of which has k fragments.
  */
  predicate Valid(w: Window, k: nat, n: nat)
  {
    && |w.live| <= RING_SIZE
    && (w.live != [] ==> w.last.Some? && Consecutive(w.live, w.last.value))
    && SlotsOk(w.live, k, n)
  }

  /** The slots hold consecutive blocks, the last one block `top`. */
  predicate Consecutive(live: seq<Slot>, top: nat)
  {
    forall i :: 0 <= i < |live| ==> live[i].idx + |live| == top + 1 + i
  }

  predicate SlotsOk(live: seq<Slot>, k: nat, n: nat)
  {
    forall i :: 0 <= i < |live| ==> SlotOk(live[i], k, n)
  }

  predicate SlotOk(slot: Slot, k: nat, n: nat)
  {
    |slot.frags| == n && slot.sent < k && CountPresent(slot.frags, 0, n) < k
  }

  /** The slot a fragment was just stored in, recovered if anything is missing. */
  ghost function Completed(slot: Slot, k: nat): (t: Slot)
    requires Params(k, |slot.frags|) && CountPresent(slot.frags, 0, |slot.frags|) >= k
    ensures |t.frags| == |slot.frags|
  {
    slot.(frags := Recovered(slot.frags, k))
  }

  /** `processDataPacket` once the slot is known: store fragment f at position i. */
  ghost function StoreAt(w: Window, k: nat, n: nat, i: nat, f: nat, body: Vec): (r: (Window, seq<Handed>))
    requires Params(k, n) && Valid(w, k, n) && i < |w.live| && body != []
  {
    if f >= n || w.live[i].frags[f] != [] then (w, [])
    else
      var stored := w.live[i].(frags := w.live[i].frags[f := body]);
      // the front block passes on what has no gap before it
      var end := if i == 0 then RunEnd(stored.frags, stored.sent, k) else stored.sent;
      var early := HandOver(stored, stored.sent, end);
      var slot := stored.(sent := end);
      if end == k then (w.(live := w.live[1..]), early)
      else if CountPresent(slot.frags, 0, n) < k then (w.(live := w.live[i := slot]), early)
      else
        (w.(live := w.live[i + 1..]), early + Flush(w.live[..i], k, n) + HandOver(Completed(slot, k), end, k))
  }

  /** `processDataPacket` for an authentic fragment. */
  ghost function Step(w: Window, k: nat, n: nat, b: nat, f: nat, body: Vec): (r: (Window, seq<Handed>))
    requires Params(k, n) && Valid(w, k, n) && body != []
  {
    if Rejects(w, b) then (w, [])
    else if Find(w.live, b) < |w.live| then StoreAt(w, k, n, Find(w.live, b), f, body)
    else
      AdmitIsValid(w, k, n, b);
      var w1 := Admit(w, n, b);
      StoreAt(w1, k, n, |w1.live| - 1, f, body)
  }

  lemma {:induction false} EmptySlotOk(k: nat, n: nat, b: nat)
    requires Params(k, n)
    ensures SlotOk(EmptySlot(n, b), k, n)
  {
    NothingPresent(EmptySlot(n, b).frags, n);
  }

  lemma {:induction false} NothingPresent(frags: Shards, hi: nat)
    requires hi <= |frags| && forall i :: 0 <= i < hi ==> frags[i] == []
    ensures CountPresent(frags, 0, hi) == 0
  {
    if hi > 0 {
      NothingPresent(frags, hi - 1);
    }
  }

  lemma {:induction false} AdmitIsValid(w: Window, k: nat, n: nat, b: nat)
    requires Params(k, n) && Valid(w, k, n) && (w.last.Some? ==> w.last.value < b)
    ensures var w1 := Admit(w, n, b);
      Valid(w1, k, n) && w1.live != [] && w1.last == Some(b) && w1.live[|w1.live| - 1] == EmptySlot(n, b)
  {
    hide SlotOk, Consecutive, SlotsOk;
    var count := NewCount(w, b);
    var added := EmptySlots(n, b + 1 - count, count);
    AddedSlots(k, n, b, count);
    ConsecutiveAfter(w, b, added);
    SlotsJoin(w.live, added, k, n);
  }

  lemma {:induction false} AddedSlots(k: nat, n: nat, b: nat, count: nat)
    requires Params(k, n) && count <= b + 1
    ensures var added := EmptySlots(n, b + 1 - count, count);
      Consecutive(added, b) && SlotsOk(added, k, n)
  {
    hide SlotOk;
    var added := EmptySlots(n, b + 1 - count, count);
    forall i | 0 <= i < |added| ensures SlotOk(added[i], k, n) && added[i].idx == b + 1 - count + i {
      EmptySlotOk(k, n, b + 1 - count + i);
      assert added[i] == EmptySlot(n, b + 1 - count + i);
    }
  }

  lemma {:induction false} ConsecutiveAfter(w: Window, b: nat, added: seq<Slot>)
    requires w.live != [] ==> w.last.Some? && Consecutive(w.live, w.last.value)
    requires w.last.Some? ==> w.last.value < b
    requires |added| == NewCount(w, b) && Consecutive(added, b) && |w.live| <= RING_SIZE
    ensures Consecutive(Newest(w.live + added), b)
  {
    var all := w.live + added;
    forall i | 0 <= i < |all| && |all| <= i + RING_SIZE ensures all[i].idx + |all| == b + 1 + i {
      if i < |w.live| {
        assert all[i] == w.live[i];
      } else {
        assert all[i] == added[i - |w.live|];
      }
    }
  }

  lemma {:induction false} SlotsJoin(a: seq<Slot>, b: seq<Slot>, k: nat, n: nat)
    requires SlotsOk(a, k, n) && SlotsOk(b, k, n)
    ensures SlotsOk(a + b, k, n) && SlotsOk(Newest(a + b), k, n)
  {
    hide SlotOk;
  }
}
