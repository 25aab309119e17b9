/**
  The slots of the receive ring as the program stores them: fixed buffers with the
  sizes received, in a circular array.
*/
module RingItems {
  import opened Matrices
  import opened ReedSolomon
  import opened Packets
  import opened Words
  import opened Window

  /** `RingItem`. A size of 0 means the fragment has not been received. */
  datatype RingItem = RingItem(blockIdx: nat, fragments: seq<Vec>, sizes: seq<nat>, toSend: nat, has: nat)

  /** Buffers and sizes for n fragments. */
  predicate Shaped(item: RingItem, n: nat)
  {
    && |item.fragments| == n && |item.sizes| == n
    && (forall j :: 0 <= j < n ==> |item.fragments[j]| == MAX_FEC_PAYLOAD)
    && (forall j :: 0 <= j < n ==> item.sizes[j] <= MAX_FEC_PAYLOAD)
  }

  /** `Reset` looks at the number of buffers only. */
  lemma {:induction false} ShapeDecides(item: RingItem, m: nat, n: nat)
    requires Shaped(item, m)
    ensures |item.fragments| == n ==> m == n && |item.sizes| == n
  {}

  lemma {:induction false} NewBuffersShaped(item: RingItem, n: nat)
    ensures Shaped(item.(fragments := seq(n, _ => Zeros(MAX_FEC_PAYLOAD)), sizes := seq(n, _ => 0)), n)
  {}

  /** The fragments received: the filled part of each buffer. */
  function FragsOf(item: RingItem, n: nat): (frags: Shards)
    requires Shaped(item, n)
    ensures |frags| == n
  {
    seq(n, j requires 0 <= j < n => item.fragments[j][..item.sizes[j]])
  }

  function SlotOf(item: RingItem, n: nat): Slot
    requires Shaped(item, n)
  {
    Slot(item.blockIdx, FragsOf(item, n), item.toSend)
  }

  predicate ZeroFrom(buf: Vec, i: nat)
  {
    forall j :: i <= j < |buf| ==> buf[j] == 0
  }

  /** The count is right, and received fragments are padded with zeros. */
  predicate Consistent(item: RingItem, n: nat)
  {
    && Shaped(item, n)
    && item.has == CountPresent(FragsOf(item, n), 0, n)
    && (forall j :: 0 <= j < n && item.sizes[j] > 0 ==> ZeroFrom(item.fragments[j], item.sizes[j]))
  }

  predicate AllShaped(items: seq<RingItem>, n: nat)
  {
    |items| == RING_SIZE && forall i :: 0 <= i < RING_SIZE ==> Shaped(items[i], n)
  }

  // -------------------------------------------------------------- circular positions

  /** `modN`. */
  function ModN(x: int, base: int): (r: int)
    requires base > 0
    ensures 0 <= x < base ==> r == x
    ensures base <= x < 2 * base ==> r == x - base
  {
    ModOnce(x, base);
    (base + x % base) % base
  }

  lemma {:induction false} ModOnce(x: int, base: int)
    requires base > 0
    ensures 0 <= x < base ==> (base + x % base) % base == x
    ensures base <= x < 2 * base ==> (base + x % base) % base == x - base
  {
    if 0 <= x < base {
      RemainderIs(base + x, base, 1, x);
    } else if base <= x < 2 * base {
      RemainderIs(x, base, 1, x - base);
    }
  }

  /** Ring index of the i-th live slot. */
  function At(front: nat, i: nat): (r: nat)
    requires front < RING_SIZE && i <= RING_SIZE
    ensures r < RING_SIZE
  {
    if front + i < RING_SIZE then front + i else front + i - RING_SIZE
  }

  predicate Placed(items: seq<RingItem>, front: nat, alloc: nat, n: nat)
  {
    AllShaped(items, n) && front < RING_SIZE && alloc <= RING_SIZE
  }

  /** The live slots, oldest first. */
  function LiveOf(items: seq<RingItem>, front: nat, alloc: nat, n: nat): (live: seq<Slot>)
    requires Placed(items, front, alloc, n)
    ensures |live| == alloc
  {
    seq(alloc, i requires 0 <= i < alloc => SlotOf(items[At(front, i)], n))
  }

  predicate LiveConsistent(items: seq<RingItem>, front: nat, alloc: nat, n: nat)
    requires Placed(items, front, alloc, n)
  {
    forall i :: 0 <= i < alloc ==> Consistent(items[At(front, i)], n)
  }

  /** All live slots but the front one are consistent. */
  predicate RestConsistent(items: seq<RingItem>, front: nat, alloc: nat, n: nat)
    requires Placed(items, front, alloc, n)
  {
    forall i :: 1 <= i < alloc ==> Consistent(items[At(front, i)], n)
  }

  /** Writing a live slot changes that slot only. */
  lemma {:induction false} LiveWrite(items: seq<RingItem>, front: nat, alloc: nat, n: nat, i: nat, item: RingItem)
    requires Placed(items, front, alloc, n) && i < alloc && Shaped(item, n)
    ensures var items' := items[At(front, i) := item];
      && Placed(items', front, alloc, n)
      && LiveOf(items', front, alloc, n) == LiveOf(items, front, alloc, n)[i := SlotOf(item, n)]
      && (LiveConsistent(items, front, alloc, n) && Consistent(item, n) ==> LiveConsistent(items', front, alloc, n))
      && (LiveConsistent(items, front, alloc, n) && i == 0 ==> RestConsistent(items', front, alloc, n))
      && (RestConsistent(items, front, alloc, n) && i == 0 ==> RestConsistent(items', front, alloc, n))
  {
    hide Shaped, SlotOf, Consistent;
  }

  /** Filling the next free slot appends. */
  lemma {:induction false} LivePush(items: seq<RingItem>, front: nat, alloc: nat, n: nat, item: RingItem)
    requires Placed(items, front, alloc, n) && alloc < RING_SIZE && Shaped(item, n)
    ensures var items' := items[At(front, alloc) := item];
      && Placed(items', front, alloc + 1, n)
      && LiveOf(items', front, alloc + 1, n) == LiveOf(items, front, alloc, n) + [SlotOf(item, n)]
      && (LiveConsistent(items, front, alloc, n) && Consistent(item, n) ==> LiveConsistent(items', front, alloc + 1, n))
  {
    hide Shaped, SlotOf, Consistent;
  }

  /** In a full ring the front slot is reused, and the front moves on. */
  lemma {:induction false} LiveEvict(items: seq<RingItem>, front: nat, n: nat, item: RingItem)
    requires Placed(items, front, RING_SIZE, n) && Shaped(item, n)
    ensures var items' := items[front := item]; var front' := At(front, 1);
      && Placed(items', front', RING_SIZE, n)
      && LiveOf(items', front', RING_SIZE, n) == LiveOf(items, front, RING_SIZE, n)[1..] + [SlotOf(item, n)]
      && (LiveConsistent(items, front, RING_SIZE, n) && Consistent(item, n) ==> LiveConsistent(items', front', RING_SIZE, n))
  {
    hide Shaped, SlotOf, Consistent;
    forall i | 0 <= i < RING_SIZE - 1 ensures At(At(front, 1), i) == At(front, i + 1) && At(front, i + 1) != front {}
    assert At(At(front, 1), RING_SIZE - 1) == front;
  }

  /** Clearing the front slot and moving on drops the oldest block. */
  lemma {:induction false} LiveAdvance(items: seq<RingItem>, front: nat, alloc: nat, n: nat, item: RingItem)
    requires Placed(items, front, alloc, n) && alloc > 0 && Shaped(item, n)
    ensures var items' := items[front := item]; var front' := At(front, 1);
      && Placed(items', front', alloc - 1, n)
      && LiveOf(items', front', alloc - 1, n) == LiveOf(items, front, alloc, n)[1..]
      && (RestConsistent(items, front, alloc, n) ==> LiveConsistent(items', front', alloc - 1, n))
  {
    hide Shaped, SlotOf, Consistent;
    forall i | 0 <= i < alloc - 1 ensures At(At(front, 1), i) == At(front, i + 1) && At(front, i + 1) != front {}
  }

  // ------------------------------------------------------------- operations on a slot

  /** A slot taken for block b: sizes cleared, buffers left as they are. */
  function Taken(item: RingItem, b: nat, n: nat): RingItem
  {
    item.(blockIdx := b, toSend := 0, has := 0, sizes := seq(n, _ => 0))
  }

  lemma {:induction false} TakenIsEmpty(item: RingItem, b: nat, n: nat)
    requires Shaped(item, n)
    ensures Consistent(Taken(item, b, n), n) && SlotOf(Taken(item, b, n), n) == EmptySlot(n, b)
  {
    var t := Taken(item, b, n);
    assert FragsOf(t, n) == EmptySlot(n, b).frags;
    NothingPresent(FragsOf(t, n), n);
  }

  /** `copy`: as much of the source as fits. */
  function CopyInto(buf: Vec, data: Vec): (r: Vec)
    ensures |r| == |buf|
  {
    if |data| >= |buf| then data[..|buf|] else data + buf[|data|..]
  }

  function WithBuffer(item: RingItem, f: nat, buf: Vec): RingItem
    requires f < |item.fragments|
  {
    item.(fragments := item.fragments[f := buf])
  }

  function WithSize(item: RingItem, f: nat, size: nat): RingItem
    requires f < |item.sizes|
  {
    item.(sizes := item.sizes[f := size], has := item.has + 1)
  }

  /** Clearing the buffer, copying the plaintext and setting the size stores a fragment. */
  lemma {:induction false} StoreFragment(item: RingItem, n: nat, f: nat, body: Vec)
    requires Consistent(item, n) && f < n && item.sizes[f] == 0 && 0 < |body| <= MAX_FEC_PAYLOAD
    ensures var buf := CopyInto(Zeros(MAX_FEC_PAYLOAD), body);
      var stored := WithSize(WithBuffer(item, f, buf), f, |body|);
      && Consistent(stored, n)
      && SlotOf(stored, n) == SlotOf(item, n).(frags := FragsOf(item, n)[f := body])
  {
    var buf := CopyInto(Zeros(MAX_FEC_PAYLOAD), body);
    var stored := WithSize(WithBuffer(item, f, buf), f, |body|);
    assert buf[..|body|] == body;
    assert FragsOf(stored, n) == FragsOf(item, n)[f := body];
    CountAfterStore(FragsOf(item, n), f, body, n);
  }

  /** The send pointer is not part of what makes a slot consistent. */
  lemma {:induction false} SentIrrelevant(item: RingItem, n: nat, t: nat)
    requires Shaped(item, n)
    ensures var item' := item.(toSend := t);
      && Shaped(item', n) && FragsOf(item', n) == FragsOf(item, n)
      && SlotOf(item', n) == SlotOf(item, n).(sent := t)
      && (Consistent(item, n) ==> Consistent(item', n))
  {
    hide CountPresent, ZeroFrom;
  }

  lemma {:induction false} PointerMoved(items: seq<RingItem>, front: nat, alloc: nat, n: nat, idx: nat, t: nat)
    requires Placed(items, front, alloc, n) && idx < RING_SIZE
    ensures var items' := items[idx := items[idx].(toSend := t)];
      && Placed(items', front, alloc, n)
      && (LiveConsistent(items, front, alloc, n) ==> LiveConsistent(items', front, alloc, n))
      && (RestConsistent(items, front, alloc, n) ==> RestConsistent(items', front, alloc, n))
  {
    hide Consistent, Shaped;
    SentIrrelevant(items[idx], n, t);
  }

  // ----------------------------------------------------------------------- recovery

  /** The first sz bytes of the buffer of a received fragment: the fragment, cut or padded. */
  lemma {:induction false} BufferFits(item: RingItem, n: nat, j: nat, sz: nat)
    requires Consistent(item, n) && j < n && sz <= MAX_FEC_PAYLOAD
    ensures FitAll(FragsOf(item, n), sz)[j] == if item.sizes[j] == 0 then [] else item.fragments[j][..sz]
  {
    var buf, f := item.fragments[j], FragsOf(item, n)[j];
    assert f == buf[..item.sizes[j]];
    if 0 < item.sizes[j] <= sz {
      assert buf[..sz] == f + Zeros(sz - |f|);
    }
  }

  /** A slot with fragment j put back from a rebuilt shard. */
  function PutBack(item: RingItem, j: nat, shard: Vec): RingItem
    requires j < |item.fragments| && j < |item.sizes|
  {
    item.(fragments := item.fragments[j := CopyInto(item.fragments[j], shard)],
          sizes := item.sizes[j := RebuiltSize(shard)])
  }

  lemma {:induction false} PutBackStores(item: RingItem, n: nat, j: nat, shard: Vec)
    requires Shaped(item, n) && j < n && |shard| <= MAX_FEC_PAYLOAD
    ensures Shaped(PutBack(item, j, shard), n)
    ensures FragsOf(PutBack(item, j, shard), n) == FragsOf(item, n)[j := shard[..RebuiltSize(shard)]]
  {
    var item' := PutBack(item, j, shard);
    assert item'.fragments[j][..RebuiltSize(shard)] == shard[..RebuiltSize(shard)];
    assert FragsOf(item', n) == FragsOf(item, n)[j := shard[..RebuiltSize(shard)]];
  }

  /** The fragments with the first m positions recovered. */
  ghost predicate RecoveredTo(frags: Shards, k: nat, m: nat, now: Shards)
    requires Params(k, |frags|) && CountPresent(frags, 0, |frags|) >= k && m <= k
  {
    && |now| == |frags|
    && forall j :: 0 <= j < |frags| ==> now[j] == if j < m then Recovered(frags, k)[j] else frags[j]
  }

  lemma {:induction false} RecoveredStep(frags: Shards, k: nat, m: nat, now: Shards, shards: Shards)
    requires Params(k, |frags|) && CountPresent(frags, 0, |frags|) >= k && m < k && RecoveredTo(frags, k, m, now)
    requires var sz := DecodeSize(frags, k);
      Decodable(FitAll(frags, sz), k, sz) && shards == Reconstructed(FitAll(frags, sz), k, sz)
    ensures frags[m] != [] ==> RecoveredTo(frags, k, m + 1, now)
    ensures frags[m] == [] ==>
      |shards[m]| == DecodeSize(frags, k) && RecoveredTo(frags, k, m + 1, now[m := shards[m][..RebuiltSize(shards[m])]])
  {
    hide DecodeSize, Rebuilt, RebuiltSize, CountPresent, Decodable;
  }

  lemma {:induction false} RecoveredAll(frags: Shards, k: nat, now: Shards)
    requires Params(k, |frags|) && CountPresent(frags, 0, |frags|) >= k
    ensures RecoveredTo(frags, k, 0, frags)
    ensures RecoveredTo(frags, k, k, now) ==> now == Recovered(frags, k)
  {
    hide Rebuilt, DecodeSize;
  }
}
