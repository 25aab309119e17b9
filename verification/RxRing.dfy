/** The receive ring of pkg/rx/ring.go: a circular array of 40 blocks. */
module RxRing {
  import opened Gf256
  import opened Matrices
  import opened ReedSolomon
  import opened Codec
  import opened Packets
  import opened Window
  import opened RingItems

  /** `noLastKnownBlock`: the largest 64-bit number. */
  const NO_BLOCK: nat := 0xFFFF_FFFF_FFFF_FFFF
  const MAX_BLOCK_IDX: nat := 0x7F_FFFF_FFFF_FFFF

  class Ring {
    const items: array<RingItem>
    var front: nat
    var alloc: nat
    var lastKnown: nat
    var fecK: nat
    var fecN: nat
    var decoder: Fec

    /** The slots are in place. */
    ghost predicate Laid()
      reads this, items
    {
      items.Length == RING_SIZE && Placed(items[..], front, alloc, fecN)
    }

    ghost predicate Base()
      reads this, items, decoder, decoder.enc
    {
      && Params(fecK, fecN) && decoder.Valid() && decoder.k == fecK && decoder.n == fecN
      && Laid() && (lastKnown == NO_BLOCK || lastKnown <= MAX_BLOCK_IDX)
    }

    /** Between packets every live slot is consistent. */
    ghost predicate Inv()
      reads this, items, decoder, decoder.enc
    {
      Base() && LiveConsistent(items[..], front, alloc, fecN)
    }

    /** While the front block is being completed, all others are. */
    ghost predicate Completing()
      reads this, items, decoder, decoder.enc
    {
      Base() && alloc > 0 && RestConsistent(items[..], front, alloc, fecN)
    }

    /** The window this ring stores. */
    ghost function View(): Window
      requires Laid()
      reads this, items
    {
      Window(LiveOf(items[..], front, alloc, fecN), if lastKnown == NO_BLOCK then None else Some(lastKnown))
    }

    /** `NewRing`: an error unless the parameters fit. */
    static method New(k: nat, n: nat) returns (r: Ring?)
      ensures r == null <==> !(1 <= k <= n <= 255)
      ensures r != null ==>
        && fresh(r) && r.Inv() && fresh(r.items) && fresh(r.decoder) && fresh(r.decoder.enc)
        && r.fecK == k && r.fecN == n && r.View() == Window([], None)
    {
      hide Ring.Inv, Fec.Valid;
      if k < 1 || n < k || n > 255 {
        return null;
      }
      r := new Ring(k, n);
    }

    constructor (k: nat, n: nat)
      requires Params(k, n)
      ensures Inv() && fresh(items) && fresh(decoder) && fresh(decoder.enc) && fecK == k && fecN == n
      ensures View() == Window([], None)
    {
      var decoder := new Fec(k, n);
      var blank := RingItem(0, seq(n, _ => Zeros(MAX_FEC_PAYLOAD)), seq(n, _ => 0), 0, 0);
      var items := new RingItem[RING_SIZE](_ => blank);
      this.decoder := decoder;
      this.items := items;
      fecK, fecN, front, alloc, lastKnown := k, n, 0, 0, NO_BLOCK;
    }

    /** `clearItem`. */
    method ClearItem(idx: nat)
      requires items.Length == RING_SIZE && idx < RING_SIZE && |items[idx].sizes| == fecN
      modifies items
      ensures items[..] == old(items[..])[idx := Taken(old(items[idx]), 0, fecN)]
    {
      var item := items[idx].(blockIdx := 0, has := 0, toSend := 0);
      for i := 0 to fecN
        invariant |item.sizes| == fecN && forall j :: 0 <= j < i ==> item.sizes[j] == 0
        invariant item == old(items[idx]).(blockIdx := 0, has := 0, toSend := 0, sizes := item.sizes)
      {
        item := item.(sizes := item.sizes[i := 0]);
      }
      assert item.sizes == seq(fecN, _ => 0);
      items[idx] := item;
    }

    /** `Reset`: as new, or an error and nothing changed when the parameters do not fit. */
    method Reset(k: nat, n: nat) returns (ok: bool)
      requires Inv()
      modifies this, items
      ensures ok <==> 1 <= k <= n <= 255
      ensures Inv() && decoder.Valid()
      ensures !ok ==> unchanged(this) && unchanged(items)
      ensures ok ==> fecK == k && fecN == n && View() == Window([], None) && fresh(decoder) && fresh(decoder.enc)
    {
      hide Fec.Valid, LiveOf, LiveConsistent, Shaped;
      ok := false;
      if 1 <= k <= n <= 255 {
        Restart(k, n);
        ok := true;
      }
    }

    /** As new, with buffers reallocated when n changes. */
    method Restart(k: nat, n: nat)
      requires Inv() && Params(k, n)
      modifies this, items
      ensures Inv() && fecK == k && fecN == n && View() == Window([], None)
      ensures fresh(decoder) && fresh(decoder.enc)
    {
      hide Shaped, SlotOf, Consistent, Fec.Valid;
      decoder := new Fec(k, n);
      var oldN := fecN;
      fecK, fecN, front, alloc, lastKnown := k, n, 0, 0, NO_BLOCK;
      for i := 0 to RING_SIZE
        invariant decoder.Valid() && decoder.k == k && decoder.n == n && fresh(decoder) && fresh(decoder.enc)
        invariant fecK == k && fecN == n && front == 0 && alloc == 0 && lastKnown == NO_BLOCK
        invariant forall j :: 0 <= j < i ==> Shaped(items[j], n)
        invariant forall j :: i <= j < RING_SIZE ==> Shaped(items[j], oldN)
      {
        ShapeDecides(items[i], oldN, n);
        if |items[i].fragments| != n {
          NewBuffersShaped(items[i], n);
          items[i] := items[i].(fragments := seq(n, _ => Zeros(MAX_FEC_PAYLOAD)), sizes := seq(n, _ => 0));
        }
        ghost var before := items[..];
        TakenIsEmpty(before[i], 0, n);
        ClearItem(i);
        assert items[..] == before[i := Taken(before[i], 0, n)];
      }
    }

    /** `ringPush`: the next free slot, or the front one of a full ring. */
    method RingPush() returns (idx: nat, evicted: int)
      requires Inv()
      modifies this
      ensures items[..] == old(items[..]) && fecK == old(fecK) && fecN == old(fecN)
      ensures decoder == old(decoder) && lastKnown == old(lastKnown)
      ensures old(alloc) < RING_SIZE ==>
        idx == At(old(front), old(alloc)) && evicted == -1 && front == old(front) && alloc == old(alloc) + 1
      ensures old(alloc) == RING_SIZE ==>
        idx == evicted == old(front) && front == At(old(front), 1) && alloc == RING_SIZE
    {
      if alloc < RING_SIZE {
        idx := ModN(front + alloc, RING_SIZE);
        alloc := alloc + 1;
        return idx, -1;
      }
      evicted := front;
      front := ModN(front + 1, RING_SIZE);
      return evicted, evicted;
    }

    /** One more block at the end of the window. */
    method PushBlock(b: nat) returns (idx: nat, evicted: int)
      requires Inv()
      modifies this, items
      ensures Inv() && fecK == old(fecK) && fecN == old(fecN) && decoder == old(decoder) && lastKnown == old(lastKnown)
      ensures View().live == Newest(old(View()).live + [EmptySlot(fecN, b)])
      ensures alloc > 0 && idx == At(front, alloc - 1) && -1 <= evicted < RING_SIZE
      ensures evicted >= 0 ==> evicted == idx
      ensures items[idx].sizes == seq(fecN, _ => 0)
      ensures forall i :: 0 <= i < RING_SIZE && i != idx ==> items[i] == old(items[i])
    {
      hide Fec.Valid, Consistent, SlotOf, EmptySlot, LiveOf, LiveConsistent;
      ghost var before, f, a := items[..], front, alloc;
      idx, evicted := RingPush();
      ghost var t := Taken(before[idx], b, fecN);
      TakenIsEmpty(before[idx], b, fecN);
      var item := items[idx].(blockIdx := b, toSend := 0, has := 0);
      for j := 0 to fecN
        invariant |item.sizes| == fecN && forall i :: 0 <= i < j ==> item.sizes[i] == 0
        invariant item == before[idx].(blockIdx := b, toSend := 0, has := 0, sizes := item.sizes)
      {
        item := item.(sizes := item.sizes[j := 0]);
      }
      assert item.sizes == seq(fecN, _ => 0);
      items[idx] := item;
      assert items[..] == before[idx := t];
      if a < RING_SIZE {
        LivePush(before, f, a, fecN, t);
        assert |LiveOf(items[..], front, alloc, fecN)| <= RING_SIZE;
      } else {
        LiveEvict(before, f, fecN, t);
      }
    }

    /** The loop over the live slots in `GetBlockRingIdx`. */
    method FindBlock(b: nat) returns (idx: nat, found: bool)
      requires Inv()
      ensures found <==> Find(View().live, b) < alloc
      ensures idx < RING_SIZE && (found ==> idx == At(front, Find(View().live, b)))
    {
      ghost var live := View().live;
      idx := front;
      var c := alloc;
      while c > 0
        invariant 0 <= c <= alloc && idx == At(front, alloc - c)
        invariant forall j :: 0 <= j < alloc - c ==> live[j].idx != b
      {
        ghost var i := alloc - c;
        assert live[i].idx == items[At(front, i)].blockIdx;
        if items[idx].blockIdx == b {
          FindAt(live, b, i);
          return idx, true;
        }
        idx, c := ModN(idx + 1, RING_SIZE), c - 1;
      }
      FindAt(live, b, alloc);
      return idx, false;
    }

    /**
      `GetBlockRingIdx`: the slot of block b. Blocks up to the last known one that are
      not in flight are rejected; for a later one the window is moved on. The slots
      returned as evicted have been taken over by new blocks: they hold nothing.
    */
    method GetBlockRingIdx(b: nat) returns (ringIdx: int, evicted: seq<nat>, valid: bool)
      requires Inv() && b <= MAX_BLOCK_IDX
      modifies this, items
      ensures Inv() && fecK == old(fecK) && fecN == old(fecN) && decoder == old(decoder)
      ensures valid <==> !Rejects(old(View()), b)
      ensures Find(old(View()).live, b) < old(alloc) ==>
        View() == old(View()) && ringIdx == At(front, Find(old(View()).live, b)) && evicted == []
      ensures Find(old(View()).live, b) == old(alloc) && valid ==>
        View() == Admit(old(View()), fecN, b) && alloc > 0 && ringIdx == At(front, alloc - 1)
      ensures !valid ==> View() == old(View())
      ensures forall e :: e in evicted ==> e < RING_SIZE && items[e].sizes == seq(fecN, _ => 0)
    {
      hide Find, Newest, LiveOf, LiveConsistent, Fec.Valid, Shaped, SlotOf;
      var idx, found := FindBlock(b);
      if found {
        return idx, [], true;
      }
      if lastKnown != NO_BLOCK && b <= lastKnown {
        return -1, [], false;
      }
      var newBlocks := 1;
      if lastKnown != NO_BLOCK {
        newBlocks := b - lastKnown;
        if newBlocks > RING_SIZE {
          newBlocks := RING_SIZE;
        }
      }
      ghost var w := View();
      assert newBlocks == NewCount(w, b);
      lastKnown := b;
      evicted := [];
      NewestOfFew(w.live);
      for i := 0 to newBlocks
        invariant Inv() && fecK == old(fecK) && fecN == old(fecN) && decoder == old(decoder) && lastKnown == b
        invariant View().live == Newest(w.live + EmptySlots(fecN, b + 1 - newBlocks, i))
        invariant i > 0 ==> alloc > 0 && idx == At(front, alloc - 1)
        invariant forall e :: e in evicted ==> e < RING_SIZE && items[e].sizes == seq(fecN, _ => 0)
      {
        var evictedIdx;
        ghost var added := EmptySlots(fecN, b + 1 - newBlocks, i);
        idx, evictedIdx := PushBlock(b + i + 1 - newBlocks);
        if evictedIdx >= 0 {
          evicted := evicted + [evictedIdx];
        }
        NewestStep(w.live + added, EmptySlot(fecN, b + i + 1 - newBlocks));
        assert (w.live + added) + [EmptySlot(fecN, b + i + 1 - newBlocks)]
            == w.live + EmptySlots(fecN, b + 1 - newBlocks, i + 1);
      }
      ringIdx, valid := idx, true;
    }

    /** `GetFragmentBuffer`: false if the fragment is there already or cannot be; otherwise its buffer is cleared. */
    method GetFragmentBuffer(idx: nat, f: nat) returns (free: bool)
      requires Laid() && idx < RING_SIZE
      modifies items
      ensures free <==> f < fecN && old(items[idx]).sizes[f] == 0
      ensures items[..] == if free then old(items[..])[idx := WithBuffer(old(items[idx]), f, Zeros(MAX_FEC_PAYLOAD))] else old(items[..])
    {
      if f >= fecN || items[idx].sizes[f] > 0 {
        return false;
      }
      items[idx] := WithBuffer(items[idx], f, Zeros(MAX_FEC_PAYLOAD));
      return true;
    }

    /** The copy of the plaintext into the buffer obtained. */
    method FillBuffer(idx: nat, f: nat, data: Vec)
      requires Laid() && idx < RING_SIZE && f < fecN
      modifies items
      ensures items[..] == old(items[..])[idx := WithBuffer(old(items[idx]), f, CopyInto(old(items[idx]).fragments[f], data))]
    {
      items[idx] := WithBuffer(items[idx], f, CopyInto(items[idx].fragments[f], data));
    }

    /** `SetFragmentSize`: whether k fragments are there now. */
    method SetFragmentSize(idx: nat, f: nat, size: nat) returns (complete: bool)
      requires Laid() && idx < RING_SIZE && f < fecN
      modifies items
      ensures items[..] == old(items[..])[idx := WithSize(old(items[idx]), f, size)]
      ensures complete <==> items[idx].has >= fecK
    {
      items[idx] := WithSize(items[idx], f, size);
      complete := items[idx].has >= fecK;
    }

    /** `GetFragment`: empty if it is not there. */
    method GetFragment(idx: nat, f: nat) returns (data: Vec)
      requires Laid() && idx < RING_SIZE
      ensures data == if f < fecN then FragsOf(items[idx], fecN)[f] else []
    {
      if f >= fecN || items[idx].sizes[f] == 0 {
        return [];
      }
      data := items[idx].fragments[f][..items[idx].sizes[f]];
    }

    /** `GetNextToSend` */
    method GetNextToSend(idx: nat) returns (f: nat, ok: bool)
      requires Laid() && idx < RING_SIZE
      modifies items
      ensures ok <==> old(items[idx]).toSend < fecK
      ensures ok ==> f == old(items[idx]).toSend && items[..] == old(items[..])[idx := old(items[idx]).(toSend := f + 1)]
      ensures !ok ==> items[..] == old(items[..])
      ensures Laid() && (old(Inv()) ==> Inv()) && (old(Completing()) ==> Completing())
    {
      hide Fec.Valid, Consistent, Shaped;
      if items[idx].toSend >= fecK {
        return 0, false;
      }
      f, ok := items[idx].toSend, true;
      PointerMoved(items[..], front, alloc, fecN, idx, f + 1);
      items[idx] := items[idx].(toSend := f + 1);
    }

    /** `PeekNextToSend` */
    method PeekNextToSend(idx: nat) returns (f: nat, ok: bool)
      requires Laid() && idx < RING_SIZE
      ensures ok <==> items[idx].toSend < fecK
      ensures ok ==> f == items[idx].toSend
    {
      if items[idx].toSend >= fecK {
        return 0, false;
      }
      return items[idx].toSend, true;
    }

    /** `AdvanceFragmentToSend` */
    method AdvanceFragmentToSend(idx: nat)
      requires Laid() && idx < RING_SIZE
      modifies items
      ensures items[..] == old(items[..])[idx := old(items[idx]).(toSend :=
        if old(items[idx]).toSend < fecK then old(items[idx]).toSend + 1 else old(items[idx]).toSend)]
      ensures Laid() && (old(Inv()) ==> Inv()) && (old(Completing()) ==> Completing())
    {
      hide Fec.Valid, Consistent, Shaped;
      if items[idx].toSend < fecK {
        PointerMoved(items[..], front, alloc, fecN, idx, items[idx].toSend + 1);
        items[idx] := items[idx].(toSend := items[idx].toSend + 1);
      }
    }

    /** `NeedsRecovery`: enough fragments, but not all of the data. */
    method NeedsRecovery(idx: nat) returns (r: bool)
      requires Laid() && Params(fecK, fecN) && idx < RING_SIZE
      ensures r <==> items[idx].has >= fecK && DataMissing(FragsOf(items[idx], fecN), fecK)
    {
      ghost var frags := FragsOf(items[idx], fecN);
      if items[idx].has < fecK {
        return false;
      }
      for i := 0 to fecK
        invariant forall j :: 0 <= j < i ==> frags[j] != []
      {
        if items[idx].sizes[i] == 0 {
          assert frags[i] == [];
          return true;
        }
        assert frags[i] != [];
      }
      return false;
    }

    /** The largest of the sizes from lo to hi, as both loops in `Recover` find it. */
    method LargestSize(idx: nat, lo: nat, hi: nat) returns (m: nat)
      requires Laid() && idx < RING_SIZE && lo <= hi <= fecN
      ensures m == MaxSize(FragsOf(items[idx], fecN), lo, hi) <= MAX_FEC_PAYLOAD
    {
      ghost var frags := FragsOf(items[idx], fecN);
      m := 0;
      for i := lo to hi
        invariant m == MaxSize(frags, lo, i) <= MAX_FEC_PAYLOAD
      {
        assert |frags[i]| == items[idx].sizes[i];
        if items[idx].sizes[i] > m {
          m := items[idx].sizes[i];
        }
      }
    }

    /** The shards for the decoder: received fragments at one size, nil for the others. */
    method BuildShards(idx: nat, sz: nat) returns (shards: array<Slice>)
      requires Laid() && idx < RING_SIZE && Consistent(items[idx], fecN) && sz <= MAX_FEC_PAYLOAD
      ensures fresh(shards) && shards.Length == fecN && AllValid(shards[..]) && fresh(BufsOf(shards[..]))
      ensures ContentsOf(shards[..]) == FitAll(FragsOf(items[idx], fecN), sz)
      ensures forall i :: 0 <= i < fecN ==> shards[i] == Nil || (shards[i].len == sz && items[idx].sizes[i] > 0)
    {
      hide ContentsOf, FitAll, FragsOf, ZeroFrom, CountPresent;
      ghost var want := FitAll(FragsOf(items[idx], fecN), sz);
      shards := new Slice[fecN](_ => Nil);
      for i := 0 to fecN
        invariant forall j :: 0 <= j < i ==>
          (shards[j] == Nil || (shards[j].len == sz && items[idx].sizes[j] > 0)) && shards[j].Valid()
        invariant forall j :: 0 <= j < i ==> shards[j].Contents() == want[j]
        invariant forall j :: i <= j < fecN ==> shards[j] == Nil
        invariant fresh(BufsOf(shards[..]))
      {
        BufferFits(items[idx], fecN, i, sz);
        if items[idx].sizes[i] > 0 {
          ghost var before := shards[..];
          var slice := SliceOf(items[idx].fragments[i][..sz]);
          shards[i] := slice;
          assert shards[..] == before[i := slice];
          assert BufsOf(shards[..]) <= BufsOf(before) + {slice.buf};
        }
      }
      assert ContentsOf(shards[..]) == want;
    }

    static method SliceOf(v: Vec) returns (s: Slice)
      ensures s.Bytes? && s.Valid() && s.len == |v| && fresh(s.buf) && s.Contents() == v
    {
      var buf := new byte[|v|](i requires 0 <= i < |v| => v[i]);
      s := Bytes(buf, |v|);
    }

    /** The rebuilt data shards are copied back, each with the size its own header gives. */
    method PutShardsBack(idx: nat, shards: array<Slice>, ghost frags: Shards, ghost now: Shards) returns (recovered: nat)
      requires Base() && idx < RING_SIZE && frags == FragsOf(items[idx], fecN) && CountPresent(frags, 0, fecN) >= fecK
      requires shards.Length == fecN && AllValid(shards[..]) && now == ContentsOf(shards[..])
      requires var sz := DecodeSize(frags, fecK);
        sz <= MAX_FEC_PAYLOAD && Decodable(FitAll(frags, sz), fecK, sz) && now == Reconstructed(FitAll(frags, sz), fecK, sz)
      modifies items
      ensures items[..] == old(items[..])[idx := items[idx]] && Shaped(items[idx], fecN)
      ensures SlotOf(items[idx], fecN) == Completed(SlotOf(old(items[idx]), fecN), fecK)
      ensures recovered == fecK - CountPresent(frags, 0, fecK)
    {
      hide ContentsOf, FragsOf, Recovered, Reconstructed, RecoveredTo, CountPresent, Fec.Valid, DecodeSize, FitAll, RebuiltSize;
      ghost var k, n := fecK, fecN;
      var item := items[idx];
      ghost var was := item;
      assert Shaped(was, n) && |was.sizes| == n;
      recovered := 0;
      RecoveredAll(frags, k, frags);
      CountUpTo(frags, 0);
      for i := 0 to fecK
        invariant Shaped(item, n) && RecoveredTo(frags, k, i, FragsOf(item, n))
        invariant item == was.(fragments := item.fragments, sizes := item.sizes)
        invariant forall j :: i <= j < n ==> item.sizes[j] == was.sizes[j]
        invariant recovered == i - CountPresent(frags, 0, i) && items[..] == old(items[..])
      {
        CountUpTo(frags, i);
        RecoveredStep(frags, k, i, FragsOf(item, n), now);
        SizeIsLength(was, n, i);
        if item.sizes[i] == 0 {
          assert shards[i].Contents() == now[i];
          var data := if shards[i].Nil? then [] else shards[i].buf[..shards[i].len];
          PutBackStores(item, n, i, data);
          var actualSize := |data|;
          if |data| >= PACKET_HDR_SIZE {
            actualSize := PACKET_HDR_SIZE + SizeField(data);
            if actualSize > |data| {
              actualSize := |data|;
            }
          }
          SizeFromHeader(data);
          item := item.(fragments := item.fragments[i := CopyInto(item.fragments[i], data)],
                        sizes := item.sizes[i := actualSize]);
          recovered := recovered + 1;
        }
      }
      items[idx] := item;
      assert items[..] == old(items[..])[idx := item];
      RecoveredAll(frags, k, FragsOf(item, n));
    }

    /** The decoder on shards of one size. */
    method RunDecoder(shards: array<Slice>, ghost c: Shards) returns (r: FecResult, ghost sz: nat)
      requires decoder.Valid() && AllValid(shards[..]) && OneSize(shards[..]) && c == ContentsOf(shards[..])
      modifies shards
      ensures r ==
        if |c| != decoder.n || CountPresent(c, 0, |c|) < decoder.k then TooFewShards
        else if decoder.EmptyDataIsNil(old(shards[..])) then Ok
        else Panic
      ensures r == Ok ==>
        && Decodable(c, decoder.k, sz)
        && AllValid(shards[..]) && ContentsOf(shards[..]) == Reconstructed(c, decoder.k, sz)
    {
      hide ContentsOf, Reconstructed, Fec.Valid, Fec.Outcome, Fec.FilledIn, Fec.EmptyDataIsNil, Resized, SizeOf, CountPresent, Decodable,
           OneSize;
      ghost var before := shards[..];
      DecoderBounds(decoder);
      decoder.OutcomeOfOneSize(before);
      if |c| == decoder.n && CountPresent(c, 0, |c|) >= decoder.k {
        decoder.OneSizeResized(before);
      }
      r, sz := decoder.Reconstruct(shards);
      if r == Ok {
        decoder.FilledInIsReconstructed(before, shards[..], c, sz);
      }
    }

    /**
      `Recover`: an error if fewer than k fragments are there, and otherwise every
      missing data fragment rebuilt and put into its buffer.
    */
    method Recover(idx: nat) returns (recovered: nat, ok: bool)
      requires Base() && idx < RING_SIZE && Consistent(items[idx], fecN)
      modifies items
      ensures ok <==> old(items[idx]).has >= fecK
      ensures !ok ==> items[..] == old(items[..])
      ensures ok ==>
        && items[..] == old(items[..])[idx := items[idx]] && Shaped(items[idx], fecN)
        && SlotOf(items[idx], fecN) == Completed(SlotOf(old(items[idx]), fecN), fecK)
        && recovered == fecK - CountPresent(FragsOf(old(items[idx]), fecN), 0, fecK)
    {
      hide ContentsOf, FragsOf, Recovered, Reconstructed, FitAll, Fec.Valid, CountPresent, Decodable;
      ghost var frags := FragsOf(items[idx], fecN);
      var maxSize := LargestSize(idx, fecK, fecN);
      if maxSize == 0 {
        maxSize := LargestSize(idx, 0, fecK);
      }
      var shards := BuildShards(idx, maxSize);
      FittedShards(frags, fecK, maxSize);
      assert OneSize(shards[..]);
      var r, sz := RunDecoder(shards, FitAll(frags, maxSize));
      if r != Ok {
        return 0, false;
      }
      SizeOfDecodable(frags, fecK, sz);
      recovered := PutShardsBack(idx, shards, frags, ContentsOf(shards[..]));
      ok := true;
    }

    /** `Advance`: the front slot is cleared and the window moves on by one block. */
    method Advance()
      requires Completing()
      modifies this, items
      ensures Inv() && fecK == old(fecK) && fecN == old(fecN) && decoder == old(decoder)
      ensures View() == old(View()).(live := old(View()).live[1..])
      ensures alloc == old(alloc) - 1 && front == At(old(front), 1)
    {
      hide LiveOf;
      ghost var was, f, a := items[..], front, alloc;
      ClearItem(front);
      front := ModN(front + 1, RING_SIZE);
      alloc := alloc - 1;
      TakenIsEmpty(was[f], 0, fecN);
      LiveAdvance(was, f, a, fecN, Taken(was[f], 0, fecN));
    }
  }

  lemma {:induction false} DecoderBounds(decoder: Fec)
    requires decoder.Valid()
    ensures 1 <= decoder.k <= decoder.n <= 255
  {}

  lemma {:induction false} SizeFromHeader(shard: Vec)
    ensures RebuiltSize(shard) ==
      if |shard| >= PACKET_HDR_SIZE && PACKET_HDR_SIZE + SizeField(shard) <= |shard| then PACKET_HDR_SIZE + SizeField(shard)
      else |shard|
  {}

  lemma {:induction false} CountUpTo(frags: Shards, i: nat)
    ensures i == 0 <= |frags| ==> CountPresent(frags, 0, 0) == 0
    ensures i < |frags| ==> CountPresent(frags, 0, i + 1) == CountPresent(frags, 0, i) + (if frags[i] == [] then 0 else 1)
  {}

  lemma {:induction false} SizeIsLength(item: RingItem, n: nat, j: nat)
    requires Shaped(item, n) && j < n
    ensures FragsOf(item, n)[j] == [] <==> item.sizes[j] == 0
  {}

  /** What the decoder makes of the shards built: decodable exactly with k fragments. */
  lemma {:induction false} FittedShards(frags: Shards, k: nat, sz: nat)
    requires Params(k, |frags|) && sz == DecodeSize(frags, k)
    ensures CountPresent(FitAll(frags, sz), 0, |frags|) >= k <==> CountPresent(frags, 0, |frags|) >= k
    ensures CountPresent(frags, 0, |frags|) >= k ==> sz > 0 && Decodable(FitAll(frags, sz), k, sz)
  {
    if CountPresent(frags, 0, |frags|) >= k {
      FitIsDecodable(frags, k);
    }
    if sz > 0 {
      CountOfFit(frags, sz, 0, |frags|);
    } else {
      NothingPresent(FitAll(frags, 0), |frags|);
    }
  }

  lemma {:induction false} SizeOfDecodable(frags: Shards, k: nat, sz: nat)
    requires Params(k, |frags|) && Decodable(FitAll(frags, DecodeSize(frags, k)), k, sz)
    ensures sz == DecodeSize(frags, k) && CountPresent(frags, 0, |frags|) >= k
  {
    hide DecodeSize;
    FittedShards(frags, k, DecodeSize(frags, k));
    SomePresent(FitAll(frags, DecodeSize(frags, k)), 0, |frags|);
  }

  lemma {:induction false} FindAt(live: seq<Slot>, b: nat, i: nat)
    requires i <= |live| && (i < |live| ==> live[i].idx == b) && forall j :: 0 <= j < i ==> live[j].idx != b
    ensures Find(live, b) == i
  {
    if i > 0 {
      FindAt(live[1..], b, i - 1);
    }
  }

  lemma {:induction false} NewestOfFew(live: seq<Slot>)
    ensures |live| <= RING_SIZE ==> Newest(live + EmptySlots(0, 0, 0)) == live
    ensures forall n, b {:trigger EmptySlots(n, b, 0)} :: EmptySlots(n, b, 0) == []
  {
    assert live + [] == live;
  }

  /** Making room for one more at a time keeps the newest. */
  lemma {:induction false} NewestStep(all: seq<Slot>, x: Slot)
    ensures Newest(Newest(all) + [x]) == Newest(all + [x])
  {}
}
