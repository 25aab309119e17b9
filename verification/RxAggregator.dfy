/** The receiver of pkg/rx/aggregator.go: sessions, the ring, and the packets put out. */
module RxAggregator {
  import opened Matrices
  import opened ReedSolomon
  import opened Codec
  import opened Packets
  import opened Frames
  import opened Words
  import opened Window
  import opened WindowRuns
  import opened RingItems
  import opened RxRing

  datatype OutputPacket = OutputPacket(data: Vec, seqNo: nat)

  /** The sequence number of a fragment, in 32 bits. */
  function SeqOf(block: nat, frag: nat, k: nat): nat
  {
    (block % 0x1_0000_0000 * k + frag) % 0x1_0000_0000
  }

  /** Sequence numbers count the data fragments of all blocks, from 0, modulo 2^32. */
  lemma {:induction false} SeqCounts(block: nat, frag: nat, k: nat)
    requires k > 0
    ensures SeqOf(0, 0, k) == 0
    ensures SeqOf(block, frag + 1, k) == (SeqOf(block, frag, k) + 1) % 0x1_0000_0000
    ensures SeqOf(block + 1, 0, k) == (SeqOf(block, k - 1, k) + 1) % 0x1_0000_0000
  {
    var b, c := block % 0x1_0000_0000, (block + 1) % 0x1_0000_0000;
    NextBlockNumber(b, c, k);
    NumberSteps(b * k, c * k, frag, k);
  }

  lemma {:induction false} NumberSteps(x: nat, y: nat, frag: nat, k: nat)
    requires k > 0 && y % 0x1_0000_0000 == (x + k) % 0x1_0000_0000
    ensures (x + frag + 1) % 0x1_0000_0000 == ((x + frag) % 0x1_0000_0000 + 1) % 0x1_0000_0000
    ensures y % 0x1_0000_0000 == ((x + k - 1) % 0x1_0000_0000 + 1) % 0x1_0000_0000
  {}

  lemma {:induction false} NextBlockNumber(b: nat, c: nat, k: nat)
    requires k > 0 && b < 0x1_0000_0000 && c == if b == 0xFFFF_FFFF then 0 else b + 1
    ensures c * k % 0x1_0000_0000 == (b * k + k) % 0x1_0000_0000
  {
    assert b * k + k == (b + 1) * k;
    if c == 0 {
      RemainderIs(0x1_0000_0000 * k, 0x1_0000_0000, k, 0);
    }
  }

  /** What `outputFragment` queues for one fragment. */
  function OutputOf(h: Handed, k: nat): seq<OutputPacket>
  {
    match PayloadOf(h.body)
    case Some(p) => [OutputPacket(p, SeqOf(h.block, h.frag, k))]
    case None => []
  }

  function OutputsOf(handed: seq<Handed>, k: nat): seq<OutputPacket>
  {
    if handed == [] then [] else OutputsOf(handed[..|handed| - 1], k) + OutputOf(handed[|handed| - 1], k)
  }

  lemma {:induction false} OutputsJoin(a: seq<Handed>, b: seq<Handed>, k: nat)
    ensures OutputsOf(a + b, k) == OutputsOf(a, k) + OutputsOf(b, k)
  {
    if b == [] {
      assert a + b == a;
    } else {
      var m := |b| - 1;
      assert (a + b)[..|a + b| - 1] == a + b[..m];
      OutputsJoin(a, b[..m], k);
    }
  }

  lemma {:induction false} NoOutputs(k: nat)
    ensures OutputsOf([], k) == []
  {}

  /** Handing over one more fragment, if it is there. */
  lemma {:induction false} HandOverOne(slot: Slot, from: nat, to: nat, k: nat)
    requires from < to <= |slot.frags|
    ensures OutputsOf(HandOver(slot, from, to), k) ==
      (if slot.frags[from] == [] then [] else OutputOf(Handed(slot.idx, from, slot.frags[from]), k))
        + OutputsOf(HandOver(slot, from + 1, to), k)
  {
    hide OutputOf;
    var h := Handed(slot.idx, from, slot.frags[from]);
    var rest := HandOver(slot, from + 1, to);
    OutputsJoin([h], rest, k);
    assert OutputsOf([h], k) == OutputOf(h, k) by {
      assert [h][..0] == [];
      assert OutputsOf([], k) == [];
    }
    assert [] + rest == rest;
  }

  /** The fragment a frame stands for, given what it opens to. */
  function ArrivalIn(data: Vec, body: Vec): Arrival
    requires |data| >= BLOCK_HDR_SIZE
  {
    Arrival(NonceBlock(NonceOf(data)), NonceFragment(NonceOf(data)), body)
  }

  /** How far the front has to move to reach the target. */
  function Distance(front: nat, target: nat): (d: nat)
    requires front < RING_SIZE && target < RING_SIZE
    ensures d < RING_SIZE && At(front, d) == target
  {
    if front <= target then target - front else target + RING_SIZE - front
  }

  datatype RxResult = Accepted | NoSession | InvalidPacket | DecryptFailed | TooShort | OldEpoch | WrongChannel | UnsupportedFec

  /** Whether an announcement of `size` bytes that is not a repetition is taken, given what the box opens to. */
  function SessionVerdict(channelID: nat, epoch: nat, size: nat, boxed: Option<Vec>): RxResult
  {
    if size < SESSION_HDR_SIZE + SESSION_DATA_SIZE + BOX_MAC_SIZE then InvalidPacket
    else if boxed.None? then DecryptFailed
    else
      match UnmarshalSession(boxed.value)
      case None => TooShort
      case Some(d) =>
        var k: nat, n: nat := d.k, d.n;
        if d.epoch < epoch then OldEpoch
        else if d.channelID != channelID then WrongChannel
        else if d.fecType != FEC_VDM_RS then UnsupportedFec
        else if k < 1 || n < 1 || k > n then InvalidPacket
        else Accepted
  }

  /** Session data as announced is taken exactly by these conditions, whatever is appended to it. */
  lemma {:induction false} AcceptedExactly(channelID: nat, epoch: nat, size: nat, d: SessionData, tags: Vec)
    requires |d.key| == 32 && d.epoch < Power256(8) && d.channelID < Power256(4)
    ensures SessionVerdict(channelID, epoch, size, Some(MarshalSession(d) + tags)) == Accepted <==>
      && size >= 88 && d.epoch >= epoch && d.channelID == channelID && d.fecType == 1 && 1 <= d.k <= d.n
  {
    hide UnmarshalSession, MarshalSession;
    SessionRoundTrip(d, tags);
  }

  /** Nothing else is taken. */
  lemma {:induction false} OnlySessionsAccepted(channelID: nat, epoch: nat, size: nat, boxed: Option<Vec>)
      returns (d: SessionData, tags: Vec)
    requires SessionVerdict(channelID, epoch, size, boxed) == Accepted
    ensures |d.key| == 32 && d.epoch < Power256(8) && d.channelID < Power256(4)
    ensures boxed == Some(MarshalSession(d) + tags)
  {
    d, tags := UnmarshalSession(boxed.value).value, boxed.value[47..];
    hide UnmarshalSession, MarshalSession;
    UnmarshalledIsMarshalled(boxed.value);
  }

  class Aggregator {
    const channelID: nat
    var epoch: nat
    var sessionKey: Vec
    var sessionHash: Vec
    var hasSession: bool
    var ring: Ring?
    var fecK: nat
    var fecN: nat
    var outputChan: seq<OutputPacket>
    /** The authentic fragments of this session, and what was queued before it. */
    ghost var arrivals: seq<Arrival>
    ghost var earlier: seq<OutputPacket>

    ghost function Parts(): set<object>
      reads this, ring
    {
      if ring == null then {} else {ring, ring.items}
    }

    ghost function Codecs(): set<object>
      reads this, ring, if ring == null then {} else {ring.decoder}
    {
      if ring == null then {} else {ring.decoder, ring.decoder.enc}
    }

    /** The ring is in order and agrees on the FEC parameters. */
    ghost predicate Working()
      reads this, Parts(), Codecs()
    {
      ring != null && ring.Inv() && ring.fecK == fecK && ring.fecN == fecN
    }

    ghost predicate Ready()
      reads this, Parts(), Codecs()
    {
      Working() && Valid(ring.View(), fecK, fecN)
    }

    /**
      What holds between packets: the ring and the queue are those of the abstract
      receiver after all fragments of the session so far.
    */
    ghost predicate Inv()
      reads this, Parts(), Codecs()
    {
      && (hasSession ==> ring != null)
      && (ring != null ==> Ready() && AllAdmissible(arrivals) && RunSoFar())
    }

    ghost predicate RunSoFar()
      requires Working() && AllAdmissible(arrivals)
      reads this, Parts(), Codecs()
    {
      var s := Run(fecK, fecN, arrivals);
      ring.View() == s.w && outputChan == earlier + OutputsOf(s.out, fecK)
    }

    /** `NewAggregator` */
    constructor (channelID: nat, epoch: nat)
      ensures Inv() && !hasSession && this.channelID == channelID && this.epoch == epoch && outputChan == []
    {
      this.channelID, this.epoch := channelID, epoch;
      sessionKey, sessionHash, hasSession := Zeros(32), Zeros(32), false;
      ring, fecK, fecN, outputChan := null, 8, 12, [];
      arrivals, earlier := [], [];
    }

    /** Nothing but the session hash may differ. */
    twostate predicate SessionKept()
      requires Inv() && old(Inv())
      reads this, Parts(), Codecs()
    {
      && ring == old(ring) && epoch == old(epoch) && sessionKey == old(sessionKey) && hasSession == old(hasSession)
      && fecK == old(fecK) && fecN == old(fecN) && outputChan == old(outputChan)
      && arrivals == old(arrivals) && earlier == old(earlier)
      && (ring != null ==> ring.View() == old(ring.View()))
    }

    /** Another session: its key and parameters, and a window that has seen no block. */
    twostate predicate SessionStarted(d: SessionData)
      requires Inv()
      reads this, Parts(), Codecs()
    {
      && ring != null && hasSession && epoch == d.epoch && sessionKey == d.key
      && fecK == d.k && fecN == d.n && ring.View() == Window([], None) && outputChan == old(outputChan)
      && arrivals == [] && earlier == outputChan
    }

    /** The ring starts afresh, rebuilt when the parameters differ. */
    method FreshRing(k: nat, n: nat)
      requires (ring != null ==> ring.Inv() && ring.fecK == fecK && ring.fecN == fecN) && Params(k, n)
      modifies `ring, `fecK, `fecN, Parts()
      ensures Working() && fecK == k && fecN == n && ring.View() == Window([], None)
    {
      hide Ring.Inv, Fec.Valid, LiveOf;
      if k != fecK || n != fecN || ring == null {
        fecK, fecN := k, n;
        ring := new Ring(k, n);
      } else {
        var done := ring.Reset(k, n);
      }
    }

    /** A new key. */
    method StartSession(d: SessionData)
      requires Inv() && Params(d.k, d.n) && |d.key| == 32
      modifies this, Parts()
      ensures Inv() && SessionStarted(d) && sessionHash == old(sessionHash)
    {
      hide Fec.Valid, LiveConsistent, LiveOf, Run, OutputsOf, Valid, Shaped, AllAdmissible;
      NothingArrived(d.k, d.n, outputChan);
      epoch, sessionKey, hasSession := d.epoch, d.key, true;
      arrivals, earlier := [], outputChan;
      FreshRing(d.k, d.n);
    }

    /**
      `processSessionPacket`. `newHash` is the keyed hash of the announcement, `boxed`
      what the box opens to. Announcing a session again, or announcing the current key
      with other parameters, does not disturb the blocks in flight.
    */
    method ProcessSessionPacket(data: Vec, newHash: Vec, boxed: Option<Vec>) returns (r: RxResult)
      requires Inv()
      modifies this, Parts()
      ensures Inv() && old(epoch) <= epoch
      ensures var repeated := |data| >= SESSION_HDR_SIZE + SESSION_DATA_SIZE + BOX_MAC_SIZE && old(hasSession) && old(sessionHash) == newHash;
        && r == (if repeated then Accepted else SessionVerdict(channelID, old(epoch), |data|, boxed))
        && sessionHash == (if r == Accepted then newHash else old(sessionHash))
        && (repeated || r != Accepted || UnmarshalSession(boxed.value).value.key == old(sessionKey) ==> SessionKept())
        && (!repeated && r == Accepted && UnmarshalSession(boxed.value).value.key != old(sessionKey) ==>
             SessionStarted(UnmarshalSession(boxed.value).value))
    {
      hide Ring.Inv, UnmarshalSession, Run, OutputsOf, Valid, AllAdmissible, LiveOf;
      if |data| < SESSION_HDR_SIZE + SESSION_DATA_SIZE + BOX_MAC_SIZE {
        return InvalidPacket;
      }
      if hasSession && sessionHash == newHash {
        return Accepted;
      }
      if boxed.None? {
        return DecryptFailed;
      }
      var sessionData := UnmarshalSession(boxed.value);
      if sessionData.None? {
        return TooShort;
      }
      var d := sessionData.value;
      if d.epoch < epoch {
        return OldEpoch;
      }
      if d.channelID != channelID {
        return WrongChannel;
      }
      if d.fecType != FEC_VDM_RS {
        return UnsupportedFec;
      }
      if d.k < 1 || d.n < 1 || d.k > d.n {
        return InvalidPacket;
      }
      if sessionKey != d.key {
        StartSession(d);
      }
      sessionHash := newHash;
      r := Accepted;
    }

    /** `outputFragment` */
    method OutputFragment(fragment: Vec, block: nat, frag: nat)
      modifies `outputChan
      ensures outputChan == old(outputChan) + OutputOf(Handed(block, frag, fragment), fecK)
    {
      if |fragment| < PACKET_HDR_SIZE {
        return;
      }
      if fragment[0] % 2 == FEC_ONLY {
        return;
      }
      var payloadSize := SizeField(fragment);
      if payloadSize == 0 {
        return;
      }
      if PACKET_HDR_SIZE + payloadSize > |fragment| {
        return;
      }
      var data := fragment[PACKET_HDR_SIZE..PACKET_HDR_SIZE + payloadSize];
      outputChan := outputChan + [OutputPacket(data, SeqOf(block, frag, fecK))];
    }

    /** One round of the loop in `sendContiguousFragments`. */
    method SendNext(ringIdx: nat) returns (more: bool)
      requires Working() && ring.alloc > 0 && ringIdx == ring.front && ring.items[ringIdx].toSend <= fecK
      modifies `outputChan, ring.items
      ensures Working()
      ensures var slot := SlotOf(old(ring.items[ringIdx]), fecN);
        && (more <==> slot.sent < fecK && slot.frags[slot.sent] != [])
        && (if more then
              && ring.items[..] == old(ring.items[..])[ringIdx := old(ring.items[ringIdx]).(toSend := slot.sent + 1)]
              && outputChan == old(outputChan) + OutputOf(Handed(slot.idx, slot.sent, slot.frags[slot.sent]), fecK)
            else
              ring.items[..] == old(ring.items[..]) && outputChan == old(outputChan))
    {
      hide LiveOf, OutputOf, Fec.Valid, FragsOf, Consistent, LiveConsistent, Shaped;
      var fragIdx, ok := ring.PeekNextToSend(ringIdx);
      if !ok {
        return false;
      }
      var fragData := ring.GetFragment(ringIdx, fragIdx);
      if |fragData| == 0 {
        return false;
      }
      OutputFragment(fragData, ring.items[ringIdx].blockIdx, fragIdx);
      ring.AdvanceFragmentToSend(ringIdx);
      more := true;
    }

    /** `sendContiguousFragments`: pass on the gapless run the front block starts with. */
    method SendContiguousFragments(ringIdx: nat)
      requires Working() && ring.alloc > 0 && ringIdx == ring.front && ring.items[ringIdx].toSend <= fecK
      modifies `outputChan, ring.items
      ensures Working()
      ensures var slot := SlotOf(old(ring.items[ringIdx]), fecN);
        var end := RunEnd(slot.frags, slot.sent, fecK);
        && ring.items[..] == old(ring.items[..])[ringIdx := old(ring.items[ringIdx]).(toSend := end)]
        && outputChan == old(outputChan) + OutputsOf(HandOver(slot, slot.sent, end), fecK)
    {
      hide LiveOf, OutputOf, Ring.Inv, FragsOf, HandOver, OutputsOf, Shaped;
      ShapedFront(ring);
      ghost var items, item, n := ring.items[..], ring.items[ringIdx], fecN;
      ghost var slot := SlotOf(item, n);
      ghost var cur, end := slot.sent, RunEnd(slot.frags, slot.sent, fecK);
      assert items[ringIdx := item.(toSend := cur)] == items;
      var more := true;
      while more
        invariant Working() && slot.sent <= cur <= end && end == RunEnd(slot.frags, cur, fecK)
        invariant ring.items[..] == items[ringIdx := item.(toSend := cur)]
        invariant outputChan + OutputsOf(HandOver(slot, cur, end), fecK)
               == old(outputChan) + OutputsOf(HandOver(slot, slot.sent, end), fecK)
        invariant !more ==> cur == end
        decreases end - cur, more
      {
        ShapedFront(ring);
        SentIrrelevant(item, n, cur);
        more := SendNext(ringIdx);
        if more {
          HandOverOne(slot, cur, end, fecK);
          cur := cur + 1;
        }
      }
      HandOverNone(slot, end);
      NoOutputs(fecK);
    }

    /** `sendAllFragments`: pass on all of the front block that has not been passed on. */
    method SendAllFragments(ringIdx: nat)
      requires ring != null && ring.Completing() && ring.fecK == fecK && ring.fecN == fecN
      requires ringIdx == ring.front && ring.items[ringIdx].toSend <= fecK
      modifies `outputChan, ring.items
      ensures ring.Completing() && ring.front == old(ring.front) && ring.alloc == old(ring.alloc)
      ensures ring.View() == old(ring.View()).(live := old(ring.View()).live[0 := ring.View().live[0]])
      ensures var slot := SlotOf(old(ring.items[ringIdx]), fecN);
        outputChan == old(outputChan) + OutputsOf(HandOver(slot, slot.sent, fecK), fecK)
    {
      hide OutputOf, Fec.Valid, FragsOf, Consistent, RestConsistent, LiveConsistent, HandOver, OutputsOf, LiveOf, Shaped;
      ghost var items, item, n := ring.items[..], ring.items[ringIdx], fecN;
      ghost var slot := SlotOf(item, n);
      SentIrrelevant(item, n, slot.sent);
      var cur := ring.items[ringIdx].toSend;
      assert items[ringIdx := item.(toSend := cur)] == items;
      while true
        invariant ring.Completing() && ring.front == ringIdx && ring.alloc == old(ring.alloc)
        invariant ring.lastKnown == old(ring.lastKnown)
        invariant slot.sent <= cur <= fecK
        invariant ring.items[..] == items[ringIdx := item.(toSend := cur)]
        invariant outputChan + OutputsOf(HandOver(slot, cur, fecK), fecK)
               == old(outputChan) + OutputsOf(HandOver(slot, slot.sent, fecK), fecK)
        decreases fecK - cur
      {
        var fragIdx, ok := ring.GetNextToSend(ringIdx);
        if !ok {
          break;
        }
        cur := cur + 1;
        SentIrrelevant(item, n, cur);
        var fragData := ring.GetFragment(ringIdx, fragIdx);
        HandOverOne(slot, fragIdx, fecK, fecK);
        if |fragData| > 0 {
          OutputFragment(fragData, ring.items[ringIdx].blockIdx, fragIdx);
        }
      }
      HandOverNone(slot, fecK);
      NoOutputs(fecK);
      SentIrrelevant(item, n, cur);
      LiveWrite(items, ringIdx, ring.alloc, n, 0, item.(toSend := cur));
    }

    /** The loop body of both flush operations: a fragment that is there and was not passed on yet. */
    method SendUnsent(ringIdx: nat, fragIdx: nat)
      requires Working() && ringIdx < RING_SIZE && fragIdx < fecN
      modifies `outputChan
      ensures var item := ring.items[ringIdx]; var frag := FragsOf(item, fecN)[fragIdx];
        outputChan == old(outputChan) +
          if frag == [] || fragIdx < item.toSend then [] else OutputOf(Handed(item.blockIdx, fragIdx, frag), fecK)
    {
      hide OutputOf, Fec.Valid, FragsOf, LiveConsistent, Shaped;
      var fragData := ring.GetFragment(ringIdx, fragIdx);
      if |fragData| > 0 && !(fragIdx < ring.items[ringIdx].toSend) {
        OutputFragment(fragData, ring.items[ringIdx].blockIdx, fragIdx);
      }
    }

    /** `flushSingleBlock`: pass on what there is of the front block, and move on. */
    method FlushSingleBlock(ringIdx: nat)
      requires Working() && ring.alloc > 0 && ringIdx == ring.front
      modifies `outputChan, ring, ring.items
      ensures ring == old(ring) && Working() && ring.alloc == old(ring.alloc) - 1 && ring.front == At(old(ring.front), 1)
      ensures ring.decoder == old(ring.decoder)
      ensures ring.View() == old(ring.View()).(live := old(ring.View()).live[1..])
      ensures var slot := old(ring.View()).live[0];
        |slot.frags| == fecN && outputChan == old(outputChan) + OutputsOf(HandOver(slot, slot.sent, fecK), fecK)
    {
      hide OutputOf, Fec.Valid, FragsOf, Consistent, RestConsistent, HandOver, OutputsOf, Shaped;
      ghost var n, w := fecN, ring.View();
      ghost var slot := w.live[0];
      assert At(ring.front, 0) == ringIdx && slot == SlotOf(ring.items[ringIdx], n);
      var fecK := ring.fecK;
      for fragIdx := 0 to fecK
        modifies `outputChan
        invariant Working() && ring.items[..] == old(ring.items[..])
        invariant outputChan + OutputsOf(HandOver(slot, if fragIdx < slot.sent then slot.sent else fragIdx, fecK), fecK)
               == old(outputChan) + OutputsOf(HandOver(slot, slot.sent, fecK), fecK)
      {
        if fragIdx >= slot.sent {
          HandOverOne(slot, fragIdx, fecK, fecK);
        }
        SendUnsent(ringIdx, fragIdx);
      }
      HandOverEmpty(slot, if fecK < slot.sent then slot.sent else fecK, fecK);
      NoOutputs(fecK);
      LiveIsRest(ring.items[..], ring.front, ring.alloc, n);
      ring.Advance();
    }

    /** `flushOlderBlocks`: every block before the target, oldest first. */
    method FlushOlderBlocks(target: nat)
      requires Working() && target < RING_SIZE && Distance(ring.front, target) < ring.alloc
      modifies `outputChan, ring, ring.items
      ensures ring == old(ring) && Working() && ring.front == target
      ensures ring.decoder == old(ring.decoder)
      ensures var i := Distance(old(ring.front), target);
        && ring.View() == old(ring.View()).(live := old(ring.View()).live[i..]) && ring.alloc == old(ring.alloc) - i
        && SlotsFit(old(ring.View()).live[..i], fecN)
        && outputChan == old(outputChan) + OutputsOf(Flush(old(ring.View()).live[..i], fecK, fecN), fecK)
    {
      hide OutputOf, Fec.Valid, LiveOf, LiveConsistent, HandOver, OutputsOf, Shaped, Flush;
      ghost var w, i, d := ring.View(), 0, Distance(ring.front, target);
      LiveSlotsFit(ring.items[..], ring.front, ring.alloc, fecN);
      SplitWindow(w.live);
      assert outputChan + OutputsOf(Flush(w.live[..d], fecK, fecN), fecK)
          == outputChan + OutputsOf(Flush(w.live[0..d], fecK, fecN), fecK);
      while ring.front != target
        invariant ring == old(ring) && Working() && ring.decoder == old(ring.decoder)
        invariant 0 <= i <= d && ring.alloc == old(ring.alloc) - i && Distance(ring.front, target) == d - i
        invariant ring.View() == w.(live := w.live[i..])
        invariant outputChan + OutputsOf(Flush(w.live[i..d], fecK, fecN), fecK)
               == old(outputChan) + OutputsOf(Flush(w.live[..d], fecK, fecN), fecK)
        decreases Distance(ring.front, target)
      {
        FlushHead(w.live[i..d], fecK, fecN);
        assert w.live[i..d][1..] == w.live[i + 1..d] && w.live[i..][1..] == w.live[i + 1..];
        FlushSingleBlock(ring.front);
        i := i + 1;
      }
      assert w.live[d..d] == [];
      FlushNone(fecK, fecN);
      NoOutputs(fecK);
    }

    /** `flushEvictedBlock`: the slot has been taken over already, so there is nothing to pass on. */
    method FlushEvictedBlock(ringIdx: nat)
      requires Working() && ringIdx < RING_SIZE && ring.items[ringIdx].sizes == seq(fecN, _ => 0)
      modifies `outputChan
      ensures outputChan == old(outputChan)
    {
      hide Fec.Valid, LiveConsistent;
      for fragIdx := 0 to ring.fecK
        invariant outputChan == old(outputChan) && Working()
      {
        SendUnsent(ringIdx, fragIdx);
      }
    }

    /** `processCompleteBlock`: with k fragments there, recovery never fails. */
    method ProcessCompleteBlock(ringIdx: nat) returns (ok: bool)
      requires Working() && ring.alloc > 0 && ringIdx == ring.front && ring.items[ringIdx].has >= fecK
      modifies ring.items
      ensures ok && ring.Completing()
      ensures ring.items[ringIdx].toSend == old(ring.items[ringIdx]).toSend
      ensures var slot := old(ring.View()).live[0];
        && |slot.frags| == fecN && CountPresent(slot.frags, 0, fecN) >= fecK
        && ring.View() == old(ring.View()).(live := old(ring.View()).live[0 := Completed(slot, fecK)])
    {
      hide Fec.Valid, FragsOf, RestConsistent, Shaped, Recovered, LiveOf, CountPresent, ZeroFrom;
      ghost var items, n, alloc := ring.items[..], fecN, ring.alloc;
      FrontIsLive(items, ringIdx, alloc, n);
      ghost var slot := SlotOf(items[ringIdx], n);
      NothingToRecover(slot.frags, fecK);
      LiveWrite(items, ringIdx, alloc, n, 0, items[ringIdx]);
      assert items[ringIdx := items[ringIdx]] == items;
      var needs := ring.NeedsRecovery(ringIdx);
      if needs {
        var recovered, done := ring.Recover(ringIdx);
        if !done {
          return false;
        }
        LiveWrite(items, ringIdx, alloc, n, 0, ring.items[ringIdx]);
      }
      return true;
    }

    /** The end of `processDataPacket` for a block with k fragments. */
    method FinishBlock(ringIdx: nat) returns (ok: bool)
      requires Working() && ringIdx < RING_SIZE && Distance(ring.front, ringIdx) < ring.alloc
      requires ring.items[ringIdx].has >= fecK && ring.items[ringIdx].toSend <= fecK
      modifies `outputChan, ring, ring.items
      ensures ok && ring == old(ring) && Working() && ring.decoder == old(ring.decoder)
      ensures var i := Distance(old(ring.front), ringIdx); var live := old(ring.View()).live;
        && |live[i].frags| == fecN && CountPresent(live[i].frags, 0, fecN) >= fecK && SlotsFit(live[..i], fecN)
        && ring.View() == old(ring.View()).(live := live[i + 1..])
        && outputChan == old(outputChan) + OutputsOf(
             Flush(live[..i], fecK, fecN) + HandOver(Completed(live[i], fecK), live[i].sent, fecK), fecK)
    {
      hide Fec.Valid, LiveOf, LiveConsistent, RestConsistent, OutputsOf, HandOver, Flush, Shaped, Recovered, CountPresent, SlotOf;
      ghost var w, i, k := ring.View(), Distance(ring.front, ringIdx), fecK;
      FrontFirst(ring.items[..], ring.front, ring.alloc, fecN, i);
      FlushOlderBlocks(ringIdx);
      FrontFirst(ring.items[..], ring.front, ring.alloc, fecN, 0);
      assert ring.View().live[0] == w.live[i];
      ok := ProcessCompleteBlock(ringIdx);
      if !ok {
        return;
      }
      FrontShown(ring.items[..], ring.front, ring.alloc, fecN);
      SendAllFragments(ringIdx);
      ring.Advance();
      assert w.live[i..][0 := Completed(w.live[i], k)][1..] == w.live[i + 1..];
      OutputsJoin(Flush(w.live[..i], k, fecN), HandOver(Completed(w.live[i], k), w.live[i].sent, k), k);
    }

    /** Buffer, copy and size: the part of `processDataPacket` that stores a fragment. */
    method StoreInSlot(ringIdx: nat, f: nat, body: Vec) returns (stored: bool, complete: bool)
      requires Working() && ringIdx < RING_SIZE && Distance(ring.front, ringIdx) < ring.alloc && 0 < |body| <= MAX_FEC_PAYLOAD
      modifies ring.items
      ensures Working()
      ensures var i := Distance(ring.front, ringIdx); var slot := old(ring.View()).live[i];
        && |slot.frags| == fecN && (stored <==> f < fecN && slot.frags[f] == [])
        && (stored ==>
             var frags := slot.frags[f := body];
             && ring.View() == old(ring.View()).(live := old(ring.View()).live[i := slot.(frags := frags)])
             && (complete <==> CountPresent(frags, 0, fecN) >= fecK)
             && ring.items[ringIdx].has == CountPresent(frags, 0, fecN))
      ensures !stored ==> ring.View() == old(ring.View())
      ensures ring.items[ringIdx].toSend == old(ring.items[ringIdx]).toSend
    {
      hide Fec.Valid, LiveOf, LiveConsistent, Shaped, CountPresent, CopyInto, FragsOf;
      ghost var items, n, i := ring.items[..], fecN, Distance(ring.front, ringIdx);
      ghost var item := items[ringIdx];
      LiveItem(items, ring.front, ring.alloc, n, i);
      stored := ring.GetFragmentBuffer(ringIdx, f);
      complete := false;
      if stored {
        ghost var buf := CopyInto(Zeros(MAX_FEC_PAYLOAD), body);
        ghost var result := WithSize(WithBuffer(item, f, buf), f, |body|);
        BufferSwap(items, ringIdx, n, f, Zeros(MAX_FEC_PAYLOAD));
        ring.FillBuffer(ringIdx, f, body);
        BufferSwap(items, ringIdx, n, f, buf);
        assert ring.items[..] == items[ringIdx := WithBuffer(item, f, buf)];
        complete := ring.SetFragmentSize(ringIdx, f, |body|);
        StoreFragment(item, n, f, body);
        LiveWrite(items, ring.front, ring.alloc, n, i, result);
        assert ring.items[..] == items[ringIdx := result];
      }
    }

    /** The front block passes on what it can at once; done when that was all of it. */
    method DeliverFront(ringIdx: nat) returns (done: bool)
      requires Working() && ringIdx < RING_SIZE && Distance(ring.front, ringIdx) < ring.alloc
      requires ring.View().live[Distance(ring.front, ringIdx)].sent < fecK
      modifies `outputChan, ring, ring.items
      ensures ring == old(ring) && Working() && ring.decoder == old(ring.decoder)
      ensures var i := Distance(old(ring.front), ringIdx); var live := old(ring.View()).live; var slot := live[i];
        var end := if i == 0 && |slot.frags| == fecN then RunEnd(slot.frags, slot.sent, fecK) else slot.sent;
        && |slot.frags| == fecN && (done <==> end == fecK)
        && outputChan == old(outputChan) + OutputsOf(HandOver(slot, slot.sent, end), fecK)
        && (if done then ring.View() == old(ring.View()).(live := live[1..])
            else
              && ring.View() == old(ring.View()).(live := live[i := slot.(sent := end)])
              && ring.front == old(ring.front) && ring.alloc == old(ring.alloc)
              && ring.items[ringIdx] == old(ring.items[ringIdx]).(toSend := end))
    {
      hide Fec.Valid, LiveOf, LiveConsistent, RestConsistent, OutputsOf, HandOver, Shaped, CountPresent, FragsOf, RunEnd;
      ghost var items, n, i, w := ring.items[..], fecN, Distance(ring.front, ringIdx), ring.View();
      ghost var item, slot := items[ringIdx], w.live[i];
      LiveItem(items, ring.front, ring.alloc, n, i);
      if ringIdx == ring.front {
        ghost var end := RunEnd(slot.frags, slot.sent, fecK);
        SendContiguousFragments(ringIdx);
        SentIrrelevant(item, n, end);
        LiveWrite(items, ring.front, ring.alloc, n, 0, item.(toSend := end));
        if ring.items[ringIdx].toSend >= fecK {
          LiveIsRest(ring.items[..], ring.front, ring.alloc, n);
          ring.Advance();
          assert w.live[0 := slot.(sent := end)][1..] == w.live[1..];
          return true;
        }
        return false;
      }
      HandOverNone(slot, slot.sent);
      NoOutputs(fecK);
      assert w.live[i := slot.(sent := slot.sent)] == w.live;
      return false;
    }

    /** The rest of `processDataPacket` once the slot is known. */
    method StoreAndDeliver(ringIdx: nat, f: nat, body: Vec) returns (ok: bool)
      requires Ready() && ringIdx < RING_SIZE && Distance(ring.front, ringIdx) < ring.alloc
      requires 0 < |body| <= MAX_FEC_PAYLOAD
      modifies `outputChan, ring, ring.items
      ensures ok && ring == old(ring) && Ready() && ring.decoder == old(ring.decoder)
      ensures var (w, out) := StoreAt(old(ring.View()), fecK, fecN, Distance(old(ring.front), ringIdx), f, body);
        ring.View() == w && outputChan == old(outputChan) + OutputsOf(out, fecK)
    {
      hide LiveConsistent, Fec.Valid, LiveOf, OutputsOf, HandOver, Flush, CountPresent, FragsOf, RunEnd, Completed, Valid, Shaped;
      ghost var w, i, k, n := ring.View(), Distance(ring.front, ringIdx), fecK, fecN;
      StoreKeepsValid(w, k, n, i, f, body);
      SlotIsOk(w, k, n, i);
      NoOutputs(k);
      ok := true;
      var stored, complete := StoreInSlot(ringIdx, f, body);
      if !stored {
        return;
      }
      ghost var slot := ring.View().live[i];
      ghost var end := if i == 0 then RunEnd(slot.frags, slot.sent, k) else slot.sent;
      ghost var early := HandOver(slot, slot.sent, end);
      var done := DeliverFront(ringIdx);
      if done {
        assert w.live[i := slot][1..] == w.live[1..];
        return;
      }
      assert w.live[i := slot][i := slot.(sent := end)] == w.live[i := slot.(sent := end)];
      if complete {
        ghost var live := ring.View().live;
        assert live[..i] == w.live[..i] && live[i + 1..] == w.live[i + 1..];
        ok := FinishBlock(ringIdx);
        OutputsJoin(early, Flush(w.live[..i], k, n) + HandOver(Completed(slot.(sent := end), k), end, k), k);
        assert early + (Flush(w.live[..i], k, n) + HandOver(Completed(slot.(sent := end), k), end, k))
            == early + Flush(w.live[..i], k, n) + HandOver(Completed(slot.(sent := end), k), end, k);
      }
    }

    /**
      `processDataPacket`. `plaintext` is what the cipher opens, if the frame is authentic: at
      least a packet header long, since the frame is, and at most what fits a buffer.
      An authentic fragment is one more arrival of the run that the ring and the queue
      are the result of (`Inv`); any other frame changes nothing.
    */
    method ProcessDataPacket(data: Vec, plaintext: Option<Vec>) returns (r: RxResult)
      requires Inv()
      requires plaintext.Some? ==> |data| == BLOCK_HDR_SIZE + |plaintext.value| + TAG_SIZE && |plaintext.value| <= MAX_FEC_PAYLOAD
      modifies `outputChan, `arrivals, Parts()
      ensures ring == old(ring) && Inv()
      ensures r ==
        if !hasSession then NoSession
        else if |data| < 28 then InvalidPacket
        else if plaintext.None? then DecryptFailed
        else if NonceBlock(NonceOf(data)) > MAX_BLOCK_IDX then InvalidPacket
        else Accepted
      ensures arrivals == old(arrivals) + if r == Accepted then [ArrivalIn(data, plaintext.value)] else []
      ensures fecK == old(fecK) && fecN == old(fecN) && earlier == old(earlier)
      ensures r != Accepted ==> outputChan == old(outputChan) && (ring != null ==> ring.View() == old(ring.View()))
    {
      hide LiveOf, OutputsOf, StoreAt, BigEndian, Admit, Find, LiveConsistent, Fec.Valid, Valid, Consistent, Shaped, Run;
      if !hasSession {
        return NoSession;
      }
      if |data| < BLOCK_HDR_SIZE + TAG_SIZE + PACKET_HDR_SIZE {
        return InvalidPacket;
      }
      if plaintext.None? {
        return DecryptFailed;
      }
      var nonce := NonceOf(data);
      var block := NonceBlock(nonce);
      if block > MAX_BLOCK_IDX {
        return InvalidPacket;
      }
      r := Accepted;
      ghost var w := ring.View();
      ghost var a := Arrival(block, NonceFragment(nonce), plaintext.value);
      NoOutputs(fecK);
      OneMoreArrival(fecK, fecN, arrivals, a, earlier);
      arrivals := arrivals + [a];
      var ringIdx, evicted, valid := ring.GetBlockRingIdx(block);
      if !valid {
        return;
      }
      if Find(w.live, block) == |w.live| {
        EnteredValid(w, fecK, fecN, block);
      }
      for e := 0 to |evicted|
        modifies `outputChan
        invariant outputChan == old(outputChan)
      {
        assert evicted[e] in evicted;
        FlushEvictedBlock(evicted[e]);
      }
      var ok := StoreAndDeliver(ringIdx, NonceFragment(nonce), plaintext.value);
    }
  }

  lemma {:induction false} HandOverEmpty(slot: Slot, from: nat, to: nat)
    requires to <= |slot.frags| && from >= to
    ensures HandOver(slot, from, to) == []
  {}

  lemma {:induction false} LiveSlotsFit(items: seq<RingItem>, front: nat, alloc: nat, n: nat)
    requires Placed(items, front, alloc, n)
    ensures SlotsFit(LiveOf(items, front, alloc, n), n)
  {
    hide Shaped;
  }

  lemma {:induction false} ShapedFront(ring: Ring)
    requires ring.Inv()
    ensures ring.items.Length == RING_SIZE && ring.front < RING_SIZE
    ensures Shaped(ring.items[ring.front], ring.fecN) && Params(ring.fecK, ring.fecN)
  {
    hide LiveConsistent, Fec.Valid;
  }

  lemma {:induction false} NothingArrived(k: nat, n: nat, queue: seq<OutputPacket>)
    requires Params(k, n)
    ensures AllAdmissible([]) && Run(k, n, []) == Initial() && Valid(Window([], None), k, n)
    ensures queue == queue + OutputsOf(Run(k, n, []).out, k)
  {}

  /** A run goes on with one step. */
  lemma {:induction false} OneMoreArrival(k: nat, n: nat, arrivals: seq<Arrival>, a: Arrival, earlier: seq<OutputPacket>)
    requires Params(k, n) && AllAdmissible(arrivals) && Admissible(a)
    ensures AllAdmissible(arrivals + [a])
    ensures var s, t := Run(k, n, arrivals), Run(k, n, arrivals + [a]);
      var (w, out) := Step(s.w, k, n, a.block, a.frag, a.body);
      t.w == w && earlier + OutputsOf(t.out, k) == earlier + OutputsOf(s.out, k) + OutputsOf(out, k)
  {
    hide Step, OutputsOf;
    assert (arrivals + [a])[..|arrivals|] == arrivals;
    OutputsJoin(Run(k, n, arrivals).out, Step(Run(k, n, arrivals).w, k, n, a.block, a.frag, a.body).1, k);
  }

  lemma {:induction false} SlotIsOk(w: Window, k: nat, n: nat, i: nat)
    requires Valid(w, k, n) && i < |w.live|
    ensures SlotOk(w.live[i], k, n)
  {
    hide SlotOk;
  }

  /** The window the fragment is stored in, whether its block was in flight or not. */
  lemma {:induction false} EnteredValid(w: Window, k: nat, n: nat, b: nat)
    requires Params(k, n) && Valid(w, k, n) && !Rejects(w, b) && Find(w.live, b) == |w.live|
    ensures Valid(Admit(w, n, b), k, n)
  {
    AdmitIsValid(w, k, n, b);
  }

  lemma {:induction false} LiveItem(items: seq<RingItem>, front: nat, alloc: nat, n: nat, i: nat)
    requires Placed(items, front, alloc, n) && i < alloc && LiveConsistent(items, front, alloc, n)
    ensures Consistent(items[At(front, i)], n) && Shaped(items[At(front, i)], n)
    ensures |items[At(front, i)].fragments| == n == |items[At(front, i)].sizes|
    ensures LiveOf(items, front, alloc, n)[i] == SlotOf(items[At(front, i)], n)
    ensures forall f :: 0 <= f < n ==> (FragsOf(items[At(front, i)], n)[f] == [] <==> items[At(front, i)].sizes[f] == 0)
  {
    hide CountPresent, ZeroFrom;
  }

  /** Changing the contents of a buffer leaves all slots in shape. */
  lemma {:induction false} BufferSwap(items: seq<RingItem>, idx: nat, n: nat, f: nat, buf: Vec)
    requires AllShaped(items, n) && idx < RING_SIZE && f < n && |buf| == MAX_FEC_PAYLOAD
    ensures Shaped(items[idx], n) && Shaped(WithBuffer(items[idx], f, buf), n)
    ensures AllShaped(items[idx := WithBuffer(items[idx], f, buf)], n)
    ensures forall b :: WithBuffer(WithBuffer(items[idx], f, buf), f, b) == WithBuffer(items[idx], f, b)
  {}

  lemma {:induction false} FrontFirst(items: seq<RingItem>, front: nat, alloc: nat, n: nat, i: nat)
    requires Placed(items, front, alloc, n) && i < alloc && LiveConsistent(items, front, alloc, n)
    ensures var slot := LiveOf(items, front, alloc, n)[i]; var item := items[At(front, i)];
      && |slot.frags| == n && slot == SlotOf(item, n) && slot.sent == item.toSend
      && item.has == CountPresent(slot.frags, 0, n)
  {
    hide CountPresent, ZeroFrom, Shaped;
    assert Consistent(items[At(front, i)], n);
  }

  lemma {:induction false} FrontShown(items: seq<RingItem>, front: nat, alloc: nat, n: nat)
    requires Placed(items, front, alloc, n) && alloc > 0
    ensures LiveOf(items, front, alloc, n)[0] == SlotOf(items[front], n)
  {
    hide Shaped;
    assert At(front, 0) == front;
  }

  lemma {:induction false} LiveIsRest(items: seq<RingItem>, front: nat, alloc: nat, n: nat)
    requires Placed(items, front, alloc, n) && LiveConsistent(items, front, alloc, n)
    ensures RestConsistent(items, front, alloc, n)
  {
    hide Consistent, Shaped;
  }

  lemma {:induction false} FrontIsLive(items: seq<RingItem>, front: nat, alloc: nat, n: nat)
    requires Placed(items, front, alloc, n) && alloc > 0 && LiveConsistent(items, front, alloc, n)
    ensures At(front, 0) == front && Consistent(items[front], n)
    ensures LiveOf(items, front, alloc, n)[0] == SlotOf(items[front], n)
  {
    hide Consistent, Shaped;
    assert At(front, 0) == front;
  }

  lemma {:induction false} FlushHead(live: seq<Slot>, k: nat, n: nat)
    requires k <= n && live != [] && SlotsFit(live, n)
    ensures SlotsFit(live[1..], n)
    ensures OutputsOf(Flush(live, k, n), k)
         == OutputsOf(HandOver(live[0], live[0].sent, k), k) + OutputsOf(Flush(live[1..], k, n), k)
  {
    hide OutputsOf, HandOver;
    OutputsJoin(HandOver(live[0], live[0].sent, k), Flush(live[1..], k, n), k);
  }

  lemma {:induction false} FlushNone(k: nat, n: nat)
    requires k <= n
    ensures Flush([], k, n) == []
  {}

  lemma {:induction false} SplitWindow(live: seq<Slot>)
    ensures live[0..] == live
  {}

  /** With all data there, recovery changes nothing. */
  lemma {:induction false} NothingToRecover(frags: Shards, k: nat)
    requires Params(k, |frags|) && CountPresent(frags, 0, |frags|) >= k
    ensures !DataMissing(frags, k) ==> Recovered(frags, k) == frags
  {
    hide Rebuilt, DecodeSize, FitAll;
  }
}
