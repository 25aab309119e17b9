/**
  The loss count of the output loop (pkg/rx/aggregator.go): losses are read off the
  gaps between sequence numbers.
*/
module LossAccounting {
  import opened Matrices
  import opened Packets
  import opened Window
  import opened WindowRuns
  import opened RxAggregator

  const U32: nat := 0x1_0000_0000

  /** What one queued packet adds to the loss count, in 32-bit arithmetic. */
  function GapLoss(last: nat, seqNo: nat): nat
  {
    if seqNo > (last + 1) % U32 && last > 0 then (seqNo - last - 1) % U32 else 0
  }

  /** The loss count after a queue of packets, starting with nothing seen. */
  function Losses(queue: seq<OutputPacket>): nat
  {
    if queue == [] then 0
    else
      var m := |queue| - 1;
      Losses(queue[..m]) + GapLoss(if m == 0 then 0 else queue[m - 1].seqNo, queue[m].seqNo)
  }

  function TotalBytes(queue: seq<OutputPacket>): nat
  {
    if queue == [] then 0 else TotalBytes(queue[..|queue| - 1]) + |queue[|queue| - 1].data|
  }

  /** The payloads, in order. */
  function PayloadsIn(queue: seq<OutputPacket>): seq<Vec>
  {
    if queue == [] then [] else PayloadsIn(queue[..|queue| - 1]) + [queue[|queue| - 1].data]
  }

  /** Every packet is delivered in its place, and every byte counted once. */
  lemma {:induction false} DeliveredInOrder(queue: seq<OutputPacket>, more: seq<OutputPacket>)
    ensures |PayloadsIn(queue)| == |queue| && forall i :: 0 <= i < |queue| ==> PayloadsIn(queue)[i] == queue[i].data
    ensures TotalBytes(queue + more) == TotalBytes(queue) + TotalBytes(more)
    ensures |more| == 1 ==> TotalBytes(more) == |more[0].data|
  {
    if queue != [] {
      DeliveredInOrder(queue[..|queue| - 1], []);
    }
    if more == [] {
      assert queue + more == queue;
    } else {
      var m := |more| - 1;
      assert (queue + more)[..|queue + more| - 1] == queue + more[..m];
      DeliveredInOrder(queue, more[..m]);
    }
  }

  class OutputProcessor {
    var packetsLost: nat
    var packetsOutgoing: nat
    var bytesOutgoing: nat
    var delivered: seq<Vec>

    constructor ()
      ensures packetsLost == packetsOutgoing == bytesOutgoing == 0 && delivered == []
    {
      packetsLost, packetsOutgoing, bytesOutgoing, delivered := 0, 0, 0, [];
    }

    /** `runOutputProcessor` over the packets queued until it is stopped. */
    method Run(queue: seq<OutputPacket>)
      modifies this
      ensures packetsLost == old(packetsLost) + Losses(queue)
      ensures packetsOutgoing == old(packetsOutgoing) + |queue|
      ensures bytesOutgoing == old(bytesOutgoing) + TotalBytes(queue)
      ensures delivered == old(delivered) + PayloadsIn(queue)
    {
      hide GapLoss;
      var lastSeq := 0;
      for i := 0 to |queue|
        invariant lastSeq == if i == 0 then 0 else queue[i - 1].seqNo
        invariant packetsLost == old(packetsLost) + Losses(queue[..i])
        invariant packetsOutgoing == old(packetsOutgoing) + i
        invariant bytesOutgoing == old(bytesOutgoing) + TotalBytes(queue[..i])
        invariant delivered == old(delivered) + PayloadsIn(queue[..i])
      {
        var pkt := queue[i];
        GapIs(lastSeq, pkt.seqNo);
        if pkt.seqNo > (lastSeq + 1) % U32 && lastSeq > 0 {
          packetsLost := packetsLost + (pkt.seqNo - lastSeq - 1) % U32;
        }
        lastSeq := pkt.seqNo;
        delivered := delivered + [pkt.data];
        packetsOutgoing := packetsOutgoing + 1;
        bytesOutgoing := bytesOutgoing + |pkt.data|;
        assert queue[..i + 1][..i] == queue[..i];
      }
      assert queue[..|queue|] == queue;
    }
  }

  lemma {:induction false} GapIs(last: nat, seqNo: nat)
    ensures GapLoss(last, seqNo) == if seqNo > (last + 1) % U32 && last > 0 then (seqNo - last - 1) % U32 else 0
  {}

  /**
    Of 32-bit numbers one that is not ahead of the last one adds nothing, and nothing is
    added after 0; only directly after the highest number a wrap is seen.
  */
  lemma {:induction false} GapLossWraps(last: nat, seqNo: nat)
    requires last <= 0xFFFF_FFFF && seqNo <= 0xFFFF_FFFF
    ensures GapLoss(last, seqNo) ==
      if last == 0 then 0
      else if last == 0xFFFF_FFFF then seqNo
      else if seqNo > last then seqNo - last - 1
      else 0
  {}

  /** Strictly increasing 32-bit sequence numbers. */
  predicate Increasing(queue: seq<OutputPacket>)
  {
    queue == [] ||
    var m := |queue| - 1;
    && Increasing(queue[..m]) && queue[m].seqNo < U32
    && (m > 0 ==> queue[m - 1].seqNo < queue[m].seqNo)
  }

  /** The loop takes a last number of 0 for "nothing seen yet". */
  predicate FirstGapSeen(queue: seq<OutputPacket>)
    requires queue != []
  {
    queue[0].seqNo > 0 || |queue| == 1 || queue[1].seqNo == 1
  }

  /**
    Packets put out and losses counted add up to the numbers from the first to the
    last one, exactly when no gap follows a packet numbered 0.
  */
  lemma {:induction false} LossesConserve(queue: seq<OutputPacket>)
    requires queue != [] && Increasing(queue)
    ensures FirstGapSeen(queue) <==> Losses(queue) + |queue| == queue[|queue| - 1].seqNo - queue[0].seqNo + 1
    ensures Losses(queue) + |queue| <= queue[|queue| - 1].seqNo - queue[0].seqNo + 1
  {
    var m := |queue| - 1;
    if m == 0 {
      assert Losses(queue[..0]) == 0 && GapLoss(0, queue[0].seqNo) == 0;
    } else {
      LossesConserve(queue[..m]);
      var last, next := queue[m - 1].seqNo, queue[m].seqNo;
      assert last < next;
      StepLoss(last, next);
      assert queue[..m][m - 1] == queue[m - 1];
    }
  }

  lemma {:induction false} StepLoss(last: nat, next: nat)
    requires last < next < U32
    ensures GapLoss(last, next) == if last > 0 then next - last - 1 else 0
  {}

  /** The condition is needed: after packet 0 a loss goes uncounted. */
  lemma {:induction false} LossAfterZeroIsMissed()
    ensures var queue := [OutputPacket([1], 0), OutputPacket([2], 5)];
      Losses(queue) == 0 && queue[1].seqNo - queue[0].seqNo + 1 == |queue| + 4
  {
    var queue := [OutputPacket([1], 0), OutputPacket([2], 5)];
    assert queue[..1] == [queue[0]] && queue[..1][..0] == [];
    assert Losses(queue[..1]) == 0;
  }

  // ------------------------------------------------------ what the receiver queues

  /** Data fragments of blocks whose sequence numbers do not wrap. */
  predicate Numbered(out: seq<Handed>, k: nat)
  {
    forall i :: 0 <= i < |out| ==> out[i].frag < k && out[i].block * k + out[i].frag < U32
  }

  lemma {:induction false} SeqIsPosition(h: Handed, k: nat)
    requires 0 < k && h.frag < k && h.block * k + h.frag < U32
    ensures SeqOf(h.block, h.frag, k) == h.block * k + h.frag
  {
    assert h.block <= h.block * k;
  }

  lemma {:induction false} PositionsRise(a: Handed, b: Handed, k: nat)
    requires 0 < k <= 255 && a.frag < k && b.frag < k && Rank(a) < Rank(b)
    ensures a.block * k + a.frag < b.block * k + b.frag
  {
    assert a.block <= b.block;
    LaterBlock(a.block, b.block, k);
  }

  lemma {:induction false} LaterBlock(a: nat, b: nat, k: nat)
    ensures a < b ==> a * k + k <= b * k
  {
    if a < b {
      LaterBlock(a, b - 1, k);
    }
  }

  lemma {:induction false} IncreasingLast(queue: seq<OutputPacket>, more: seq<OutputPacket>, last: nat, next: nat)
    requires Increasing(queue) && |more| <= 1 && (more != [] ==> more[0].seqNo == next < U32)
    requires queue != [] ==> queue[|queue| - 1].seqNo <= last < next
    requires queue == [] || last < next
    ensures Increasing(queue + more)
    ensures queue + more != [] && last <= next ==> (queue + more)[|queue + more| - 1].seqNo <= next
  {
    if more == [] {
      assert queue + more == queue;
    } else {
      assert (queue + more)[..|queue|] == queue;
    }
  }

  /** The number of a data fragment, counted through all blocks. */
  function Position(h: Handed, k: nat): nat
  {
    h.block * k + h.frag
  }

  lemma {:induction false} LastOutput(out: seq<Handed>, k: nat, hi: nat)
    requires 0 < k <= 255 && Rising(out, 0, hi) && Numbered(out, k) && out != []
    ensures var m := |out| - 1;
      && Rising(out[..m], 0, hi) && Numbered(out[..m], k)
      && Position(out[m], k) == SeqOf(out[m].block, out[m].frag, k) < U32
      && (m > 0 ==> Position(out[m - 1], k) < Position(out[m], k) && out[..m][m - 1] == out[m - 1])
  {
    hide SeqOf, Rank;
    var m := |out| - 1;
    SeqIsPosition(out[m], k);
    if m > 0 {
      PositionsRise(out[m - 1], out[m], k);
    }
  }

  /** Strictly increasing (block, fragment) pairs give strictly increasing sequence numbers. */
  lemma {:induction false} OutputsIncrease(out: seq<Handed>, k: nat, hi: nat)
    requires 0 < k <= 255 && Rising(out, 0, hi) && Numbered(out, k)
    ensures Increasing(OutputsOf(out, k))
    ensures OutputsOf(out, k) != [] ==>
      out != [] && OutputsOf(out, k)[|OutputsOf(out, k)| - 1].seqNo <= Position(out[|out| - 1], k)
  {
    hide PayloadOf, SeqOf, Position, Rising, Numbered, Increasing;
    if out == [] {
      NothingIncreasing();
    } else {
      var m := |out| - 1;
      LastOutput(out, k, hi);
      OutputsIncrease(out[..m], k, hi);
      IncreasingLast(OutputsOf(out[..m], k), OutputOf(out[m], k), if m > 0 then Position(out[m - 1], k) else 0, Position(out[m], k));
    }
  }

  lemma {:induction false} NothingIncreasing()
    ensures Increasing([])
  {}

  /**
    For a whole run of the receiver over any fragments, as long as the numbers fit in
    32 bits: what was put out and what was counted as lost add up.
  */
  lemma {:induction false} RunLossesConserve(k: nat, n: nat, arrivals: seq<Arrival>)
    requires Params(k, n) && AllAdmissible(arrivals)
    requires forall h :: h in Run(k, n, arrivals).out ==> (h.block + 1) * k <= U32
    ensures var queue := OutputsOf(Run(k, n, arrivals).out, k);
      queue != [] ==>
        (FirstGapSeen(queue) <==> Losses(queue) + |queue| == queue[|queue| - 1].seqNo - queue[0].seqNo + 1)
  {
    hide Run, FirstGapSeen, Losses, OutputsOf, Increasing, Rising;
    var s := Run(k, n, arrivals);
    RunDataOnly(k, n, arrivals);
    OutputInOrderAtMostOnce(k, n, arrivals);
    forall i | 0 <= i < |s.out| ensures s.out[i].block * k + s.out[i].frag < U32 {
      assert s.out[i] in s.out;
      assert (s.out[i].block + 1) * k == s.out[i].block * k + k;
    }
    OutputsIncrease(s.out, k, Floor(s.w));
    if OutputsOf(s.out, k) != [] {
      LossesConserve(OutputsOf(s.out, k));
    }
  }
}
