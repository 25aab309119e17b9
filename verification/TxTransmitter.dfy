/** The transmitter of pkg/tx/transmitter.go. */
module TxTransmitter {
  import opened Gf256
  import opened Matrices
  import opened ReedSolomon
  import opened Codec
  import opened Packets
  import opened Frames
  import opened Window
  import opened WindowRuns
  import opened Fidelity
  import opened Sender
  import opened TxLog
  import opened TxPlan

  /** The frames of fragments from..to of a block, at size sz. */
  function BlockFrames(bufs: seq<Vec>, session: nat, b: nat, from: nat, to: nat, sz: nat): (air: seq<OnAir>)
    requires from <= to <= |bufs| && SizesReach(bufs, sz)
    ensures |air| == to - from && AllFragments(air)
  {
    seq(to - from, i requires 0 <= i < to - from => Fragment(session, 256 * b + (from + i), bufs[from + i][..sz]))
  }

  /** Distinct buffers of full size. */
  predicate Separate(block: seq<array<byte>>)
  {
    && (forall i :: 0 <= i < |block| ==> block[i].Length == MAX_FEC_PAYLOAD)
    && (forall i, j :: 0 <= i < j < |block| ==> block[i] != block[j])
  }

  /** Defaults for parameters that are not positive. */
  function OrDefault(x: int, default: nat): nat
  {
    if x <= 0 then default else x
  }

  class Transmitter {
    const epoch: nat
    const channelID: nat
    var fecK: nat
    var fecN: nat
    var encoder: Fec
    var blockIdx: nat
    var fragmentIdx: nat
    var block: seq<array<byte>>
    var maxPktSize: nat
    /** Number of the session, standing for its key. */
    var session: nat
    /** Results of the injections to come; after the last one they all succeed. */
    var outcomes: seq<bool>
    var air: seq<OnAir>
    /** Every use of a session key. */
    ghost var sealed: seq<Sealing>
    /** The data fragments of the closed blocks of the session, and of the open one. */
    ghost var closed: Blocks
    ghost var open: Shards
    /** The operations of the session whose fragment got on air, and whether one did under a parity index. */
    ghost var ops: seq<Op>
    ghost var strayed: bool

    /** Buffers and parameters are in place. */
    ghost predicate Shape()
      reads this, encoder, encoder.enc
    {
      && Params(fecK, fecN) && encoder.Valid() && encoder.k == fecK && encoder.n == fecN
      && |block| == fecN && fragmentIdx <= fecN && blockIdx < BLOCK_IDX_LIMIT && maxPktSize <= MAX_FEC_PAYLOAD
      && Separate(block) && (forall i :: 0 <= i < fecN ==> block[i] != encoder.enc)
    }

    /** The buffers hold the data fragments of the open block, padded with zeros. */
    ghost predicate Buffered()
      requires |open| <= |block|
      reads this, Bufs()
    {
      forall i :: 0 <= i < |open| ==> block[i][..] == Fit(open[i], MAX_FEC_PAYLOAD)
    }

    /** The state as a value. */
    ghost function State(): TxState
      reads this
    {
      TxState(session, closed, open, fragmentIdx, maxPktSize)
    }

    /** Counters and fragments agree. */
    ghost predicate Logged()
      reads this
    {
      |closed| == blockIdx && StateOk(State(), fecK, fecN)
    }

    /** Counters, buffers and logs agree. */
    ghost predicate Core()
      reads this, encoder, encoder.enc, Bufs()
    {
      Shape() && fragmentIdx < fecN && Logged() && Buffered() && Logs(air, sealed, session, Nonce())
    }

    /**
      What every call keeps, whatever injections fail. As long as nothing went out under
      a parity index but parity, the fragments of the session on air are those the
      abstract sender sends for the operations so far.
    */
    ghost predicate Valid()
      reads this, encoder, encoder.enc, Bufs()
    {
      Core() && (!strayed ==> Traced(State(), fecK, fecN, air, ops))
    }

    ghost function Nonce(): nat
      reads this
    {
      256 * blockIdx + fragmentIdx
    }

    ghost function Bufs(): set<array<byte>>
      reads this
    {
      set b | b in block
    }

    lemma {:induction false} HasBuffers()
      requires Valid()
      ensures |block| == fecN && Bufs() == set i | 0 <= i < fecN :: block[i]
    {}

    /** The last frame that was sealed got on air. */
    ghost predicate LastThrough()
      reads this
    {
      sealed != [] && sealed[|sealed| - 1].through
    }

    /** What the buffers hold. */
    ghost function Held(): (bufs: seq<Vec>)
      reads this, Bufs()
      ensures |bufs| == |block|
      ensures forall i :: 0 <= i < |bufs| ==> bufs[i] == block[i][..]
    {
      seq(|block|, i requires 0 <= i < |block| reads this, Bufs() => block[i][..])
    }

    constructor (fecK: nat, fecN: nat, epoch: nat, channelID: nat, outcomes: seq<bool>)
      requires Params(fecK, fecN)
      ensures Valid() && State() == TxState(1, [], [], 0, 0) && air == [] && sealed == [] && ops == [] && !strayed
      ensures this.fecK == fecK && this.fecN == fecN && this.outcomes == outcomes
      ensures this.epoch == epoch && this.channelID == channelID
      ensures fresh(encoder) && fresh(encoder.enc) && forall i :: 0 <= i < fecN ==> fresh(block[i])
    {
      hide Traced;
      var encoder := new Fec(fecK, fecN);
      var block := NewBuffers(fecN);
      this.fecK, this.fecN, this.encoder, this.block := fecK, fecN, encoder, block;
      this.epoch, this.channelID, this.outcomes := epoch, channelID, outcomes;
      blockIdx, fragmentIdx, maxPktSize, session, air := 0, 0, 0, 1, [];
      sealed, closed, open, ops, strayed := [], [], [], [], false;
      new;
      NothingTraced(1, fecK, fecN, air);
    }

    /** `New`: an error unless the parameters fit, after the defaults. */
    static method New(fecK: int, fecN: int, epoch: nat, channelID: nat, outcomes: seq<bool>) returns (t: Transmitter?)
      ensures var k, n := if fecK <= 0 then 8 else fecK, if fecN <= 0 then 12 else fecN;
        && (t == null <==> !(1 <= k <= n <= 255))
        && (t != null ==> t.fecK == k && t.fecN == n && t.epoch == epoch && t.channelID == channelID)
      ensures t != null ==>
        && fresh(t) && t.Valid()
        && t.State() == TxState(1, [], [], 0, 0) && t.air == [] && t.sealed == [] && t.outcomes == outcomes
        && fresh(t.encoder) && fresh(t.encoder.enc) && forall i :: 0 <= i < t.fecN ==> fresh(t.block[i])
    {
      var k, n := OrDefault(fecK, 8), OrDefault(fecN, 12);
      if k < 1 || n < k || n > 255 {
        return null;
      }
      t := new Transmitter(k, n, epoch, channelID, outcomes);
    }

    static method NewBuffers(n: nat) returns (block: seq<array<byte>>)
      ensures |block| == n && Separate(block)
      ensures forall i :: 0 <= i < n ==> fresh(block[i])
    {
      block := [];
      for i := 0 to n
        invariant |block| == i && Separate(block)
        invariant forall j :: 0 <= j < i ==> fresh(block[j])
      {
        var b := new byte[MAX_FEC_PAYLOAD](_ => 0);
        block := block + [b];
      }
    }

    /** New encoder and buffers, counters at 0, another key. */
    method Restart()
      requires Params(fecK, fecN)
      modifies this
      ensures Shape() && State() == TxState(old(session) + 1, [], [], 0, 0) && blockIdx == 0
      ensures (forall i :: 0 <= i < fecN ==> fresh(block[i])) && fresh(encoder) && fresh(encoder.enc)
      ensures fecK == old(fecK) && fecN == old(fecN) && air == old(air) && outcomes == old(outcomes)
      ensures sealed == old(sealed) && ops == old(ops) && strayed == old(strayed)
    {
      hide Fec.Valid, Separate;
      var newBlock := NewBuffers(fecN);
      var newEncoder := new Fec(fecK, fecN);
      encoder, block := newEncoder, newBlock;
      blockIdx, fragmentIdx, maxPktSize := 0, 0, 0;
      session := session + 1;
      closed, open := [], [];
    }

    /** `initSession`: an error, and nothing changed, unless the parameters fit. */
    method InitSession() returns (ok: bool)
      modifies this
      ensures ok <==> 1 <= fecK <= fecN <= 255
      ensures ok ==> Shape() && State() == TxState(old(session) + 1, [], [], 0, 0) && blockIdx == 0
      ensures ok ==> (forall i :: 0 <= i < fecN ==> fresh(block[i])) && fresh(encoder) && fresh(encoder.enc)
      ensures !ok ==> State() == old(State()) && block == old(block) && encoder == old(encoder) && blockIdx == old(blockIdx)
      ensures fecK == old(fecK) && fecN == old(fecN) && air == old(air) && outcomes == old(outcomes)
      ensures sealed == old(sealed) && ops == old(ops) && strayed == old(strayed)
    {
      hide Shape;
      if fecK < 1 || fecN < fecK || fecN > 255 {
        return false;
      }
      Restart();
      ok := true;
    }

    /** The injector: the next result, and the frame is on air if it is a success. */
    method Inject(frame: OnAir) returns (ok: bool)
      modifies `outcomes, `air
      ensures air == if ok then old(air) + [frame] else old(air)
      ensures ok <==> Lead(old(outcomes), 1) == 1
      ensures outcomes == Rest(old(outcomes), 1)
    {
      ok := outcomes == [] || outcomes[0];
      if outcomes != [] {
        outcomes := outcomes[1..];
      }
      if ok {
        air := air + [frame];
      }
    }

    /** `sendBlockFragment`: the frame is sealed, and then injected. */
    method SendBlockFragment(packetSize: nat) returns (ok: bool)
      requires Shape() && fragmentIdx < fecN && packetSize <= MAX_FEC_PAYLOAD && Logs(air, sealed, session, Nonce())
      modifies `outcomes, `air, `sealed
      ensures var body := block[fragmentIdx][..packetSize];
        && air == (if ok then old(air) + [Fragment(session, Nonce(), body)] else old(air))
        && sealed == old(sealed) + [Sealing(session, Nonce(), body, ok)]
      ensures Logs(air, sealed, session, if ok then Nonce() + 1 else Nonce())
      ensures ok <==> Lead(old(outcomes), 1) == 1
      ensures outcomes == Rest(old(outcomes), 1)
    {
      hide Fec.Valid, Logs, Separate, Lead, Rest;
      BuffersApart(block, fragmentIdx);
      var nonce, plaintext := 256 * blockIdx + fragmentIdx, block[fragmentIdx][..packetSize];
      ok := Inject(Fragment(session, nonce, plaintext));
      LogsSealed(old(air), sealed, session, nonce, plaintext, ok);
      sealed := sealed + [Sealing(session, nonce, plaintext, ok)];
    }

    /** The data shards as they are encoded: the data buffers, cut at the block's size. */
    ghost function DataShards(): (d: Shards)
      requires Shape()
      reads this, encoder, encoder.enc, Bufs()
      ensures |d| == fecK && AllOfSize(d, maxPktSize)
    {
      seq(fecK, i requires 0 <= i < fecK && Shape() reads this, encoder, encoder.enc, Bufs() => block[i][..maxPktSize])
    }

    /** The encoding in `encodeFECAndSend`. */
    method EncodeBlock() returns (ok: bool, ghost bufs: seq<Vec>)
      requires Shape() && maxPktSize > 0
      modifies Bufs()
      ensures ok && Shape() && bufs == Held() && |bufs| == fecN && SizesReach(bufs, maxPktSize)
      ensures forall i :: 0 <= i < fecK ==> block[i][..] == old(block[i][..])
      ensures ParityOf(bufs, fecK, old(DataShards()), maxPktSize)
    {
      hide Fec.Valid, ContentsOf, CodeShard, ParityOf, SizesReach, Held;
      var data := seq(fecK, i requires 0 <= i < fecK && fecK <= |block| reads this => Bytes(block[i], maxPktSize));
      var parity := seq(fecN - fecK, i requires 0 <= i < fecN - fecK && fecN <= |block| reads this => Bytes(block[fecK + i], maxPktSize));
      assert ContentsOf(data) == DataShards();
      forall i | 0 <= i < fecN - fecK ensures parity[i].buf !in BufsOf(data) {
        assert parity[i].buf == block[fecK + i];
      }
      assert BufsOf(parity) <= Bufs();
      var r := encoder.Encode(data, parity);
      forall i | 0 <= i < fecK ensures block[i][..] == old(block[i][..]) {
        assert block[i] !in BufsOf(parity);
      }
      forall i | fecK <= i < fecN
        ensures block[i][..maxPktSize] == CodeShard(fecK, old(DataShards()), maxPktSize, i)
      {
        assert parity[i - fecK].buf == block[i];
      }
      HeldReach();
      HeldParity(old(DataShards()));
      ok, bufs := r == Ok, Held();
    }

    lemma {:induction false} HeldParity(data: Shards)
      requires Shape() && |data| == fecK && AllOfSize(data, maxPktSize) && SizesReach(Held(), maxPktSize)
      requires forall i :: fecK <= i < fecN ==> block[i][..maxPktSize] == CodeShard(fecK, data, maxPktSize, i)
      ensures ParityOf(Held(), fecK, data, maxPktSize)
    {
      hide Fec.Valid, CodeShard;
    }

    lemma {:induction false} HeldReach()
      requires Shape()
      ensures |Held()| == fecN && SizesReach(Held(), maxPktSize) && fragmentIdx <= fecN
    {
      hide Fec.Valid;
    }

    /** One parity fragment: position i of the frames from index `from` on. */
    method SendNextParity(ghost bufs: seq<Vec>, ghost all: seq<OnAir>, ghost from: nat) returns (ok: bool)
      requires Shape() && Logs(air, sealed, session, Nonce()) && bufs == Held() && |bufs| == fecN && SizesReach(bufs, maxPktSize)
      requires from <= fragmentIdx < fecN && all == BlockFrames(bufs, session, blockIdx, from, fecN, maxPktSize)
      modifies `outcomes, `air, `sealed, `fragmentIdx
      ensures fragmentIdx == old(fragmentIdx) + (if ok then 1 else 0) <= fecN
      ensures Shape() && Logs(air, sealed, session, Nonce()) && bufs == Held()
      ensures ok ==> LastThrough()
      ensures var frame := all[old(fragmentIdx) - from];
        && air == (if ok then old(air) + [frame] else old(air))
        && sealed == old(sealed) + [Sealing(frame.session, frame.nonce, frame.body, ok)]
      ensures ok <==> Lead(old(outcomes), 1) == 1
      ensures outcomes == Rest(old(outcomes), 1)
    {
      hide Fec.Valid, Logs, BlockFrames, Separate, Lead, Rest, SizesReach;
      BlockFramesAt(bufs, session, blockIdx, from, fecN, maxPktSize, fragmentIdx - from);
      ok := SendBlockFragment(maxPktSize);
      if !ok {
        return;
      }
      fragmentIdx := fragmentIdx + 1;
    }

    /** Sending the parity fragments that have not been sent yet. */
    method SendParity(ghost bufs: seq<Vec>) returns (ok: bool, ghost all: seq<OnAir>)
      requires Shape() && Logs(air, sealed, session, Nonce()) && LastThrough() && bufs == Held()
      modifies `outcomes, `air, `sealed, `fragmentIdx
      ensures SizesReach(bufs, maxPktSize) && |bufs| == fecN && old(fragmentIdx) <= fragmentIdx
      ensures all == BlockFrames(bufs, session, blockIdx, old(fragmentIdx), fecN, maxPktSize)
      ensures SeriesDone(all, fragmentIdx - old(fragmentIdx), old(air), air, old(sealed), sealed, old(outcomes), outcomes)
      ensures Shape() && Logs(air, sealed, session, Nonce())
      ensures ok <==> fragmentIdx == fecN
      ensures ok ==> LastThrough()
    {
      hide Fec.Valid, Shape, Held, Logs, BlockFrames, Separate, Lead, Rest, SizesReach, LastThrough, PartDone, SeriesDone, AllFragments;
      ghost var from, done := fragmentIdx, 0;
      HeldReach();
      all := BlockFrames(bufs, session, blockIdx, from, fecN, maxPktSize);
      SeriesStarts(all, air, sealed, outcomes);
      while fragmentIdx < fecN
        invariant Shape() && Logs(air, sealed, session, Nonce()) && LastThrough() && bufs == Held()
        invariant 0 <= done <= |all| && fragmentIdx == from + done
        invariant PartDone(all, done, old(air), air, old(sealed), sealed, old(outcomes), outcomes)
      {
        FragmentAt(all, done);
        SeriesGoesOn(all, done, old(air), air, old(sealed), sealed, old(outcomes), outcomes);
        var sent := SendNextParity(bufs, all, from);
        if !sent {
          return false, all;
        }
        done := done + 1;
      }
      SeriesEnds(all, old(air), air, old(sealed), sealed, old(outcomes), outcomes);
      ok := true;
    }

    /** Announcing the session, `count` times. */
    method Announce(count: nat) returns (ok: bool)
      requires Shape() && Logs(air, sealed, session, Nonce())
      modifies `outcomes, `air
      ensures Shape() && Logs(air, sealed, session, Nonce())
      ensures var c := Lead(old(outcomes), count);
        air == old(air) + Repeated(Announcement(session, fecK, fecN), count)[..c] && (ok <==> c == count)
      ensures outcomes == Rest(old(outcomes), count)
    {
      hide Fec.Valid, Logs, Lead, Rest, Separate;
      ghost var a := Announcement(session, fecK, fecN);
      for i := 0 to count
        invariant Shape() && Logs(air, sealed, session, Nonce())
        invariant air == old(air) + Repeated(a, count)[..i]
        invariant Lead(old(outcomes), count) == i + Lead(outcomes, count - i)
        invariant Rest(old(outcomes), count) == Rest(outcomes, count - i)
      {
        LogsAnnounced(air, sealed, session, Nonce(), a);
        LeadSplit(outcomes, 1, count - i - 1);
        var sent := Inject(Announcement(session, fecK, fecN));
        if !sent {
          return false;
        }
        assert Repeated(a, count)[..i + 1] == Repeated(a, count)[..i] + [a];
      }
      NoMoreLead(outcomes);
      ok := true;
    }

    /** `SendSessionKey`: one announcement, at any time; it does not disturb the session. */
    method SendSessionKey() returns (ok: bool)
      requires Valid()
      modifies `outcomes, `air
      ensures Valid() && State() == old(State())
      ensures air == old(air) + (if ok then [Announcement(session, fecK, fecN)] else [])
      ensures ok <==> Lead(old(outcomes), 1) == 1
      ensures outcomes == Rest(old(outcomes), 1)
    {
      hide Fec.Valid, Logs, StateOk, Separate, Lead, Rest, Traced;
      ghost var a := Announcement(session, fecK, fecN);
      LogsAnnounced(air, sealed, session, Nonce(), a);
      OpenWithin();
      TraceAnnounced(State(), fecK, fecN, air, ops, a);
      ok := Inject(Announcement(session, fecK, fecN));
    }

    /** The end of `encodeFECAndSend`: the next block, and after the last one another session. */
    method NextBlock() returns (ok: bool)
      requires Shape() && fragmentIdx == fecN && Logged() && Logs(air, sealed, session, Nonce()) && LastThrough()
      modifies this
      ensures Core() && fecK == old(fecK) && fecN == old(fecN) && State() == Closed(old(State()), fecK, fecN, 0)
      ensures var more := Announcements(old(State()), fecK, fecN); var c := Lead(old(outcomes), |more|);
        air == old(air) + more[..c] && outcomes == Rest(old(outcomes), |more|) && (ok <==> c == |more|)
      ensures sealed == old(sealed) && ops == old(ops) && strayed == old(strayed)
      ensures encoder == old(encoder) || (fresh(encoder) && fresh(encoder.enc))
      ensures block == old(block) || (forall i :: 0 <= i < fecN ==> fresh(block[i]))
    {
      hide Fec.Valid, Logs, Separate, StateOk, Fit, Repeated, Announcements, Closed, Lead, Rest;
      ghost var t := State();
      ClosedStateOk(t, fecK, fecN, 0);
      FullState(t, fecK, fecN);
      NothingMore(air, outcomes);
      LogsLater(air, sealed, session, Nonce(), session, 256 * (blockIdx + 1));
      LogsLater(air, sealed, session, Nonce(), session + 1, 0);
      blockIdx, fragmentIdx, maxPktSize := blockIdx + 1, 0, 0;
      closed, open := closed + [open], [];
      ok := true;
      if blockIdx >= BLOCK_IDX_LIMIT {
        ok := Rotate();
      }
    }

    /** Another session, announced: after the last block index, and for other parameters. */
    method Rotate() returns (ok: bool)
      requires Params(fecK, fecN) && Logs(air, sealed, session + 1, 0)
      modifies this
      ensures Core() && fecK == old(fecK) && fecN == old(fecN)
      ensures State() == TxState(old(session) + 1, [], [], 0, 0) && blockIdx == 0
      ensures var more := Repeated(Announcement(session, fecK, fecN), fecN - fecK + 1); var c := Lead(old(outcomes), |more|);
        air == old(air) + more[..c] && outcomes == Rest(old(outcomes), |more|) && (ok <==> c == |more|)
      ensures sealed == old(sealed) && ops == old(ops) && strayed == old(strayed)
      ensures fresh(encoder) && fresh(encoder.enc) && forall i :: 0 <= i < fecN ==> fresh(block[i])
    {
      hide Fec.Valid, Logs, Separate, Lead, Rest;
      ok := InitSession();
      if !ok {
        return;
      }
      ok := Announce(fecN - fecK + 1);
    }

    /**
      `encodeFECAndSend`. What gets on air is the plan up to the first injection that
      fails: the parity of the data buffers, and after the last block index the
      announcements of another session. If a parity fragment fails, the block stays open at it.
    */
    method EncodeFECAndSend() returns (ok: bool)
      requires Shape() && fecK <= fragmentIdx && Logged() && Buffered() && 0 < maxPktSize
      requires Logs(air, sealed, session, Nonce()) && LastThrough()
      modifies this, Bufs()
      ensures Core() && fecK == old(fecK) && fecN == old(fecN) && StateOk(old(State()), fecK, fecN)
      ensures var plan := ClosePlan(old(State()), fecK, fecN); var c := Lead(old(outcomes), |plan|);
        && air == old(air) + plan[..c] && outcomes == Rest(old(outcomes), |plan|) && (ok <==> c == |plan|)
        && State() == Closed(old(State()), fecK, fecN, c)
        && sealed == old(sealed) + SealedUpTo(OnAirOf(Parity(old(State()), fecK, fecN), old(session)), c)
      ensures ops == old(ops) && strayed == old(strayed)
      ensures encoder == old(encoder) || (fresh(encoder) && fresh(encoder.enc))
      ensures block == old(block) || (forall i :: 0 <= i < fecN ==> fresh(block[i]))
    {
      hide Fec.Valid, Shape, Logs, StateOk, Separate, CodeShard, Fit, FitAll, BlockFrames, ParityOf, SizesReach, Parity, Announcements, Closed, ClosePlan,
           Lead, Rest, SealedBy, OnAirOf;
      ghost var t := State();
      ClosingJoins(t, fecK, fecN, outcomes, air, sealed);
      FullBlock();
      DataIsOpen();
      ghost var bufs, all;
      ok, bufs := EncodeBlock();
      if !ok {
        return;
      }
      ParityFrames(bufs, t, fecK, fecN);
      ok, all := SendParity(bufs);
      if !ok {
        return;
      }
      ok := NextBlock();
    }

    /** Header, payload and zeros into the buffer of the current fragment. */
    method FillBuffer(data: Vec, flags: byte) returns (totalSize: nat)
      requires Shape() && fragmentIdx < fecN
      modifies block[fragmentIdx]
      ensures block[fragmentIdx][..] == Fit(MakeFragment(flags, Cut(data)), MAX_FEC_PAYLOAD)
      ensures totalSize == |MakeFragment(flags, Cut(data))|
    {
      hide Fec.Valid, Cut;
      var buf, payload := block[fragmentIdx], Cut(data);
      var payloadSize := |payload|;
      totalSize := PACKET_HDR_SIZE + payloadSize;
      buf[0], buf[1], buf[2] := flags, payloadSize / 256, payloadSize % 256;
      ghost var f := MakeFragment(flags, payload);
      for i := 0 to payloadSize
        invariant buf[..PACKET_HDR_SIZE + i] == f[..PACKET_HDR_SIZE + i]
      {
        buf[PACKET_HDR_SIZE + i] := payload[i];
      }
      for i := totalSize to MAX_FEC_PAYLOAD
        invariant buf[..i] == f + Zeros(i - totalSize)
      {
        buf[i] := 0;
      }
      assert buf[..] == buf[..MAX_FEC_PAYLOAD];
    }

    lemma {:induction false} OpenWithin()
      requires Logged()
      ensures Params(fecK, fecN) && |open| <= fecK && |open| <= fragmentIdx && (fragmentIdx < fecK ==> |open| == fragmentIdx)
    {}

    /** The buffers of the open block are not touched by the next fragment. */
    method PlaceFragment(data: Vec, flags: byte) returns (totalSize: nat)
      requires Core()
      modifies Bufs()
      ensures Core()
      ensures block[fragmentIdx][..] == Fit(MakeFragment(flags, Cut(data)), MAX_FEC_PAYLOAD)
      ensures totalSize == |MakeFragment(flags, Cut(data))|
    {
      hide Fec.Valid, Logs, StateOk, Cut, MakeFragment, Fit, Separate;
      OpenWithin();
      assert block[fragmentIdx] in Bufs();
      BuffersApart(block, fragmentIdx);
      totalSize := FillBuffer(data, flags);
      forall i | 0 <= i < |open| ensures block[i][..] == Fit(open[i], MAX_FEC_PAYLOAD) {
        assert block[i][..] == old(block[i][..]);
      }
    }

    /** The counters after fragment f has been sent. */
    method CountFragment(totalSize: nat, ghost f: Vec)
      requires Shape() && fragmentIdx < fecN && Logged() && Buffered() && WellFormed(f) && totalSize == |f|
      requires block[fragmentIdx][..] == Fit(f, MAX_FEC_PAYLOAD)
      modifies `maxPktSize, `fragmentIdx, `open
      ensures Shape() && Logged() && Buffered() && State() == Placed(old(State()), fecK, f)
    {
      hide Fec.Valid, Fit, Separate, StateOk;
      OpenWithin();
      PlacedOk(State(), fecK, fecN, f);
      if totalSize > maxPktSize {
        maxPktSize := totalSize;
      }
      if fragmentIdx < fecK {
        open := open + [f];
      }
      fragmentIdx := fragmentIdx + 1;
    }

    /** The first half of `sendPacketWithFlagsLocked`: one fragment. */
    method SendOne(data: Vec, flags: byte) returns (ok: bool)
      requires Core()
      modifies `outcomes, `air, `sealed, `maxPktSize, `fragmentIdx, `open, Bufs()
      ensures Shape() && Logged() && Buffered() && Logs(air, sealed, session, Nonce())
      ensures ok <==> Lead(old(outcomes), 1) == 1
      ensures ok ==> LastThrough() && maxPktSize > 0
      ensures outcomes == Rest(old(outcomes), 1)
      ensures var f := MakeFragment(flags, Cut(data));
        && air == old(air) + (if ok then [Fragment(session, old(Nonce()), f)] else [])
        && sealed == old(sealed) + [Sealing(session, old(Nonce()), f, ok)]
        && State() == if ok then Placed(old(State()), fecK, f) else old(State())
    {
      hide Fec.Valid, Logs, StateOk, Cut, MakeFragment, Fit, Separate, WellFormed, Lead, Rest, Placed;
      ghost var f := MakeFragment(flags, Cut(data));
      MadeFragment(flags, Cut(data));
      FitStarts(f, MAX_FEC_PAYLOAD);
      OpenWithin();
      var totalSize := PlaceFragment(data, flags);
      ok := SendBlockFragment(totalSize);
      if !ok {
        return;
      }
      PlacedParts(State(), fecK, f);
      CountFragment(totalSize, f);
    }

    lemma {:induction false} FullBlock()
      requires Logged() && fecK <= fragmentIdx
      ensures Params(fecK, fecN) && |open| == fecK && AllWellFormed(open) && BlockSize(open) <= maxPktSize
    {}

    /** The data buffers hold the fragments of the full block at the size of the parity. */
    lemma {:induction false} DataIsOpen()
      requires Shape() && |open| == fecK && Buffered() && AllWellFormed(open) && BlockSize(open) <= maxPktSize
      ensures DataShards() == FitAll(open, maxPktSize)
    {
      hide Fec.Valid, Separate;
      SizesBound(open, 0, |open|);
      forall i | 0 <= i < fecK ensures DataShards()[i] == FitAll(open, maxPktSize)[i] {
        assert WellFormed(open[i]);
        FitPrefix(open[i], maxPktSize, MAX_FEC_PAYLOAD);
      }
    }

    /** What stays the same when nothing is sent. */
    twostate predicate Idle()
      reads this
    {
      State() == old(State()) && air == old(air) && ops == old(ops) && strayed == old(strayed)
    }

    /** What went on air is what the abstract transmitter sent, in this session or the one that just ended. */
    ghost predicate Sent(before: seq<OnAir>, s: nat, tx: Tx, sent: seq<Arrival>)
      requires Params(fecK, fecN)
      reads this
    {
      if |tx.closed| < BLOCK_IDX_LIMIT then
        session == s && Tx(closed, open) == tx && air == before + OnAirOf(sent, s)
      else
        && session == s + 1 && closed == [] && open == []
        && air == before + OnAirOf(sent, s) + Repeated(Announcement(session, fecK, fecN), fecN - fecK + 1)
    }

    /** The second half of `sendPacketWithFlagsLocked`, after the fragment of state t got through. */
    method CloseIfFull(ghost t: TxState, ghost f: Vec, ghost o: seq<bool>, ghost a: seq<OnAir>, ghost l: seq<Sealing>) returns (ok: bool)
      requires Shape() && Logged() && Buffered() && Logs(air, sealed, session, Nonce()) && LastThrough() && maxPktSize > 0
      requires StateOk(t, fecK, fecN) && t.frag < fecN && WellFormed(f) && State() == Placed(t, fecK, f)
      requires Lead(o, 1) == 1 && outcomes == Rest(o, 1)
      requires air == a + [Fragment(t.session, 256 * |t.closed| + t.frag, f)]
      requires sealed == l + [Sealing(t.session, 256 * |t.closed| + t.frag, f, true)]
      modifies this, Bufs()
      ensures Core() && fecK == old(fecK) && fecN == old(fecN) && ops == old(ops) && strayed == old(strayed)
      ensures var plan := Plan(t, fecK, fecN, f); var c := Lead(o, |plan|);
        && air == a + plan[..c] && outcomes == Rest(o, |plan|) && (ok <==> c == |plan|)
        && State() == After(t, fecK, fecN, f, c) && sealed == l + SealedUpTo(OnAirOf(Fragments(t, fecK, fecN, f), t.session), c)
      ensures encoder == old(encoder) || (fresh(encoder) && fresh(encoder.enc))
      ensures block == old(block) || (forall i :: 0 <= i < fecN ==> fresh(block[i]))
    {
      hide Fec.Valid, Logs, StateOk, Separate, Fit, Plan, ClosePlan, Placed, After, Closed, Lead, Rest, SealedUpTo, OnAirOf, Fragments, Parity, WellFormed;
      CallJoins(t, fecK, fecN, f, o, a, l);
      StateParts(State(), fecK, fecN);
      if fragmentIdx < fecK {
        NothingToClose(State(), fecK, fecN, outcomes, air, sealed);
        return true;
      }
      ok := EncodeFECAndSend();
    }

    /** The frames of a call that is not idle, and the state they leave. */
    method SendPlanned(data: Vec, flags: byte, ghost f: Vec) returns (ok: bool)
      requires Core() && f == MakeFragment(flags, Cut(data))
      modifies this, Bufs()
      ensures Core() && fecK == old(fecK) && fecN == old(fecN) && ops == old(ops) && strayed == old(strayed)
      ensures encoder == old(encoder) || (fresh(encoder) && fresh(encoder.enc))
      ensures block == old(block) || (forall i :: 0 <= i < fecN ==> fresh(block[i]))
      ensures WellFormed(f) && StateOk(old(State()), fecK, fecN) && old(State()).frag < fecN
      ensures Done(old(State()), f)
      ensures var plan := Plan(old(State()), fecK, fecN, f); ok <==> Lead(old(outcomes), |plan|) == |plan|
    {
      hide Fec.Valid, Logs, StateOk, Cut, MakeFragment, Fit, Separate, WellFormed, Buffered, Plan, After, Placed, Lead, Rest,
           SealedUpTo, OnAirOf, Fragments;
      ghost var t, o, a, l := State(), outcomes, air, sealed;
      MadeFragment(flags, Cut(data));
      ok := SendOne(data, flags);
      if ok {
        ok := CloseIfFull(t, f, o, a, l);
      } else {
        CallFails(t, fecK, fecN, f, o, a, l);
      }
    }

    /** What a call that is not idle does to state and logs, as a function of the state before. */
    twostate predicate Done(t: TxState, f: Vec)
      requires StateOk(t, fecK, fecN) && t.frag < fecN && WellFormed(f)
      reads this
    {
      var plan := Plan(t, fecK, fecN, f);
      var c := Lead(old(outcomes), |plan|);
      && air == old(air) + plan[..c] && outcomes == Rest(old(outcomes), |plan|)
      && State() == After(t, fecK, fecN, f, c)
      && sealed == old(sealed) + SealedUpTo(OnAirOf(Fragments(t, fecK, fecN, f), t.session), c)
    }

    /** The same with the operations of the session. */
    twostate predicate Called(t: TxState, op: Op, f: Vec)
      requires StateOk(t, fecK, fecN) && t.frag < fecN && WellFormed(f)
      reads this
    {
      var c := Lead(old(outcomes), |Plan(t, fecK, fecN, f)|);
      && Done(t, f)
      && ops == OpsAfter(old(ops), op, t, State(), c) && strayed == StrayedAfter(old(strayed), t, State(), fecK, c)
    }

    /** A call that is not idle keeps the trace of the session. */
    method SendTraced(data: Vec, flags: byte, ghost op: Op) returns (ok: bool)
      requires Valid() && op == OpOf(data, flags) && !(fragmentIdx == 0 && op == FecOnly)
      requires flags == 0 || (flags == FEC_ONLY && data == [])
      modifies this, Bufs()
      ensures Valid() && fecK == old(fecK) && fecN == old(fecN)
      ensures encoder == old(encoder) || (fresh(encoder) && fresh(encoder.enc))
      ensures block == old(block) || (forall i :: 0 <= i < fecN ==> fresh(block[i]))
      ensures StateOk(old(State()), fecK, fecN) && old(State()).frag < fecN
      ensures Called(old(State()), op, FragmentOf(op))
      ensures var plan := Plan(old(State()), fecK, fecN, FragmentOf(op)); ok <==> Lead(old(outcomes), |plan|) == |plan|
    {
      hide Fec.Valid, Logs, StateOk, Cut, MakeFragment, Fit, Separate, WellFormed, Plan, After, Placed, Lead, Rest,
           SealedUpTo, OnAirOf, Fragments, FragmentOf, Traced, OpsAfter, StrayedAfter;
      ghost var t, o, x, f := State(), outcomes, Nonce(), FragmentOf(op);
      ghost var c := Lead(o, |Plan(t, fecK, fecN, f)|);
      OpFragment(data, flags);
      CallKeepsTrace(t, fecK, fecN, op, air, sealed, x, ops, strayed, c);
      ok := SendPlanned(data, flags, f);
      ops, strayed := OpsAfter(ops, op, t, State(), c), StrayedAfter(strayed, t, State(), fecK, c);
    }

    /**
      `sendPacketWithFlagsLocked`, as `SendPacket` and `SendFECOnly` call it. What gets on
      air is the plan up to the first injection that fails, and the state after it is
      that of the plan so far. Without failures that is one step of the abstract sender.
    */
    method SendPacketWithFlags(data: Vec, flags: byte) returns (more: bool, ok: bool)
      requires Valid() && (flags == 0 || (flags == FEC_ONLY && data == []))
      modifies this, Bufs()
      ensures Valid() && fecK == old(fecK) && fecN == old(fecN) && old(session) <= session
      ensures encoder == old(encoder) || (fresh(encoder) && fresh(encoder.enc))
      ensures block == old(block) || (forall i :: 0 <= i < fecN ==> fresh(block[i]))
      ensures old(fragmentIdx) == 0 && flags == FEC_ONLY ==>
        ok && !more && Idle() && outcomes == old(outcomes) && sealed == old(sealed)
      ensures !(old(fragmentIdx) == 0 && flags == FEC_ONLY) ==>
        var t, f := old(State()), MakeFragment(flags, Cut(data));
        && StateOk(t, fecK, fecN) && t.frag < fecN && WellFormed(f) && Called(t, OpOf(data, flags), f)
        && more == ok && (ok <==> Lead(old(outcomes), |Plan(t, fecK, fecN, f)|) == |Plan(t, fecK, fecN, f)|)
      ensures ok && !(old(fragmentIdx) == 0 && flags == FEC_ONLY) ==> fragmentIdx == 0 || fragmentIdx > old(fragmentIdx)
      ensures old(AllSucceed(outcomes)) ==> ok && AllSucceed(outcomes)
      ensures old(AllSucceed(outcomes)) && old(fragmentIdx) < fecK ==>
        && TxOk(Tx(old(closed), old(open)), fecK) && fragmentIdx < fecK
        && var (tx, sent) := Send(Tx(old(closed), old(open)), fecK, fecN, OpOf(data, flags));
          Sent(old(air), old(session), tx, sent)
    {
      hide Fec.Valid, Logs, StateOk, Cut, MakeFragment, Fit, Separate, WellFormed, Buffered, Plan, After, Placed, Lead, Rest, Send, SendFragment,
           SealedUpTo, OnAirOf, Fragments, Traced, OpsAfter, StrayedAfter, Repeated, FragmentOf, TxOk, AllSucceed;
      var isFECOnly := flags % 2 == FEC_ONLY;
      ghost var t, op, o := State(), OpOf(data, flags), outcomes;
      TxOfOk(t, fecK, fecN);
      IdleSend(t, fecK, fecN, op, air);
      if fragmentIdx == 0 && isFECOnly {
        return false, true;
      }
      OpFragment(data, flags);
      CleanCall(t, fecK, fecN, op, o);
      Progress(t, fecK, fecN, FragmentOf(op), Lead(o, |Plan(t, fecK, fecN, FragmentOf(op))|));
      ok := SendTraced(data, flags, op);
      more := ok;
    }

    /**
      The loops of `SetFEC` (below fecN: as long as a block is open) and of
      `checkFECTimeout` (below fecK): FEC-only packets until the block is closed.
      They end because every packet that gets through moves the fragment index on.
    */
    method CloseBlock(below: nat) returns (ok: bool)
      requires Valid() && (below == fecK || below == fecN)
      modifies this, Bufs()
      ensures Valid() && fecK == old(fecK) && fecN == old(fecN) && old(session) <= session
      ensures encoder == old(encoder) || (fresh(encoder) && fresh(encoder.enc))
      ensures block == old(block) || (forall i :: 0 <= i < fecN ==> fresh(block[i]))
      ensures ok ==> fragmentIdx == 0 || fragmentIdx >= below
      ensures old(fragmentIdx) == 0 || old(fragmentIdx) >= below ==>
        ok && Idle() && outcomes == old(outcomes) && sealed == old(sealed)
      ensures old(AllSucceed(outcomes)) ==> ok && AllSucceed(outcomes)
      ensures old(AllSucceed(outcomes)) && old(fragmentIdx) < fecK ==>
        && TxOk(Tx(old(closed), old(open)), fecK) && fragmentIdx == 0
        && var (tx, sent) := CloseOpen(Tx(old(closed), old(open)), fecK, fecN); Sent(old(air), old(session), tx, sent)
    {
      hide Fec.Valid, Logs, StateOk, Traced, Separate, Send, Repeated, OnAirOf, TxOk, CloseOpen, Buffered, AllSucceed, Lead, Rest, Plan, Fragments, After, SealedUpTo, Called;
      ghost var clean := AllSucceed(outcomes) && fragmentIdx < fecK;
      ghost var tx, sent := Tx(closed, open), [];
      OpenIsOk(State(), fecK, fecN);
      NothingOnAir(air, session, Announcement(session, fecK, fecN));
      if clean {
        CloseOpenFrom(tx, fecK, fecN, tx, []);
      }
      while 0 < fragmentIdx < below
        invariant Valid() && fecK == old(fecK) && fecN == old(fecN) && old(session) <= session
        invariant encoder == old(encoder) || (fresh(encoder) && fresh(encoder.enc))
        invariant block == old(block) || (forall i :: 0 <= i < fecN ==> fresh(block[i]))
        invariant old(AllSucceed(outcomes)) ==> AllSucceed(outcomes)
        invariant old(fragmentIdx) == 0 || old(fragmentIdx) >= below ==>
          Idle() && outcomes == old(outcomes) && sealed == old(sealed)
        invariant clean ==> fragmentIdx < fecK && TxOk(tx, fecK) && |tx.open| == fragmentIdx && Sent(old(air), old(session), tx, sent)
        invariant clean ==> var (tx0, sent0) := CloseOpen(Tx(old(closed), old(open)), fecK, fecN);
          var (tx1, sent1) := CloseOpen(tx, fecK, fecN); tx0 == tx1 && sent0 == sent + sent1
        decreases if fragmentIdx == 0 then 0 else fecN - fragmentIdx
      {
        ghost var before := air;
        OpenIsOk(State(), fecK, fecN);
        var more, done := SendPacketWithFlags([], FEC_ONLY);
        if !done {
          return false;
        }
        if clean {
          CloseOpenStep(tx, fecK, fecN, sent);
          SentJoin(old(air), before, sent, Send(tx, fecK, fecN, FecOnly).1, old(session));
          OpenAfter(tx, fecK, fecN);
          OpenIsOk(State(), fecK, fecN);
          tx, sent := Send(tx, fecK, fecN, FecOnly).0, sent + Send(tx, fecK, fecN, FecOnly).1;
        }
      }
      if clean {
        CloseOpenDone(tx, fecK, fecN);
      }
      ok := true;
    }

    /**
      `checkFECTimeout`, given whether the time since the last packet has run out. A
      block that a failed injection left open among its parity fragments stays open.
    */
    method CheckFECTimeout(expired: bool)
      requires Valid()
      modifies this, Bufs()
      ensures Valid() && fecK == old(fecK) && fecN == old(fecN)
      ensures !expired || old(fragmentIdx) == 0 || old(fragmentIdx) >= old(fecK) ==>
        Idle() && outcomes == old(outcomes) && sealed == old(sealed)
      ensures expired && old(AllSucceed(outcomes)) && 0 < old(fragmentIdx) < fecK ==>
        && TxOk(Tx(old(closed), old(open)), fecK) && fragmentIdx == 0
        && var (tx, sent) := CloseOpen(Tx(old(closed), old(open)), fecK, fecN); Sent(old(air), old(session), tx, sent)
    {
      if fragmentIdx == 0 {
        return;
      }
      if !expired {
        return;
      }
      var ok := CloseBlock(fecK);
    }

    /** `SetFEC`: the open block is closed, and a session with the new parameters starts and is announced. */
    method SetFEC(k: int, n: int) returns (ok: bool)
      requires Valid()
      modifies this, Bufs()
      ensures Valid() && old(session) <= session
      ensures !Params(if k < 0 then 0 else k, if n < 0 then 0 else n) ==>
        !ok && Idle() && fecK == old(fecK) && fecN == old(fecN) && outcomes == old(outcomes)
      ensures ok ==> fecK == k && fecN == n && blockIdx == 0 && fragmentIdx == 0 && old(session) < session
      ensures old(AllSucceed(outcomes)) && Params(if k < 0 then 0 else k, if n < 0 then 0 else n) ==> ok
      ensures ok && old(AllSucceed(outcomes)) && old(fragmentIdx) < old(fecK) ==>
        && TxOk(Tx(old(closed), old(open)), old(fecK))
        && var (tx, sent) := CloseOpen(Tx(old(closed), old(open)), old(fecK), old(fecN));
          |tx.closed| < BLOCK_IDX_LIMIT ==>
            && session == old(session) + 1
            && air == old(air) + OnAirOf(sent, old(session)) + Repeated(Announcement(session, fecK, fecN), fecN - fecK + 1)
    {
      hide Fec.Valid, Logs, StateOk, Traced, Separate, AllSucceed, Lead, Rest, Send, Repeated, OnAirOf, TxOk, CloseOpen;
      if k < 1 || n < 1 || k > n || n > 255 {
        return false;
      }
      ok := CloseBlock(fecN);
      if !ok {
        return;
      }
      LeadOfSuccess2(outcomes, n - k + 1);
      ok := StartSession(k, n);
    }

    /** The second half of `SetFEC`: a session with other parameters, announced. */
    method StartSession(k: nat, n: nat) returns (ok: bool)
      requires Core() && Params(k, n)
      modifies this
      ensures Valid() && fecK == k && fecN == n && State() == TxState(old(session) + 1, [], [], 0, 0) && blockIdx == 0
      ensures var more := Repeated(Announcement(session, k, n), n - k + 1); var c := Lead(old(outcomes), |more|);
        air == old(air) + more[..c] && outcomes == Rest(old(outcomes), |more|) && (ok <==> c == |more|)
      ensures sealed == old(sealed) && ops == [] && !strayed
    {
      hide Fec.Valid, Logs, Shape, Logged, Buffered, Separate, StateOk, Lead, Rest, Traced, Repeated, OfSession, Ordered;
      ghost var later := session + 1;
      LogsLater(air, sealed, session, Nonce(), later, 0);
      AirIsOrdered(air, sealed, session, Nonce());
      NothingOfLater(air, session, Nonce(), later);
      AnnouncedNothing(air, Announcement(later, k, n), n - k + 1, Lead(outcomes, n - k + 1), later);
      NothingMore(air, outcomes);
      fecK, fecN, ops, strayed := k, n, [], false;
      ok := Rotate();
      NothingTraced(later, k, n, air);
    }
  }

  lemma {:induction false} TraceAnnounced(t: TxState, k: nat, n: nat, air: seq<OnAir>, ops: seq<Op>, a: OnAir)
    requires Params(k, n) && a.Announcement?
    ensures Traced(t, k, n, air, ops) ==> Traced(t, k, n, air + [a], ops)
  {
    hide SendAll, OfSession;
    AnnouncedNothing(air, a, 1, 1, t.session);
    assert Repeated(a, 1)[..1] == [a];
  }

  lemma {:induction false} AnnouncedNothing(air: seq<OnAir>, a: OnAir, count: nat, c: nat, session: nat)
    requires a.Announcement? && c <= count
    ensures OfSession(air + Repeated(a, count)[..c], session) == OfSession(air, session)
  {
    hide OfSession;
    var more := Repeated(a, count)[..c];
    OfSessionJoin(air, more, session);
    OfSessionNone(more, session);
    assert OfSession(air, session) + [] == OfSession(air, session);
  }

  /** FEC-only packets until no block is open. */
  ghost function CloseOpen(tx: Tx, k: nat, n: nat): (r: (Tx, seq<Arrival>))
    requires Params(k, n) && TxOk(tx, k)
    ensures TxOk(r.0, k)
    decreases if tx.open == [] then 0 else k - |tx.open|
  {
    if tx.open == [] then (tx, [])
    else
      var (t1, s1) := Send(tx, k, n, FecOnly);
      var (t2, s2) := CloseOpen(t1, k, n);
      (t2, s1 + s2)
  }

  /** Closing completes the open block with empty fragments, and touches nothing else. */
  lemma {:induction false} CloseOpenCloses(tx: Tx, k: nat, n: nat)
    requires Params(k, n) && TxOk(tx, k)
    ensures var (t, sent) := CloseOpen(tx, k, n);
      && t.open == [] && Held(t) == Held(tx)
      && (if tx.open == [] then t == tx && sent == []
          else |t.closed| == |tx.closed| + 1 && t.closed[..|tx.closed|] == tx.closed
               && t.closed[|tx.closed|][..|tx.open|] == tx.open && |sent| == n - |tx.open|)
    decreases if tx.open == [] then 0 else k - |tx.open|
  {
    hide Held, FragmentOf;
    if tx.open != [] {
      var f := FragmentOf(FecOnly);
      SendHeld(tx, k, n, FecOnly);
      var t1 := Send(tx, k, n, FecOnly).0;
      CloseOpenCloses(t1, k, n);
      if t1.open != [] {
        var t := CloseOpen(tx, k, n).0;
        assert t1.open == tx.open + [f];
        assert t.closed[|tx.closed|][..|tx.open|] == t.closed[|tx.closed|][..|t1.open|][..|tx.open|];
      }
    }
  }

  lemma {:induction false} CloseOpenFrom(tx: Tx, k: nat, n: nat, tx': Tx, sent: seq<Arrival>)
    requires Params(k, n) && TxOk(tx, k) && tx' == tx && sent == []
    ensures CloseOpen(tx, k, n).1 == sent + CloseOpen(tx', k, n).1
  {
    assert [] + CloseOpen(tx, k, n).1 == CloseOpen(tx, k, n).1;
  }

  lemma {:induction false} CloseOpenStep(tx: Tx, k: nat, n: nat, sent: seq<Arrival>)
    requires Params(k, n) && TxOk(tx, k) && tx.open != []
    ensures var (t1, s1) := Send(tx, k, n, FecOnly);
      && CloseOpen(tx, k, n).0 == CloseOpen(t1, k, n).0
      && sent + CloseOpen(tx, k, n).1 == (sent + s1) + CloseOpen(t1, k, n).1
  {
    hide Send;
  }

  lemma {:induction false} CloseOpenDone(tx: Tx, k: nat, n: nat)
    requires Params(k, n) && TxOk(tx, k) && tx.open == []
    ensures CloseOpen(tx, k, n) == (tx, []) && forall sent: seq<Arrival> :: sent + [] == sent
  {}

  lemma {:induction false} OpenAfter(tx: Tx, k: nat, n: nat)
    requires Params(k, n) && TxOk(tx, k) && tx.open != []
    ensures var t := Send(tx, k, n, FecOnly).0;
      && |t.open| == (if |tx.open| + 1 == k then 0 else |tx.open| + 1)
      && (t.closed == tx.closed || t.open == [])
  {}

  lemma {:induction false} SentJoin(air: seq<OnAir>, mid: seq<OnAir>, a: seq<Arrival>, b: seq<Arrival>, session: nat)
    ensures mid == air + OnAirOf(a, session) ==> mid + OnAirOf(b, session) == air + OnAirOf(a + b, session)
  {
    assert OnAirOf(a + b, session) == OnAirOf(a, session) + OnAirOf(b, session);
  }

  /** Sealing frames with c injections succeeding, some of which may be of announcements. */
  function SealedUpTo(frames: seq<OnAir>, c: nat): seq<Sealing>
    requires AllFragments(frames)
  {
    SealedBy(frames, if c < |frames| then c else |frames|)
  }

  /** Whether a fragment of the session went out under a parity index but for the parity. */
  function StrayedAfter(strayed: bool, t: TxState, t': TxState, k: nat, c: nat): bool
  {
    if c == 0 then strayed else t'.session == t.session && (strayed || k <= t.frag)
  }

  /** The plan for closing: the parity, and if all of it gets through, the announcements. */
  lemma {:induction false} ClosingJoins(t: TxState, k: nat, n: nat, outcomes: seq<bool>, air: seq<OnAir>, log: seq<Sealing>)
    requires StateOk(t, k, n) && k <= t.frag
    ensures var frames, more, plan := OnAirOf(Parity(t, k, n), t.session), Announcements(t, k, n), ClosePlan(t, k, n);
      var p := |frames|; var u := t.(frag := n); var c := Lead(outcomes, |plan|); var a := Lead(outcomes, p);
      && p == n - t.frag && StateOk(u, k, n) && Announcements(u, k, n) == more
      && (a < p ==>
           && c == a < |plan| && Rest(outcomes, |plan|) == Rest(outcomes, p) && plan[..c] == frames[..a]
           && Closed(t, k, n, c) == t.(frag := t.frag + a) && StateOk(t.(frag := t.frag + a), k, n) && SealedUpTo(frames, c) == SealedBy(frames, a))
      && (a == p ==> var e := Lead(Rest(outcomes, p), |more|);
           && c == p + e && Rest(outcomes, |plan|) == Rest(Rest(outcomes, p), |more|)
           && air + plan[..c] == air + frames[..a] + more[..e]
           && Closed(t, k, n, c) == Closed(u, k, n, 0) && SealedUpTo(frames, c) == SealedBy(frames, a))
  {
    hide Parity, Announcements, Lead, Rest, SealedBy, OnAirOf;
    LeadSplit(outcomes, |Parity(t, k, n)|, |Announcements(t, k, n)|);
    assert Announcements(t.(frag := n), k, n) == Announcements(t, k, n) by {
      SameAnnouncements(t, k, n);
    }
  }

  /** What follows when the whole block has been sent. */
  lemma {:induction false} FullState(t: TxState, k: nat, n: nat)
    requires StateOk(t, k, n) && t.frag == n
    ensures Params(k, n) && |t.closed| < BLOCK_IDX_LIMIT
    ensures |t.closed| + 1 < BLOCK_IDX_LIMIT ==>
      Announcements(t, k, n) == [] && Closed(t, k, n, 0) == TxState(t.session, t.closed + [t.open], [], 0, 0)
    ensures |t.closed| + 1 == BLOCK_IDX_LIMIT ==>
      && Announcements(t, k, n) == Repeated(Announcement(t.session + 1, k, n), n - k + 1)
      && Closed(t, k, n, 0) == TxState(t.session + 1, [], [], 0, 0)
  {}

  lemma {:induction false} SameAnnouncements(t: TxState, k: nat, n: nat)
    requires k <= t.frag <= n
    ensures Announcements(t.(frag := n), k, n) == Announcements(t, k, n)
  {}

  lemma {:induction false} PlacedParts(t: TxState, k: nat, f: Vec)
    ensures Placed(t, k, f).size >= |f| && Placed(t, k, f).frag == t.frag + 1
  {}

  lemma {:induction false} FragmentAt(frames: seq<OnAir>, i: nat)
    requires AllFragments(frames) && i < |frames|
    ensures frames[i].Fragment?
  {}

  /** The frames of the parity buffers are the parity fragments. */
  lemma {:induction false} ParityFrames(bufs: seq<Vec>, t: TxState, k: nat, n: nat)
    requires StateOk(t, k, n) && k <= t.frag && |bufs| == n && SizesReach(bufs, t.size)
    requires AllOfSize(FitAll(t.open, t.size), t.size) && ParityOf(bufs, k, FitAll(t.open, t.size), t.size)
    ensures BlockFrames(bufs, t.session, |t.closed|, t.frag, n, t.size) == OnAirOf(Parity(t, k, n), t.session)
  {
    hide CodeShard, BlockSize, FitAll, StateOk;
  }

  /** The buffers from k on start with the parity of the data. */
  ghost predicate ParityOf(bufs: seq<Vec>, k: nat, data: Shards, sz: nat)
    requires SizesReach(bufs, sz) && |data| == k <= 255 && AllOfSize(data, sz)
  {
    forall i :: k <= i < |bufs| ==> bufs[i][..sz] == CodeShard(k, data, sz, i)
  }

  predicate SizesReach(bufs: seq<Vec>, sz: nat)
  {
    forall i :: 0 <= i < |bufs| ==> sz <= |bufs[i]|
  }

  lemma {:induction false} BlockFramesAt(bufs: seq<Vec>, session: nat, b: nat, from: nat, to: nat, sz: nat, i: nat)
    requires from <= to <= |bufs| && SizesReach(bufs, sz) && i < to - from
    ensures BlockFrames(bufs, session, b, from, to, sz)[i] == Fragment(session, 256 * b + (from + i), bufs[from + i][..sz])
  {}

  lemma {:induction false} BuffersApart(block: seq<array<byte>>, i: nat)
    requires Separate(block) && i < |block|
    ensures block[i].Length == MAX_FEC_PAYLOAD && forall j :: 0 <= j < |block| && j != i ==> block[j] != block[i]
  {}

  lemma {:induction false} FitStarts(f: Vec, sz: nat)
    requires |f| <= sz
    ensures Fit(f, sz)[..|f|] == f
  {}

  lemma {:induction false} FitPrefix(f: Vec, sz: nat, size: nat)
    requires |f| <= sz <= size
    ensures Fit(f, size)[..sz] == Fit(f, sz)
  {}

  lemma {:induction false} StateParts(t: TxState, k: nat, n: nat)
    requires StateOk(t, k, n)
    ensures Params(k, n) && (t.frag < k ==> |t.open| == t.frag && t.size == BlockSize(t.open))
  {}

  lemma {:induction false} FramesSplit(t: TxState, k: nat, n: nat, f: Vec)
    requires StateOk(t, k, n) && t.frag < n && WellFormed(f) && StateOk(Placed(t, k, f), k, n)
    ensures OnAirOf(Fragments(t, k, n, f), t.session)
         == [Fragment(t.session, 256 * |t.closed| + t.frag, f)] + OnAirOf(Parity(Placed(t, k, f), k, n), t.session)
  {
    hide Parity, StateOk, Placed;
    var first, rest := [Arrival(|t.closed|, t.frag, f)], Parity(Placed(t, k, f), k, n);
    assert OnAirOf(first + rest, t.session) == OnAirOf(first, t.session) + OnAirOf(rest, t.session);
  }

  lemma {:induction false} SealedSplit(first: OnAir, parity: seq<OnAir>, e: nat, log: seq<Sealing>)
    requires first.Fragment? && AllFragments(parity)
    ensures AllFragments([first] + parity)
    ensures log + SealedUpTo([first] + parity, 0) == log + [Sealing(first.session, first.nonce, first.body, false)]
    ensures log + SealedUpTo([first] + parity, 1 + e)
         == log + [Sealing(first.session, first.nonce, first.body, true)] + SealedUpTo(parity, e)
  {
    SealedFirst(first, parity, if e < |parity| then e else |parity|);
  }

  /** A call whose first injection fails. */
  lemma {:induction false} CallFails(t: TxState, k: nat, n: nat, f: Vec, o: seq<bool>, air: seq<OnAir>, log: seq<Sealing>)
    requires StateOk(t, k, n) && t.frag < n && WellFormed(f) && Lead(o, 1) != 1
    ensures var plan, frames := Plan(t, k, n, f), OnAirOf(Fragments(t, k, n, f), t.session);
      var c, x := Lead(o, |plan|), 256 * |t.closed| + t.frag;
      && c == 0 < |plan| && Rest(o, |plan|) == Rest(o, 1) && air + plan[..c] == air && After(t, k, n, f, c) == t
      && log + SealedUpTo(frames, c) == log + [Sealing(t.session, x, f, false)]
  {
    hide StateOk, Parity, ClosePlan, Lead, Rest, SealedUpTo, OnAirOf, WellFormed, Placed, Plan, Fragments;
    PlanSplits(t, k, n, f);
    FramesSplit(t, k, n, f);
    var u := Placed(t, k, f);
    SealedSplit(Fragment(t.session, 256 * |t.closed| + t.frag, f), OnAirOf(Parity(u, k, n), t.session), 0, log);
    LeadSplit(o, 1, |ClosePlan(u, k, n)|);
  }

  /** A call whose first injection succeeds goes on with the plan for closing. */
  lemma {:induction false} CallJoins(t: TxState, k: nat, n: nat, f: Vec, o: seq<bool>, air: seq<OnAir>, log: seq<Sealing>)
    requires StateOk(t, k, n) && t.frag < n && WellFormed(f) && Lead(o, 1) == 1
    ensures StateOk(Placed(t, k, f), k, n)
    ensures var u := Placed(t, k, f); var plan, rest := Plan(t, k, n, f), ClosePlan(u, k, n);
      var frames, parity := OnAirOf(Fragments(t, k, n, f), t.session), OnAirOf(Parity(u, k, n), t.session);
      var c, x, e := Lead(o, |plan|), 256 * |t.closed| + t.frag, Lead(Rest(o, 1), |rest|);
      && c == 1 + e && |plan| == 1 + |rest| && Rest(o, |plan|) == Rest(Rest(o, 1), |rest|)
      && air + plan[..c] == air + [Fragment(t.session, x, f)] + rest[..e]
      && After(t, k, n, f, c) == Closed(u, k, n, e)
      && log + SealedUpTo(frames, c) == log + [Sealing(t.session, x, f, true)] + SealedUpTo(parity, e)
      && u.session == t.session
  {
    hide StateOk, Parity, ClosePlan, Lead, Rest, SealedUpTo, OnAirOf, WellFormed, Closed, Plan, Fragments;
    PlanSplits(t, k, n, f);
    FramesSplit(t, k, n, f);
    var u := Placed(t, k, f);
    var rest := ClosePlan(u, k, n);
    var first, e := Fragment(t.session, 256 * |t.closed| + t.frag, f), Lead(Rest(o, 1), |rest|);
    SealedSplit(first, OnAirOf(Parity(u, k, n), t.session), e, log);
    LeadSplit(o, 1, |rest|);
    assert ([first] + rest)[..1 + e] == [first] + rest[..e];
    assert air + ([first] + rest[..e]) == air + [first] + rest[..e];
  }

  /** Below index k nothing is to be closed. */
  lemma {:induction false} NothingToClose(u: TxState, k: nat, n: nat, o: seq<bool>, air: seq<OnAir>, log: seq<Sealing>)
    requires StateOk(u, k, n) && u.frag < k
    ensures var rest := ClosePlan(u, k, n); var e := Lead(o, |rest|);
      && rest == [] && e == 0 && Rest(o, |rest|) == o && air + rest[..e] == air && Closed(u, k, n, e) == u
      && log + SealedUpTo(OnAirOf(Parity(u, k, n), u.session), e) == log
  {}

  /** The operation a call of `sendPacketWithFlagsLocked` stands for. */
  function OpOf(data: Vec, flags: byte): Op
  {
    if flags == 0 then Packet(data) else FecOnly
  }

  lemma {:induction false} OpFragment(data: Vec, flags: byte)
    requires flags == 0 || (flags == FEC_ONLY && data == [])
    ensures FragmentOf(OpOf(data, flags)) == MakeFragment(flags, Cut(data))
    ensures WellFormed(MakeFragment(flags, Cut(data)))
  {
    MadeFragment(flags, Cut(data));
  }

  lemma {:induction false} NothingOnAir(air: seq<OnAir>, session: nat, a: OnAir)
    ensures air + OnAirOf([], session) == air && air + Repeated(a, 0) == air
  {}

  lemma {:induction false} OpenIsOk(t: TxState, k: nat, n: nat)
    requires StateOk(t, k, n)
    ensures t.frag < k ==> TxOk(Tx(t.closed, t.open), k) && |t.open| == t.frag
  {}

  /** With no block open, an FEC-only packet does nothing. */
  lemma {:induction false} IdleSend(t: TxState, k: nat, n: nat, op: Op, air: seq<OnAir>)
    requires StateOk(t, k, n) && TxOk(TxOf(t, k), k)
    ensures t.frag == 0 && op == FecOnly ==>
      Send(TxOf(t, k), k, n, op) == (TxOf(t, k), []) && air + OnAirOf([], t.session) == air && TxOf(t, k) == Tx(t.closed, t.open)
  {
    hide OnAirOf;
    NothingOnAir(air, t.session, Announcement(0, 0, 0));
  }

  /** The trace of a session goes on through any call. */
  lemma {:induction false} CallKeepsTrace(t: TxState, k: nat, n: nat, op: Op, air: seq<OnAir>, log: seq<Sealing>, x: nat,
                                          ops: seq<Op>, strayed: bool, c: nat)
    requires StateOk(t, k, n) && t.frag < n && Logs(air, log, t.session, x) && (!strayed ==> Traced(t, k, n, air, ops))
    requires c <= |Plan(t, k, n, FragmentOf(op))| && !(op == FecOnly && t.frag == 0)
    ensures var f := FragmentOf(op); var t' := After(t, k, n, f, c);
      !StrayedAfter(strayed, t, t', k, c) ==> Traced(t', k, n, air + Plan(t, k, n, f)[..c], OpsAfter(ops, op, t, t', c))
  {
    hide StateOk, Logs, Traced, Plan, FragmentOf, OfSession, After, WellFormed;
    var f := FragmentOf(op);
    var plan, t' := Plan(t, k, n, f), After(t, k, n, f, c);
    AirIsOrdered(air, log, t.session, x);
    NothingOfLater(air, t.session, x, t.session + 1);
    ParamsOf(t, k, n);
    if c == 0 {
      AfterNothing(t, k, n, f);
      assert air + plan[..0] == air;
    } else if t'.session != t.session {
      NextSession(t, k, n, f, c);
      PlanOfSession(t, k, n, f, c);
      OfSessionJoin(air, plan[..c], t.session + 1);
      NothingTraced(t.session + 1, k, n, air + plan[..c]);
    } else if !strayed && t.frag < k {
      CallIsTraced(t, k, n, op, air, ops, c);
    }
  }

  lemma {:induction false} Progress(t: TxState, k: nat, n: nat, f: Vec, c: nat)
    requires StateOk(t, k, n) && t.frag < n && WellFormed(f) && c <= |Plan(t, k, n, f)|
    ensures var u := After(t, k, n, f, c);
      t.session <= u.session && (c == |Plan(t, k, n, f)| ==> u.frag == 0 || u.frag > t.frag)
  {
    hide WellFormed;
  }

  /** When every injection succeeds the whole plan gets on air: what the abstract sender sends. */
  lemma {:induction false} CleanCall(t: TxState, k: nat, n: nat, op: Op, o: seq<bool>)
    requires StateOk(t, k, n) && t.frag < n && TxOk(TxOf(t, k), k)
    ensures var plan := Plan(t, k, n, FragmentOf(op));
      AllSucceed(o) ==> Lead(o, |plan|) == |plan| && AllSucceed(Rest(o, |plan|))
    ensures t.frag < k && !(op == FecOnly && t.frag == 0) ==>
      var plan, u := Plan(t, k, n, FragmentOf(op)), After(t, k, n, FragmentOf(op), |Plan(t, k, n, FragmentOf(op))|);
      var (tx, sent) := Send(TxOf(t, k), k, n, op);
      && TxOf(t, k) == Tx(t.closed, t.open) && u.frag < k
      && (if |tx.closed| < BLOCK_IDX_LIMIT then
            u.session == t.session && Tx(u.closed, u.open) == tx && plan == OnAirOf(sent, t.session)
          else
            && u == TxState(t.session + 1, [], [], 0, 0)
            && plan == OnAirOf(sent, t.session) + Repeated(Announcement(t.session + 1, k, n), n - k + 1))
  {
    hide AllSucceed, Lead, Rest, FragmentOf, WellFormed, OnAirOf, Repeated, SendFragment;
    var f := FragmentOf(op);
    LeadOfSuccess2(o, |Plan(t, k, n, f)|);
    if t.frag < k && !(op == FecOnly && t.frag == 0) {
      PlannedIsSent(t, k, n, f);
      assert OnAirOf(Fragments(t, k, n, f), t.session) + [] == OnAirOf(Fragments(t, k, n, f), t.session);
    }
  }

  lemma {:induction false} LeadOfSuccess2(o: seq<bool>, max: nat)
    ensures AllSucceed(o) ==> Lead(o, max) == max && AllSucceed(Rest(o, max))
  {
    if AllSucceed(o) {
      LeadOfSuccess(o, max);
    }
  }
}
