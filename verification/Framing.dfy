/**
  Length framing: the packet aggregator of pkg/server/util/aggregator.go, and the
  unpacking in pkg/server/service_stream_rx.go.
*/
module Framing {
  import opened Matrices
  import opened Streams

  /** Two bytes of length, cut to 16 bits, and the packet. */
  function Framed(p: Vec): (f: Vec)
    ensures |f| == |p| + 2
  {
    [|p| / 256 % 256, |p| % 256] + p
  }

  function FramedAll(packets: seq<Vec>): Vec
  {
    if packets == [] then [] else FramedAll(packets[..|packets| - 1]) + Framed(packets[|packets| - 1])
  }

  /** The packets in a framed buffer, from position i on; a truncated frame ends them. */
  function UnpackedFrom(data: Vec, i: nat): seq<Vec>
    requires i <= |data|
    decreases |data| - i
  {
    if |data| - i < 2 then []
    else
      var len := Big16(data, i);
      if len == 0 then UnpackedFrom(data, i + 2)
      else if |data| - (i + 2) < len then []
      else [data[i + 2..i + 2 + len]] + UnpackedFrom(data, i + 2 + len)
  }

  function Unpacked(data: Vec): seq<Vec>
  {
    UnpackedFrom(data, 0)
  }

  /** Empty packets are framed, but not unpacked. */
  function NonEmpty(packets: seq<Vec>): seq<Vec>
  {
    if packets == [] then []
    else NonEmpty(packets[..|packets| - 1]) + (if packets[|packets| - 1] == [] then [] else [packets[|packets| - 1]])
  }

  predicate Short(packets: seq<Vec>)
  {
    forall i :: 0 <= i < |packets| ==> |packets[i]| < 65536
  }

  lemma {:induction false} LengthOfFrame(p: Vec, rest: Vec)
    ensures Big16(Framed(p) + rest, 0) == |p| % 65536
  {
    var data := Framed(p) + rest;
    assert data[0] == |p| / 256 % 256 && data[1] == |p| % 256;
    assert |p| == 65536 * (|p| / 256 / 256) + (256 * (|p| / 256 % 256) + |p| % 256);
  }

  lemma {:induction false} UnpackedShift(front: Vec, data: Vec, i: nat)
    requires i <= |data|
    ensures UnpackedFrom(front + data, |front| + i) == UnpackedFrom(data, i)
    decreases |data| - i
  {
    hide Big16, UnpackedFrom;
    var all, j := front + data, |front| + i;
    UnpackStep(data, i);
    UnpackStep(all, j);
    if |data| - i >= 2 {
      var len := Big16(data, i);
      SameLength(front, data, i);
      if len == 0 {
        UnpackedShift(front, data, i + 2);
      } else if |data| - (i + 2) >= len {
        assert all[j + 2..j + 2 + len] == data[i + 2..i + 2 + len];
        UnpackedShift(front, data, i + 2 + len);
      }
    }
  }

  lemma {:induction false} SameLength(front: Vec, data: Vec, i: nat)
    requires i + 2 <= |data|
    ensures Big16(front + data, |front| + i) == Big16(data, i)
  {
    var all, j := front + data, |front| + i;
    assert all[j] == data[i] && all[j + 1] == data[i + 1];
  }

  /** A frame byte by byte. */
  lemma {:induction false} FrameAt(p: Vec)
    ensures var high: nat, low: nat := Framed(p)[0], Framed(p)[1];
      256 * high + low == |p| % 65536 && Framed(p)[2..] == p
  {
    LengthOfFrame(p, []);
    assert Framed(p) + [] == Framed(p);
  }

  /** The first frame of a buffer. */
  lemma {:induction false} UnpackedFrame(p: Vec, rest: Vec)
    requires |p| < 65536
    ensures Unpacked(Framed(p) + rest) == (if p == [] then [] else [p]) + Unpacked(rest)
  {
    var data := Framed(p) + rest;
    LengthOfFrame(p, rest);
    UnpackedShift(Framed(p), rest, 0);
    assert data[2..2 + |p|] == p;
    if p == [] {
      assert [] + Unpacked(rest) == Unpacked(rest);
    }
  }

  lemma {:induction false} FramedAllJoin(a: seq<Vec>, b: seq<Vec>)
    ensures FramedAll(a + b) == FramedAll(a) + FramedAll(b)
    ensures NonEmpty(a + b) == NonEmpty(a) + NonEmpty(b)
  {
    hide Framed;
    if b == [] {
      assert a + b == a;
    } else {
      var m := |b| - 1;
      assert (a + b)[..|a + b| - 1] == a + b[..m] && (a + b)[|a + b| - 1] == b[m];
      FramedAllJoin(a, b[..m]);
    }
  }

  /** Unpacking what was framed gives the packets back, without the empty ones. */
  lemma {:induction false} FramingRoundTrip(packets: seq<Vec>)
    requires Short(packets)
    ensures Unpacked(FramedAll(packets)) == NonEmpty(packets)
  {
    if packets != [] {
      var p, rest := packets[0], packets[1..];
      assert packets == [p] + rest;
      FramingRoundTrip(rest);
      FramedAllJoin([p], rest);
      OneFramed(p);
      UnpackedFrame(p, FramedAll(rest));
    }
  }

  lemma {:induction false} CutFrame(p: Vec, m: nat)
    requires |p| < 65536 && m < |p| + 2
    ensures Unpacked(Framed(p)[..m]) == []
  {
    var cut := Framed(p)[..m];
    if m >= 2 {
      LengthOfFrame(p, []);
      assert Framed(p) + [] == Framed(p);
      assert Big16(cut, 0) == |p|;
    }
  }

  /** A frame cut short gives nothing, and does no harm to those before it. */
  lemma {:induction false} CutFrameIsDropped(packets: seq<Vec>, p: Vec, m: nat)
    requires Short(packets) && |p| < 65536 && m < |p| + 2
    ensures Unpacked(FramedAll(packets) + Framed(p)[..m]) == NonEmpty(packets)
  {
    hide Unpacked, Framed;
    var cut := Framed(p)[..m];
    if packets == [] {
      CutFrame(p, m);
      assert FramedAll(packets) + cut == cut;
    } else {
      hide FramedAll;
      var q, rest := packets[0], packets[1..];
      assert packets == [q] + rest;
      CutFrameIsDropped(rest, p, m);
      FramedAllJoin([q], rest);
      OneFramed(q);
      UnpackedFrame(q, FramedAll(rest) + cut);
      assert Framed(q) + FramedAll(rest) + cut == Framed(q) + (FramedAll(rest) + cut);
    }
  }

  lemma {:induction false} OneFramed(p: Vec)
    ensures FramedAll([p]) == Framed(p) && NonEmpty([p]) == if p == [] then [] else [p]
  {
    assert [p][..0] == [];
  }

  /**
    Exactly the packets below 65536 bytes survive: a longer one announces its length
    modulo 65536 and comes back as something else.
  */
  lemma {:induction false} OnlyShortPacketsSurvive(p: Vec)
    ensures Unpacked(FramedAll([p])) == NonEmpty([p]) <==> |p| < 65536
  {
    OneFramed(p);
    if |p| < 65536 {
      assert Short([p]);
      FramingRoundTrip([p]);
    } else {
      FirstIsShort(Framed(p), 0);
    }
  }

  /** What is unpacked is at most 65535 bytes. */
  lemma {:induction false} FirstIsShort(data: Vec, i: nat)
    requires i <= |data|
    ensures UnpackedFrom(data, i) != [] ==> |UnpackedFrom(data, i)[0]| < 65536
    decreases |data| - i
  {
    if |data| - i >= 2 && Big16(data, i) == 0 {
      FirstIsShort(data, i + 2);
    }
  }

  // ------------------------------------------------------------------------ unpacking

  /** `unpackFramedPackets`; the peer takes packets until an attempt to write fails. */
  method UnpackFramedPackets(data: Vec, outcomes: seq<bool>) returns (written: seq<Vec>, ok: bool)
    ensures |written| <= |Unpacked(data)| && written == Unpacked(data)[..|written|]
    ensures ok ==> written == Unpacked(data)
    ensures !ok ==> |written| < |Unpacked(data)| && |written| < |outcomes| && !outcomes[|written|]
    ensures (forall i :: 0 <= i < |outcomes| ==> outcomes[i]) ==> ok
  {
    hide Big16, UnpackedFrom;
    var i := 0;
    written := [];
    assert Unpacked(data) == [] + UnpackedFrom(data, 0);
    while i < |data|
      invariant i <= |data| && Unpacked(data) == written + UnpackedFrom(data, i)
    {
      UnpackStep(data, i);
      if |data| - i < 2 {
        break;
      }
      var pktLen := Big16(data, i);
      i := i + 2;
      if pktLen == 0 {
        continue;
      }
      if |data| - i < pktLen {
        i := i - 2;
        break;
      }
      if |written| < |outcomes| && !outcomes[|written|] {
        return written, false;
      }
      written := written + [data[i..i + pktLen]];
      i := i + pktLen;
    }
    UnpackStep(data, i);
    ok := true;
  }

  lemma {:induction false} UnpackStep(data: Vec, i: nat)
    requires i <= |data|
    ensures UnpackedFrom(data, i) ==
      if |data| - i < 2 then []
      else
        var len := Big16(data, i);
        if len == 0 then UnpackedFrom(data, i + 2)
        else if |data| - (i + 2) < len then []
        else [data[i + 2..i + 2 + len]] + UnpackedFrom(data, i + 2 + len)
  {}

  // ---------------------------------------------------------------------- aggregating

  /** What a batch of packets is sent as. */
  function Payload(useFrames: bool, packets: seq<Vec>): Vec
  {
    if useFrames then FramedAll(packets) else Joined(packets)
  }

  lemma {:induction false} PayloadGrows(useFrames: bool, packets: seq<Vec>, p: Vec)
    ensures Payload(useFrames, packets + [p]) == Payload(useFrames, packets) + (if useFrames then Framed(p) else p)
  {
    assert (packets + [p])[..|packets|] == packets;
  }

  lemma {:induction false} PayloadOfNone(useFrames: bool)
    ensures Payload(useFrames, []) == []
  {}

  lemma {:induction false} ShortMore(packets: seq<Vec>, p: Vec)
    ensures Short(packets) && |p| < 65536 ==> Short(packets + [p])
  {}

  predicate SizesWithin(sent: seq<Vec>, maxSize: nat)
  {
    forall i :: 0 <= i < |sent| ==> 0 < |sent[i]| <= maxSize
  }

  class PacketAggregator {
    const maxSize: nat
    const useFrames: bool
    const timeout: bool
    var buffer: Vec
    var packets: seq<Vec>
    var size: nat
    /** Whether `timer` is set; it may have run out. */
    var timer: bool
    var stopped: bool
    /** The buffers passed to `flushFn`. */
    var sent: seq<Vec>
    /** Every packet accepted, and how many of them have been flushed. */
    ghost var added: seq<Vec>
    ghost var flushed: nat
    /** Whether the timer is running, and whether it ran out with nothing pending since the last flush. */
    ghost var running: bool
    ghost var idle: bool

    /** What is pending waits for a running timer, exactly unless that has run out while nothing was pending. */
    ghost predicate Timed()
      reads this
    {
      && (running || idle ==> timer) && (timer ==> timeout) && (timeout && size > 0 ==> timer)
      && (!stopped && timer ==> (running <==> !idle))
      && (useFrames ==> !idle && (timer ==> size > 0))
    }

    ghost predicate Valid()
      reads this
    {
      && Timed()
      && flushed <= |added|
      && (if useFrames then packets == added[flushed..] && buffer == [] else packets == [] && buffer == Payload(false, added[flushed..]))
      && size == |Payload(useFrames, added[flushed..])| <= maxSize
      && Joined(sent) == Payload(useFrames, added[..flushed])
      && SizesWithin(sent, maxSize)
      && (useFrames && maxSize <= 65537 ==> Short(added) && UnpackedSent() == NonEmpty(added[..flushed]))
    }

    /** What a receiver unpacks from the buffers sent. */
    ghost function UnpackedSent(): seq<Vec>
      reads this
    {
      UnpackedAll(sent)
    }

    /** `NewPacketAggregator` */
    constructor (maxSize: nat, useFrames: bool, timeout: bool)
      ensures Valid() && added == [] && sent == [] && !stopped && size == 0
      ensures this.maxSize == maxSize && this.useFrames == useFrames && this.timeout == timeout && !timer && !idle
    {
      this.maxSize, this.useFrames, this.timeout := maxSize, useFrames, timeout;
      buffer, packets, size, timer, stopped, sent := [], [], 0, false, false, [];
      added, flushed := [], 0;
      running, idle := false, false;
    }

    /** `flushLocked`: everything pending goes out as one buffer. */
    method FlushLocked()
      requires Valid()
      modifies this
      ensures Valid() && added == old(added) && size == 0 && stopped == old(stopped)
      ensures old(size) == 0 ==> sent == old(sent) && flushed == old(flushed) && unchanged(`timer, `running, `idle)
      ensures old(size) > 0 ==> !timer && !running && !idle
      ensures old(size) > 0 ==> flushed == |added| && sent == old(sent) + [Payload(useFrames, old(added[flushed..]))]
    {
      hide FramedAll, Joined, NonEmpty, Unpacked;
      if size == 0 {
        return;
      }
      timer, running, idle := false, false, false;
      NothingFramed();
      assert packets[..0] == [];
      var data := buffer;
      if useFrames {
        data := [];
        for i := 0 to |packets|
          modifies {}
          invariant data == FramedAll(packets[..i])
        {
          NextFrame(packets, i);
          data := data + Framed(packets[i]);
        }
        assert packets[..|packets|] == packets;
        packets := [];
      } else {
        buffer := [];
      }
      size := 0;
      Sending(useFrames, sent, added, flushed, data);
      if |data| > 0 {
        sent := sent + [data];
      }
      flushed := |added|;
    }

    /** `Add`: false if it was stopped or the packet can never fit. */
    method Add(data: Vec) returns (ok: bool)
      requires Valid()
      modifies this
      ensures Valid() && stopped == old(stopped)
      ensures ok <==> !old(stopped) && |data| + (if useFrames then 2 else 0) <= maxSize
      ensures added == if ok then old(added) + [data] else old(added)
      ensures !ok ==> unchanged(this)
      ensures ok ==> size == (if sent == old(sent) then old(size) else 0) + |data| + (if useFrames then 2 else 0)
      ensures ok && timeout ==> timer && running == (old(running) || !old(timer) || sent != old(sent))
      ensures old(size) + |data| + (if useFrames then 2 else 0) <= maxSize ==> sent == old(sent)
    {
      hide FramedAll, Joined, NonEmpty, UnpackedAll, Payload, Short, SizesWithin;
      if stopped {
        return false;
      }
      var packetSize := |data| + if useFrames then 2 else 0;
      if packetSize > maxSize {
        return false;
      }
      if size + packetSize > maxSize {
        FlushLocked();
      }
      PayloadGrows(useFrames, added[flushed..], data);
      PayloadOfNone(useFrames);
      ShortMore(added, data);
      assert (added + [data])[flushed..] == added[flushed..] + [data] && (added + [data])[..flushed] == added[..flushed];
      if useFrames {
        packets, size := packets + [data], size + packetSize;
      } else {
        buffer, size := buffer + data, size + |data|;
      }
      added := added + [data];
      if !timer && timeout {
        timer := true;
        running := true;
      }
      ok := true;
    }

    /** `Flush`: also after `Stop`. */
    method Flush()
      requires Valid()
      modifies this
      ensures Valid() && added == old(added) && size == 0 && stopped == old(stopped)
      ensures Joined(sent) == Payload(useFrames, added)
    {
      hide FramedAll, Joined, NonEmpty, UnpackedAll, Payload, Short, SizesWithin;
      FlushLocked();
      NothingPending(useFrames, added, flushed);
      assert added[..|added|] == added;
    }

    /** The flush timer, the running one or one that was stopped too late: nothing after `Stop`. */
    method Expire(ghost current: bool)
      requires Valid() && (current ==> running)
      modifies this
      ensures Valid() && added == old(added) && stopped == old(stopped)
      ensures if old(stopped) then sent == old(sent) && size == old(size) else size == 0
      ensures !old(stopped) && old(size) == 0 ==>
        && sent == old(sent) && timer == old(timer) && (running <==> old(running) && !current)
        && (idle <==> old(idle) || current)
    {
      ghost var pending := size > 0;
      if !stopped {
        FlushLocked();
      }
      if current {
        running := false;
        idle := idle || (!stopped && !pending);
      }
    }

    /** `Stop`: nothing stays behind. */
    method Stop()
      requires Valid()
      modifies this
      ensures Valid() && added == old(added) && stopped && size == 0
      ensures Joined(sent) == Payload(useFrames, added)
      ensures useFrames && maxSize <= 65537 ==> UnpackedSent() == NonEmpty(added)
    {
      hide FramedAll, Joined, NonEmpty, UnpackedAll, Payload, Short, SizesWithin;
      stopped := true;
      FlushLocked();
      NothingPending(useFrames, added, flushed);
      assert added[..|added|] == added;
    }
  }

  /**
    With a timeout what is pending has a running timer if and only if none ran out while
    nothing was pending; with framing it always has.
  */
  lemma {:induction false} PendingHasTimer(a: PacketAggregator)
    requires a.Valid() && a.timeout && !a.stopped && a.size > 0
    ensures a.running <==> !a.idle
    ensures a.useFrames ==> a.running
  {}

  /** An empty packet without framing starts a timer that flushes nothing; the next packet gets none. */
  method PacketWithoutTimer(maxSize: nat, p: Vec) returns (a: PacketAggregator)
    requires 0 < |p| <= maxSize
    ensures fresh(a) && a.Valid() && a.timeout && !a.stopped
    ensures a.added == [[], p] && a.sent == [] && a.size == |p| && !a.running
  {
    hide PacketAggregator.Valid;
    a := new PacketAggregator(maxSize, false, true);
    var ok := a.Add([]);
    assert a.size == 0 && a.running;
    a.Expire(true);
    ok := a.Add(p);
  }

  function UnpackedAll(sent: seq<Vec>): seq<Vec>
  {
    if sent == [] then [] else UnpackedAll(sent[..|sent| - 1]) + Unpacked(sent[|sent| - 1])
  }

  lemma {:induction false} NothingFramed()
    ensures FramedAll([]) == [] && Joined([]) == [] && NonEmpty([]) == []
  {}

  lemma {:induction false} NextFrame(packets: seq<Vec>, i: nat)
    requires i < |packets|
    ensures FramedAll(packets[..i + 1]) == FramedAll(packets[..i]) + Framed(packets[i])
  {
    assert packets[..i + 1][..i] == packets[..i];
  }

  /** One more buffer sent accounts for everything pending. */
  lemma {:induction false} Sending(useFrames: bool, sent: seq<Vec>, added: seq<Vec>, flushed: nat, data: Vec)
    requires flushed <= |added| && data == Payload(useFrames, added[flushed..])
    requires Joined(sent) == Payload(useFrames, added[..flushed])
    ensures added[..|added|] == added && added[|added|..] == []
    ensures Joined(sent + [data]) == Payload(useFrames, added)
    ensures useFrames && Short(added) && UnpackedAll(sent) == NonEmpty(added[..flushed]) ==>
      UnpackedAll(sent + [data]) == NonEmpty(added)
  {
    hide Unpacked;
    var a, b := added[..flushed], added[flushed..];
    assert added == a + b && (sent + [data])[..|sent|] == sent;
    FramedAllJoin(a, b);
    JoinedJoin(a, b);
    if Short(added) {
      assert Short(b);
      FramingRoundTrip(b);
    }
  }

  /** With a size of 0 nothing but empty packets is pending, and in framed mode nothing at all. */
  lemma {:induction false} NothingPending(useFrames: bool, added: seq<Vec>, flushed: nat)
    requires flushed <= |added| && |Payload(useFrames, added[flushed..])| == 0
    ensures Payload(useFrames, added) == Payload(useFrames, added[..flushed])
    ensures useFrames ==> flushed == |added|
  {
    assert added == added[..flushed] + added[flushed..];
    FramedAllJoin(added[..flushed], added[flushed..]);
    JoinedJoin(added[..flushed], added[flushed..]);
  }
}
