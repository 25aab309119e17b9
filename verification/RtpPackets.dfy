/**
  RTP packets built field by field (sections 5.1 and 5.3.1 of RFC 3550), and what
  the parser makes of those that carry H.265 (section 4.4 of RFC 7798).
*/
module RtpPackets {
  import opened Gf256
  import opened Matrices
  import opened Packets
  import opened Streams
  import opened Rtp

  /** A header extension: two bytes of the sender's choice, and 32-bit words. */
  datatype Extension = Extension(id: Vec, words: Vec)

  /** `stamps` is the time stamp and the source, four bytes each. */
  datatype RtpPacket = RtpPacket(padding: bool, extension: Option<Extension>, second: byte, number: nat,
                                 stamps: Vec, sources: Vec, payload: Vec)
  {
    predicate Fits()
    {
      && number < 65536 && |stamps| == 8
      && |sources| % 4 == 0 && |sources| < 64
      && (extension.Some? ==> |extension.value.id| == 2 && |extension.value.words| % 4 == 0)
      && (extension.Some? ==> |extension.value.words| / 4 < 65536)
    }

    function Bytes(): Vec
      requires Fits()
    {
      [128 + (if padding then 32 else 0) + (if extension.Some? then 16 else 0) + |sources| / 4,
       second, number / 256, number % 256] + stamps + sources + ExtensionBytes() + payload
    }

    function ExtensionBytes(): Vec
      requires Fits()
    {
      match extension
      case None => []
      case Some(x) => x.id + [|x.words| / 4 / 256, |x.words| / 4 % 256] + x.words
    }
  }

  /** A packet is RTP if it is twelve bytes long and of version 2, and its number is in bytes 2 and 3. */
  lemma {:induction false} RtpExactly(data: Vec)
    ensures IsRtp(data) <==> |data| >= 12 && 128 <= data[0] < 192
    ensures IsRtp(data) ==> data[2] == SeqNo(data) / 256 && data[3] == SeqNo(data) % 256
  {}

  lemma {:induction false} HeaderRead(p: RtpPacket)
    requires p.Fits()
    ensures IsRtp(p.Bytes()) && SeqNo(p.Bytes()) == p.number
    ensures p.Bytes()[0] % 16 == |p.sources| / 4 && p.Bytes()[0] / 16 % 2 == (if p.extension.Some? then 1 else 0)
    ensures p.Bytes()[12 + |p.sources|..] == p.ExtensionBytes() + p.payload
    ensures |p.Bytes()| == 12 + |p.sources| + |p.ExtensionBytes()| + |p.payload|
  {
  }

  /**
    The parser finds the number and the payload of a packet. There is one exception:
    it takes the header of an extension that nothing follows for the payload.
  */
  lemma {:induction false} PayloadFound(p: RtpPacket)
    requires p.Fits()
    ensures IsRtp(p.Bytes()) && SeqNo(p.Bytes()) == p.number
    ensures PayloadIn(p.Bytes()) ==
      if |p.payload| >= 2 then Some(p.payload)
      else if p.payload == [] && p.extension.Some? && p.extension.value.words == [] then Some(p.extension.value.id + [0, 0])
      else None
  {
    hide SeqNo;
    HeaderRead(p);
    var data, offset := p.Bytes(), 12 + |p.sources|;
    if p.extension.Some? {
      var x := p.extension.value;
      var rest := data[offset..];
      assert rest[..4] == x.id + [|x.words| / 4 / 256, |x.words| / 4 % 256];
      assert data[offset + 2] == rest[2] && data[offset + 3] == rest[3];
      assert Big16(data, offset + 2) == |x.words| / 4;
      assert rest[4 + |x.words|..] == p.payload;
    }
  }

  lemma {:induction false} FlagAdded(b: byte)
    requires b / 64 == 2 && b / 16 % 2 == 0
    ensures b + 16 < 256 && (b + 16) / 64 == 2 && (b + 16) / 16 % 2 == 1 && (b + 16) % 16 == b % 16
  {}

  /** With an extension announced that is not there, up to four bytes are taken for the payload. */
  lemma {:induction false} ExtensionMissing(p: RtpPacket, rest: Vec)
    requires p.Fits() && p.extension.None? && p.payload == [] && |rest| <= 4
    ensures var header := p.Bytes(); var data := [header[0] + 16] + header[1..] + rest;
      IsRtp(data) && SeqNo(data) == p.number && PayloadIn(data) == if |rest| >= 2 then Some(rest) else None
  {
    hide RtpPacket.Bytes;
    HeaderRead(p);
    var header := p.Bytes();
    FlagAdded(header[0]);
    var data := [header[0] + 16] + header[1..] + rest;
    assert data[2] == header[2] && data[3] == header[3];
    assert data[12 + |p.sources|..] == rest;
  }

  // --------------------------------------------------------- what packets carry

  /** A NAL unit of type below 48 is put out as it is; types from 50 on give nothing. */
  lemma {:induction false} SingleUnits(f: Reassembly, p: RtpPacket)
    requires p.Fits() && |p.payload| >= 2
    ensures IsRtp(p.Bytes())
    ensures p.payload[0] % 128 < 96 ==> Step(f, p.Bytes()).1 == [p.payload]
    ensures p.payload[0] % 128 >= 100 ==> Step(f, p.Bytes()).1 == []
  {
    hide SeqNo, PayloadIn, IsRtp;
    PayloadFound(p);
  }

  /** Type 48 is two units or more, each behind its size in two bytes. */
  lemma {:induction false} UnitsTogether(f: Reassembly, p: RtpPacket, a: Vec, b: Vec)
    requires p.Fits() && 0 < |a| < 65536 && 0 < |b| < 65536
    requires |p.payload| >= 2 && p.payload[0] % 128 in {96, 97}
    requires p.payload[2..] == [|a| / 256, |a| % 256] + a + [|b| / 256, |b| % 256] + b
    ensures IsRtp(p.Bytes()) && Step(f, p.Bytes()).1 == [a, b]
  {
    hide SeqNo, PayloadIn, IsRtp, Aggregated;
    PayloadFound(p);
    var front := p.payload[..2];
    assert ApBody([b]) == [|b| / 256 % 256, |b| % 256] + b + ApBody([]);
    assert [a, b][1..] == [b];
    assert p.payload == front + ApBody([a, b]);
    assert front + ApBody([a, b]) + [] == front + ApBody([a, b]);
    AggregatedUnits(front, [a, b], []);
  }

  /** Fragment i of a NAL unit: type 49 in its place, and its own type with the start and the end bit. */
  function FragmentOf(nal: Vec, chunks: seq<Vec>, i: nat): Vec
    requires |nal| >= 2 && i < |chunks|
  {
    var kind := nal[0] % 128 / 2;
    [nal[0] - 2 * kind + 98, nal[1], kind + (if i == 0 then 128 else 0) + (if i == |chunks| - 1 then 64 else 0)]
      + chunks[i]
  }

  lemma {:induction false} FragmentIs(nal: Vec, chunks: seq<Vec>, i: nat)
    requires |nal| >= 2 && i < |chunks|
    ensures FragmentOf(nal, chunks, i) == FuPayload(nal, i == 0, i == |chunks| - 1, chunks[i])
  {
    var kind := nal[0] % 128 / 2;
    assert kind == nal[0] / 2 % 64;
    assert nal[0] - 2 * kind == nal[0] / 128 * 128 + nal[0] % 2;
  }

  function AllBytes(packets: seq<RtpPacket>): (data: seq<Vec>)
    requires forall i :: 0 <= i < |packets| ==> packets[i].Fits()
    ensures |data| == |packets|
  {
    seq(|packets|, i requires 0 <= i < |packets| => packets[i].Bytes())
  }

  /** A unit of two bytes or more, cut behind its header into two pieces or more, comes out of its packets whole. */
  lemma {:induction false} UnitInFragments(f: Reassembly, nal: Vec, chunks: seq<Vec>, packets: seq<RtpPacket>, from: nat)
    requires |nal| >= 2 && |chunks| == |packets| >= 2 && nal[2..] == Joined(chunks)
    requires forall i :: 0 <= i < |packets| ==> packets[i].Fits()
    requires forall i :: 0 <= i < |packets| ==> packets[i].number == (from + i) % 65536
    requires forall i :: 0 <= i < |packets| ==> packets[i].payload == FragmentOf(nal, chunks, i)
    ensures AllRtp(AllBytes(packets)) && Run(f, AllBytes(packets)).1 == [nal]
  {
    hide SeqNo, PayloadIn, IsRtp, FragmentOf, FuPayload, Run;
    var data := AllBytes(packets);
    forall i | 0 <= i < |packets| ensures IsRtp(data[i]) && CarriesPart(data[i], nal, chunks, from, i) {
      PayloadFound(packets[i]);
      FragmentIs(nal, chunks, i);
    }
    FragmentsGiveTheUnit(f, nal, chunks, data, from);
  }
}
