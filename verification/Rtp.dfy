/**
  H.265 over RTP as pkg/server/web/server.go takes it apart: single NAL units,
  aggregation packets and fragmentation units (sections 4.4.1 to 4.4.3 of RFC 7798).
*/
module Rtp {
  import opened Matrices
  import opened Packets
  import opened Streams

  const HEADER_LEN := 12
  const FU_TYPE := 49
  const AP_TYPE := 48

  predicate IsRtp(data: Vec)
  {
    |data| >= HEADER_LEN && data[0] / 64 == 2
  }

  function SeqNo(data: Vec): nat
    requires IsRtp(data)
  {
    Big16(data, 2)
  }

  /** Where the payload starts: behind the contributing sources and the header extension. */
  function PayloadOffset(data: Vec): nat
    requires IsRtp(data)
  {
    var sources: nat := data[0] % 16;
    var offset := HEADER_LEN + 4 * sources;
    if data[0] / 16 % 2 == 1 && |data| > offset + 4 then offset + 4 + 4 * Big16(data, offset + 2) else offset
  }

  /** The payload, if it has a NAL unit header. */
  function PayloadIn(data: Vec): Option<Vec>
    requires IsRtp(data)
  {
    var offset := PayloadOffset(data);
    if offset >= |data| || |data| - offset < 2 then None else Some(data[offset..])
  }

  function NalType(payload: Vec): nat
    requires |payload| >= 2
  {
    payload[0] / 2 % 64
  }

  predicate IsFragment(payload: Vec)
  {
    |payload| >= 3 && NalType(payload) == FU_TYPE
  }

  predicate StartBit(payload: Vec)
    requires |payload| >= 3
  {
    payload[2] / 128 == 1
  }

  predicate EndBit(payload: Vec)
    requires |payload| >= 3
  {
    payload[2] / 64 % 2 == 1
  }

  /** The NAL unit header: forbidden bit and layer from the payload header, the type from the FU header. */
  function RebuiltHeader(payload: Vec): Vec
    requires |payload| >= 3
  {
    var top, low, kind := payload[0] / 128, payload[0] % 2, payload[2] % 64;
    [top * 128 + 2 * kind + low, payload[1]]
  }

  // ------------------------------------------------------------- aggregation packets

  /** The NAL units of an aggregation packet from position pos on. */
  function Aggregated(payload: Vec, pos: nat): seq<Vec>
    decreases |payload| - pos
  {
    if pos + 2 >= |payload| then []
    else
      var size := Big16(payload, pos);
      if pos + 2 + size > |payload| then []
      else [payload[pos + 2..pos + 2 + size]] + Aggregated(payload, pos + 2 + size)
  }

  // ------------------------------------------------------------------- reassembly

  /** `fuBuffer`, `fuStarted`, and the last sequence number, if there was one. */
  datatype Reassembly = Reassembly(buf: Vec, started: bool, last: Option<nat>)

  /** A gap in the sequence numbers discards an unfinished unit. */
  function AfterSeq(f: Reassembly, seqNo: nat): Reassembly
  {
    if f.last.Some? && seqNo != (f.last.value + 1) % 65536 && f.started then Reassembly([], false, Some(seqNo))
    else f.(last := Some(seqNo))
  }

  function Fragment(f: Reassembly, payload: Vec): (Reassembly, seq<Vec>)
    requires |payload| >= 3
  {
    if StartBit(payload) then (f.(buf := RebuiltHeader(payload) + payload[3..], started := true), [])
    else if !f.started then (f, [])
    else
      var buf := f.buf + payload[3..];
      if EndBit(payload) then (f.(buf := [], started := false), [buf]) else (f.(buf := buf), [])
  }

  /** One RTP packet: the state after it, and the NAL units it completes. */
  function Step(f: Reassembly, data: Vec): (Reassembly, seq<Vec>)
    requires IsRtp(data)
  {
    var g := AfterSeq(f, SeqNo(data));
    match PayloadIn(data)
    case None => (g, [])
    case Some(payload) =>
      if NalType(payload) < AP_TYPE then (g, [payload])
      else if NalType(payload) == AP_TYPE then (g, Aggregated(payload, 2))
      else if NalType(payload) == FU_TYPE then (if |payload| < 3 then (g, []) else Fragment(g, payload))
      else (g, [])
  }

  predicate AllRtp(packets: seq<Vec>)
  {
    forall i :: 0 <= i < |packets| ==> IsRtp(packets[i])
  }

  function Run(f: Reassembly, packets: seq<Vec>): (Reassembly, seq<Vec>)
    requires AllRtp(packets)
  {
    if packets == [] then (f, [])
    else
      var (g, out) := Run(f, packets[..|packets| - 1]);
      var (h, more) := Step(g, packets[|packets| - 1]);
      (h, out + more)
  }

  // ---------------------------------------------------------- no gap inside a NAL unit

  /** The sequence numbers from packet i on have no gap. */
  predicate Gapless(packets: seq<Vec>, i: nat)
    requires AllRtp(packets)
  {
    forall j :: i < j < |packets| ==> SeqNo(packets[j]) == (SeqNo(packets[j - 1]) + 1) % 65536
  }

  predicate IsFuStart(data: Vec)
  {
    IsRtp(data) && PayloadIn(data).Some? && IsFragment(PayloadIn(data).value) && StartBit(PayloadIn(data).value)
  }

  /** What a packet adds to the unit in progress, unless it starts another. */
  function FragmentPart(data: Vec): Vec
    requires IsRtp(data)
  {
    var payload := PayloadIn(data);
    if payload.Some? && IsFragment(payload.value) then payload.value[3..] else []
  }

  /** What the fragments from a start packet on make up; packets of other kinds add nothing. */
  function Assembled(packets: seq<Vec>): Vec
    requires packets != [] && AllRtp(packets) && IsFuStart(packets[0])
  {
    var m := |packets| - 1;
    if m == 0 then RebuiltHeader(PayloadIn(packets[0]).value) + FragmentPart(packets[0])
    else Assembled(packets[..m]) + FragmentPart(packets[m])
  }

  predicate NoStartAfter(packets: seq<Vec>, i: nat)
  {
    forall j :: i < j < |packets| ==> !IsFuStart(packets[j])
  }

  /** Packet i started the unit in progress: nothing has been missed since. */
  predicate StartedAt(packets: seq<Vec>, i: nat, buf: Vec)
    requires AllRtp(packets)
  {
    && i < |packets| && IsFuStart(packets[i]) && Gapless(packets, i) && NoStartAfter(packets, i)
    && buf == Assembled(packets[i..])
  }

  lemma {:induction false} AssembledMore(packets: seq<Vec>, i: nat, p: Vec)
    requires AllRtp(packets) && IsRtp(p) && i < |packets| && IsFuStart(packets[i])
    ensures Assembled((packets + [p])[i..]) == Assembled(packets[i..]) + FragmentPart(p)
  {
    hide IsFuStart, FragmentPart, RebuiltHeader;
    var all := (packets + [p])[i..];
    assert all[..|all| - 1] == packets[i..] && all[|all| - 1] == p && all[0] == packets[i];
  }

  lemma {:induction false} GaplessMore(packets: seq<Vec>, i: nat, p: Vec)
    requires AllRtp(packets) && IsRtp(p) && i < |packets| && Gapless(packets, i)
    requires SeqNo(p) == (SeqNo(packets[|packets| - 1]) + 1) % 65536
    ensures Gapless(packets + [p], i)
  {
    hide SeqNo, IsRtp;
    var all := packets + [p];
    forall j | i < j < |all| ensures SeqNo(all[j]) == (SeqNo(all[j - 1]) + 1) % 65536 {
      assert all[j] == (if j < |packets| then packets[j] else p) && all[j - 1] == packets[j - 1];
    }
  }

  lemma {:induction false} LastSeqKept(f: Reassembly, packets: seq<Vec>)
    requires AllRtp(packets) && packets != []
    ensures Run(f, packets).0.last == Some(SeqNo(packets[|packets| - 1]))
  {
    hide Aggregated, RebuiltHeader;
  }

  /** Whenever a unit is in progress, its first packet and all that came since are known, without a gap. */
  lemma {:induction false} InProgressIsGapless(packets: seq<Vec>) returns (i: nat)
    requires AllRtp(packets) && Run(Reassembly([], false, None), packets).0.started
    ensures StartedAt(packets, i, Run(Reassembly([], false, None), packets).0.buf)
  {
    hide Aggregated, RebuiltHeader, Assembled, SeqNo, PayloadIn, StartedAt, IsRtp, IsFragment, StartBit, EndBit;
    var f0 := Reassembly([], false, None);
    var m := |packets| - 1;
    var p, before := packets[m], packets[..m];
    var f := Run(f0, before).0;
    assert before + [p] == packets;
    if IsFuStart(p) {
      i := m;
      StartedHere(packets, f, p);
    } else {
      assert f.started by {
        NotStartedByOthers(f, p);
      }
      i := InProgressIsGapless(before);
      LastSeqKept(f0, before);
      StartedStays(before, i, f, p);
    }
  }

  lemma {:induction false} StartedHere(packets: seq<Vec>, f: Reassembly, p: Vec)
    requires packets != [] && AllRtp(packets) && p == packets[|packets| - 1] && IsFuStart(p)
    ensures StartedAt(packets, |packets| - 1, Step(f, p).0.buf)
  {
    assert packets[|packets| - 1..] == [p];
  }

  lemma {:induction false} NotStartedByOthers(f: Reassembly, p: Vec)
    requires IsRtp(p) && !IsFuStart(p)
    ensures Step(f, p).0.started ==> f.started && (f.last.Some? ==> SeqNo(p) == (f.last.value + 1) % 65536)
    ensures Step(f, p).0.started ==> Step(f, p).0.buf == f.buf + FragmentPart(p)
  {
    hide Aggregated, RebuiltHeader, SeqNo, PayloadIn, NalType;
  }

  lemma {:induction false} StartedStays(before: seq<Vec>, i: nat, f: Reassembly, p: Vec)
    requires AllRtp(before) && IsRtp(p) && !IsFuStart(p) && StartedAt(before, i, f.buf)
    requires f.last == Some(SeqNo(before[|before| - 1])) && Step(f, p).0.started
    ensures StartedAt(before + [p], i, Step(f, p).0.buf)
  {
    hide Step, Assembled, Gapless, SeqNo, PayloadIn, IsFuStart, IsFragment;
    NotStartedByOthers(f, p);
    GaplessMore(before, i, p);
    AssembledMore(before, i, p);
  }

  /**
    A NAL unit put together from fragments consists of all fragments received since a
    start packet, and no sequence number is missing in between.
  */
  lemma {:induction false} AssembledUnitIsGapless(packets: seq<Vec>, p: Vec) returns (i: nat)
    requires AllRtp(packets) && IsRtp(p) && PayloadIn(p).Some? && NalType(PayloadIn(p).value) == FU_TYPE
    requires Step(Run(Reassembly([], false, None), packets).0, p).1 != []
    ensures i < |packets| && IsFuStart(packets[i]) && AllRtp(packets + [p]) && Gapless(packets + [p], i)
    ensures Step(Run(Reassembly([], false, None), packets).0, p).1 == [Assembled((packets + [p])[i..])]
  {
    hide Assembled, SeqNo, PayloadIn, IsRtp, Gapless, Run;
    var f := Run(Reassembly([], false, None), packets).0;
    i := InProgressIsGapless(packets);
    LastSeqKept(Reassembly([], false, None), packets);
    GaplessMore(packets, i, p);
    AssembledMore(packets, i, p);
  }

  // ------------------------------------------------------------------- fragmentation

  /** A fragment of a NAL unit: its header goes into the payload header and the FU header. */
  function FuPayload(nal: Vec, first: bool, last: bool, chunk: Vec): (p: Vec)
    requires |nal| >= 2
    ensures |p| == 3 + |chunk|
  {
    var top, kind, low := nal[0] / 128, nal[0] / 2 % 64, nal[0] % 2;
    [top * 128 + 2 * FU_TYPE + low, nal[1], (if first then 128 else 0) + (if last then 64 else 0) + kind] + chunk
  }

  lemma {:induction false} FuPayloadFacts(nal: Vec, first: bool, last: bool, chunk: Vec)
    requires |nal| >= 2
    ensures var p := FuPayload(nal, first, last, chunk);
      && IsFragment(p) && (StartBit(p) <==> first) && (EndBit(p) <==> last)
      && RebuiltHeader(p) == nal[..2] && p[3..] == chunk
  {
    var p := FuPayload(nal, first, last, chunk);
    var top, kind, low := nal[0] / 128, nal[0] / 2 % 64, nal[0] % 2;
    assert nal[0] == 128 * top + 2 * kind + low;
    assert p[0] / 2 == 64 * top + FU_TYPE;
    assert p[2] % 64 == kind;
  }

  predicate IsFu(data: Vec)
  {
    IsRtp(data) && PayloadIn(data).Some? && IsFragment(PayloadIn(data).value)
  }

  /** The NAL units of a packet that is no fragment. */
  function UnitsIn(data: Vec): seq<Vec>
    requires IsRtp(data)
  {
    match PayloadIn(data)
    case None => []
    case Some(payload) =>
      if NalType(payload) < AP_TYPE then [payload]
      else if NalType(payload) == AP_TYPE then Aggregated(payload, 2)
      else []
  }

  function AllUnitsIn(packets: seq<Vec>): seq<Vec>
    requires AllRtp(packets)
  {
    if packets == [] then [] else AllUnitsIn(packets[..|packets| - 1]) + UnitsIn(packets[|packets| - 1])
  }

  /** Neither start nor end of a fragmented unit. */
  predicate IsInside(data: Vec)
  {
    IsRtp(data) && (IsFu(data) ==> !StartBit(PayloadIn(data).value) && !EndBit(PayloadIn(data).value))
  }

  predicate IsFuEnd(data: Vec)
  {
    IsFu(data) && !StartBit(PayloadIn(data).value) && EndBit(PayloadIn(data).value)
  }

  /**
    A fragmented unit from its start to its end, with no sequence number missing;
    packets of other kinds may come in between.
  */
  predicate WholeUnit(packets: seq<Vec>)
  {
    && |packets| >= 2 && AllRtp(packets) && Gapless(packets, 0)
    && IsFuStart(packets[0]) && IsFuEnd(packets[|packets| - 1])
    && forall i :: 0 < i < |packets| - 1 ==> IsInside(packets[i])
  }

  /** The next packet in number while a unit is in progress. */
  lemma {:induction false} NextPacket(f: Reassembly, p: Vec)
    requires IsRtp(p) && f.started && f.last.Some? && SeqNo(p) == (f.last.value + 1) % 65536
    ensures IsInside(p) ==> Step(f, p) == (Reassembly(f.buf + FragmentPart(p), true, Some(SeqNo(p))), UnitsIn(p))
    ensures IsFuEnd(p) ==> Step(f, p) == (Reassembly([], false, Some(SeqNo(p))), [f.buf + FragmentPart(p)]) && UnitsIn(p) == []
  {
    hide Aggregated, SeqNo, PayloadIn, NalType;
    assert f.buf + [] == f.buf;
  }

  lemma {:induction false} StartPacket(f: Reassembly, p: Vec)
    requires IsFuStart(p)
    ensures AllRtp([p]) && UnitsIn(p) == []
    ensures Step(f, p) == (Reassembly(Assembled([p]), true, Some(SeqNo(p))), [])
  {
    hide Aggregated, SeqNo, PayloadIn, NalType, RebuiltHeader;
  }

  /** The first m packets: the unit so far, and what came in between. */
  lemma {:induction false} WholeUnitSoFar(f: Reassembly, packets: seq<Vec>, m: nat)
    requires WholeUnit(packets) && 1 <= m < |packets|
    ensures AllRtp(packets[..m])
    ensures Run(f, packets[..m]) ==
      (Reassembly(Assembled(packets[..m]), true, Some(SeqNo(packets[m - 1]))), AllUnitsIn(packets[..m]))
  {
    hide IsRtp, Step, SeqNo, IsFuStart, IsFuEnd, IsInside, UnitsIn, FragmentPart;
    var p := packets[m - 1];
    assert packets[..m][..m - 1] == packets[..m - 1];
    if m == 1 {
      StartPacket(f, p);
      assert packets[..1] == [p];
      RunOfOne(f, p);
    } else {
      WholeUnitSoFar(f, packets, m - 1);
      NextPacket(Run(f, packets[..m - 1]).0, p);
    }
  }

  lemma {:induction false} RunOfOne(f: Reassembly, p: Vec)
    requires IsRtp(p)
    ensures AllRtp([p]) && Run(f, [p]) == Step(f, p) && AllUnitsIn([p]) == UnitsIn(p)
  {
    hide Step, UnitsIn, IsRtp;
    var one := [p];
    assert one[..0] == [];
    assert Run(f, one[..0]) == (f, []) && AllUnitsIn(one[..0]) == [];
    assert [] + Step(f, p).1 == Step(f, p).1 && [] + UnitsIn(p) == UnitsIn(p);
  }

  /** Once its end arrives a unit is put out, whatever came before its start. */
  lemma {:induction false} WholeUnitComesOut(f: Reassembly, packets: seq<Vec>)
    requires WholeUnit(packets)
    ensures Run(f, packets) ==
      (Reassembly([], false, Some(SeqNo(packets[|packets| - 1]))), AllUnitsIn(packets) + [Assembled(packets)])
  {
    hide IsRtp, Step, SeqNo, IsFuStart, IsFuEnd, IsInside, UnitsIn, FragmentPart;
    var m := |packets| - 1;
    WholeUnitSoFar(f, packets, m);
    NextPacket(Run(f, packets[..m]).0, packets[m]);
    assert AllUnitsIn(packets) == AllUnitsIn(packets[..m]);
  }

  // ------------------------------------------------------- fragments put together again

  /** Packets with consecutive numbers that carry the fragments of a NAL unit. */
  predicate Carries(packets: seq<Vec>, nal: Vec, chunks: seq<Vec>, from: nat)
    requires |nal| >= 2
  {
    && |packets| == |chunks| && AllRtp(packets)
    && forall i :: 0 <= i < |chunks| ==> CarriesPart(packets[i], nal, chunks, from, i)
  }

  predicate CarriesPart(data: Vec, nal: Vec, chunks: seq<Vec>, from: nat, i: nat)
    requires |nal| >= 2 && i < |chunks|
  {
    && IsRtp(data) && SeqNo(data) == (from + i) % 65536
    && PayloadIn(data) == Some(FuPayload(nal, i == 0, i == |chunks| - 1, chunks[i]))
  }

  lemma {:induction false} PartFacts(data: Vec, nal: Vec, chunks: seq<Vec>, from: nat, i: nat)
    requires |nal| >= 2 && i < |chunks| && |chunks| >= 2 && CarriesPart(data, nal, chunks, from, i)
    ensures FragmentPart(data) == chunks[i] && UnitsIn(data) == []
    ensures i == 0 ==> IsFuStart(data) && RebuiltHeader(PayloadIn(data).value) == nal[..2]
    ensures 0 < i < |chunks| - 1 ==> IsInside(data)
    ensures i == |chunks| - 1 ==> IsFuEnd(data)
  {
    hide SeqNo, PayloadIn, FuPayload, RebuiltHeader, IsRtp, StartBit, EndBit, Aggregated;
    FuPayloadFacts(nal, i == 0, i == |chunks| - 1, chunks[i]);
  }

  lemma {:induction false} CarriesWholeUnit(packets: seq<Vec>, nal: Vec, chunks: seq<Vec>, from: nat)
    requires |nal| >= 2 && |chunks| >= 2 && Carries(packets, nal, chunks, from)
    ensures WholeUnit(packets)
  {
    hide CarriesPart, IsFuStart, IsFuEnd, IsInside, SeqNo, IsRtp;
    forall i | 0 <= i < |packets| ensures CarriesPart(packets[i], nal, chunks, from, i) {}
    PartFacts(packets[0], nal, chunks, from, 0);
    PartFacts(packets[|packets| - 1], nal, chunks, from, |packets| - 1);
    forall i | 0 < i < |packets| - 1 ensures IsInside(packets[i]) {
      PartFacts(packets[i], nal, chunks, from, i);
    }
    forall j | 0 < j < |packets| ensures SeqNo(packets[j]) == (SeqNo(packets[j - 1]) + 1) % 65536 {
      PartNumber(packets[j], nal, chunks, from, j);
      PartNumber(packets[j - 1], nal, chunks, from, j - 1);
      NextSeq(from, j);
    }
  }

  lemma {:induction false} PartNumber(data: Vec, nal: Vec, chunks: seq<Vec>, from: nat, i: nat)
    requires |nal| >= 2 && i < |chunks| && CarriesPart(data, nal, chunks, from, i)
    ensures IsRtp(data) && SeqNo(data) == (from + i) % 65536
  {}

  lemma {:induction false} NextSeq(from: nat, i: nat)
    requires i > 0
    ensures ((from + i - 1) % 65536 + 1) % 65536 == (from + i) % 65536
  {}

  /** What the first m packets carry. */
  lemma {:induction false} CarriedParts(packets: seq<Vec>, nal: Vec, chunks: seq<Vec>, from: nat, m: nat)
    requires |nal| >= 2 && |chunks| >= 2 && Carries(packets, nal, chunks, from) && 1 <= m <= |chunks|
    requires IsFuStart(packets[0])
    ensures AllRtp(packets[..m]) && AllUnitsIn(packets[..m]) == []
    ensures Assembled(packets[..m]) == nal[..2] + Joined(chunks[..m])
  {
    hide CarriesPart, IsFuStart, IsRtp, UnitsIn, FragmentPart, RebuiltHeader;
    assert CarriesPart(packets[m - 1], nal, chunks, from, m - 1);
    PartFacts(packets[m - 1], nal, chunks, from, m - 1);
    assert packets[..m][..m - 1] == packets[..m - 1] && chunks[..m][..m - 1] == chunks[..m - 1];
    if m == 1 {
      var p := packets[0];
      assert packets[..1] == [p] && chunks[..0] == [] && [] + chunks[0] == chunks[0];
      assert AllUnitsIn(packets[..0]) == [] && Joined(chunks[..0]) == [];
      assert Joined(chunks[..1]) == chunks[0];
    } else {
      CarriedParts(packets, nal, chunks, from, m - 1);
      assert nal[..2] + Joined(chunks[..m - 1]) + chunks[m - 1] == nal[..2] + (Joined(chunks[..m - 1]) + chunks[m - 1]);
    }
  }

  /** A NAL unit sent in two fragments or more, in any RTP packets, comes out whole, whatever came before. */
  lemma {:induction false} FragmentsGiveTheUnit(f: Reassembly, nal: Vec, chunks: seq<Vec>, packets: seq<Vec>, from: nat)
    requires |nal| >= 2 && |chunks| >= 2 && nal[2..] == Joined(chunks) && Carries(packets, nal, chunks, from)
    ensures Run(f, packets).1 == [nal] && !Run(f, packets).0.started
  {
    hide CarriesPart, IsFuStart, IsRtp, Step, Assembled, AllUnitsIn, Run;
    CarriesWholeUnit(packets, nal, chunks, from);
    WholeUnitComesOut(f, packets);
    CarriedParts(packets, nal, chunks, from, |chunks|);
    assert packets[..|chunks|] == packets && chunks[..|chunks|] == chunks;
    assert nal == nal[..2] + nal[2..];
    assert [] + [nal] == [nal];
  }

  /** A single fragment with both bits set is kept back: its unit is not put out. */
  lemma {:induction false} SingleFragmentIsKept(f: Reassembly, nal: Vec, chunk: Vec, data: Vec)
    requires |nal| >= 2 && IsRtp(data) && PayloadIn(data) == Some(FuPayload(nal, true, true, chunk))
    ensures Step(f, data).1 == [] && Step(f, data).0.started && Step(f, data).0.buf == nal[..2] + chunk
  {
    hide SeqNo, PayloadIn, FuPayload, RebuiltHeader, Aggregated, StartBit;
    FuPayloadFacts(nal, true, true, chunk);
  }

  // ---------------------------------------------------------------- aggregation packets

  function ApBody(nals: seq<Vec>): Vec
  {
    if nals == [] then [] else [|nals[0]| / 256 % 256, |nals[0]| % 256] + nals[0] + ApBody(nals[1..])
  }

  /**
    The units of an aggregation packet come apart again, whatever incomplete one follows
    them; an empty one at the very end is not seen.
  */
  lemma {:induction false} AggregatedUnits(front: Vec, nals: seq<Vec>, tail: Vec)
    requires forall i :: 0 <= i < |nals| ==> |nals[i]| < 65536
    requires |tail| >= 2 ==> |tail| < 2 + Big16(tail, 0)
    ensures Aggregated(front + ApBody(nals) + tail, |front|) ==
      if tail == [] && nals != [] && nals[|nals| - 1] == [] then nals[..|nals| - 1] else nals
    decreases |nals|
  {
    hide Big16, Aggregated;
    if nals == [] {
      assert front + ApBody(nals) + tail == front + tail;
      AggregatedTail(front, tail);
    } else {
      var nal, body := nals[0], ApBody(nals[1..]);
      var size := [|nal| / 256 % 256, |nal| % 256];
      OneUnitAhead(front, size, nal, body, tail);
      if nal == [] && body + tail == [] {
        assert nals[1..] == [];
        AggregatedTail(front, size);
      } else {
        hide ApBody;
        AggregatedOne(front, nal, body + tail);
        AggregatedUnits(front + size + nal, nals[1..], tail);
        assert nals == [nal] + nals[1..];
      }
    }
  }

  lemma {:induction false} OneUnitAhead(front: Vec, size: Vec, nal: Vec, body: Vec, tail: Vec)
    ensures front + (size + nal + body) + tail == front + size + nal + body + tail
    ensures front + (size + nal + body) + tail == front + size + nal + (body + tail)
    ensures nal == [] && body + tail == [] ==> front + (size + nal + body) + tail == front + size
  {}

  /** What is too short for its size, or has none, is nothing. */
  lemma {:induction false} AggregatedTail(front: Vec, tail: Vec)
    requires |tail| > 2 ==> |tail| < 2 + Big16(tail, 0)
    ensures Aggregated(front + tail, |front|) == []
  {
    if |tail| > 2 {
      assert (front + tail)[|front|] == tail[0] && (front + tail)[|front| + 1] == tail[1];
    }
  }

  lemma {:induction false} AggregatedOne(front: Vec, nal: Vec, rest: Vec)
    requires |nal| < 65536 && (nal != [] || rest != [])
    ensures var all := front + [|nal| / 256 % 256, |nal| % 256] + nal + rest;
      Aggregated(all, |front|) == [nal] + Aggregated(all, |front| + 2 + |nal|)
  {
    var all := front + [|nal| / 256 % 256, |nal| % 256] + nal + rest;
    assert all[|front|] == |nal| / 256 && all[|front| + 1] == |nal| % 256;
    assert Big16(all, |front|) == |nal|;
    assert all[|front| + 2..|front| + 2 + |nal|] == nal;
  }
}
