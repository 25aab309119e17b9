/** The NAL parser of pkg/server/web/server.go as an object, for byte streams and RTP packets. */
module NalParser {
  import opened Matrices
  import opened Packets
  import opened Streams
  import opened AnnexB
  import opened Rtp

  /** `findStartCode`: -1 if there is none. */
  method FindStartCode(data: Vec) returns (r: int)
    ensures r == if FindStart(data) == |data| then -1 else FindStart(data)
  {
    hide IsStart;
    FindFacts(data, 0);
    var i := 0;
    while i + 3 <= |data|
      invariant 0 <= i <= |data| && forall j :: 0 <= j < i ==> !IsStart(data, j)
    {
      StartAt(data, i);
      if data[i] == 0 && data[i + 1] == 0 {
        if data[i + 2] == 1 {
          FindUnique(data, 0, i);
          return i;
        }
        if i + 4 <= |data| && data[i + 2] == 0 && data[i + 3] == 1 {
          FindUnique(data, 0, i);
          return i;
        }
      }
      i := i + 1;
    }
    NoneFrom(data, i);
    FindUnique(data, 0, |data|);
    return -1;
  }

  lemma {:induction false} StartAt(s: Vec, i: nat)
    requires i + 3 <= |s|
    ensures IsStart(s, i) <==> s[i] == 0 && s[i + 1] == 0 && (s[i + 2] == 1 || (i + 4 <= |s| && s[i + 2] == 0 && s[i + 3] == 1))
  {}

  lemma {:induction false} NoneFrom(s: Vec, i: nat)
    requires i + 3 > |s|
    ensures forall j :: i <= j ==> !IsStart(s, j)
  {}

  class Parser {
    var buffer: Vec
    var fuBuffer: Vec
    var fuStarted: bool
    var lastSeq: nat
    var seqStarted: bool

    /** What is known of a fragmented unit. */
    ghost function Fu(): Reassembly
      reads this
    {
      Reassembly(fuBuffer, fuStarted, if seqStarted then Some(lastSeq) else None)
    }

    /** `NewNALParser` */
    constructor ()
      ensures buffer == [] && Fu() == Reassembly([], false, None)
    {
      buffer, fuBuffer, fuStarted, lastSeq, seqStarted := [], [], false, 0, false;
    }

    /** `Parse` */
    method Parse(data: Vec) returns (nalUnits: seq<Vec>)
      modifies `buffer
      ensures nalUnits == Units(old(buffer) + data)
      ensures buffer == Limited(Kept(old(buffer) + data))
    {
      hide IsStart, FindStart, CodeLength, Units, Kept;
      buffer := buffer + data;
      ghost var all := buffer;
      nalUnits := [];
      assert [] + Units(all) == Units(all);
      while true
        invariant nalUnits + Units(buffer) == Units(all) && Kept(buffer) == Kept(all)
        decreases |buffer|
      {
        var startIdx := FindStartCode(buffer);
        if startIdx < 0 {
          NothingFound(buffer);
          if |buffer| > BUFFER_LIMIT {
            buffer := buffer[|buffer| - BUFFER_KEPT..];
          }
          break;
        }
        FromFirstStart(buffer);
        buffer := buffer[startIdx..];
        var startCodeLen := 3;
        if |buffer| >= 4 && buffer[0] == 0 && buffer[1] == 0 && buffer[2] == 0 && buffer[3] == 1 {
          startCodeLen := 4;
        }
        CodeLengthIs(buffer);
        UnitsAtStart(buffer);
        var endIdx := FindStartCode(buffer[startCodeLen..]);
        if endIdx < 0 {
          assert Limited(buffer) == buffer;
          break;
        }
        endIdx := endIdx + startCodeLen;
        nalUnits := nalUnits + [buffer[startCodeLen..endIdx]];
        buffer := buffer[endIdx..];
      }
    }

    /** `Flush` */
    method Flush() returns (nalu: Option<Vec>)
      modifies `buffer
      ensures nalu == Flushed(old(buffer)) && buffer == []
    {
      if |buffer| == 0 {
        return None;
      }
      var startIdx := FindStartCode(buffer);
      if startIdx < 0 {
        buffer := [];
        return None;
      }
      var startCodeLen := 3;
      if startIdx + 3 < |buffer| && buffer[startIdx] == 0 && buffer[startIdx + 1] == 0 && buffer[startIdx + 2] == 0
         && buffer[startIdx + 3] == 1 {
        startCodeLen := 4;
      }
      CodeLengthIs(buffer[startIdx..]);
      var naluStart := startIdx + startCodeLen;
      if naluStart >= |buffer| {
        buffer := [];
        return None;
      }
      assert buffer[startIdx..][startCodeLen..] == buffer[naluStart..];
      nalu := Some(buffer[naluStart..]);
      buffer := [];
    }

    /** The sequence check in `ParseRTP`. */
    method CheckSequence(seqNum: nat)
      modifies `fuBuffer, `fuStarted, `lastSeq, `seqStarted
      ensures Fu() == AfterSeq(old(Fu()), seqNum)
    {
      if seqStarted {
        var expectedSeq := (lastSeq + 1) % 65536;
        if seqNum != expectedSeq {
          if fuStarted {
            fuBuffer, fuStarted := [], false;
          }
        }
      }
      lastSeq, seqStarted := seqNum, true;
    }

    /** The units of an aggregation packet. */
    static method TakeAggregated(payload: Vec) returns (nalUnits: seq<Vec>)
      requires |payload| >= 2
      ensures nalUnits == Aggregated(payload, 2)
    {
      hide Big16;
      nalUnits := [];
      var pos := 2;
      assert [] + Aggregated(payload, 2) == Aggregated(payload, 2);
      while pos + 2 < |payload|
        invariant 2 <= pos && nalUnits + Aggregated(payload, pos) == Aggregated(payload, 2)
        decreases |payload| - pos
      {
        AggregatedStep(payload, pos);
        var naluSize := Big16(payload, pos);
        pos := pos + 2;
        if pos + naluSize > |payload| {
          return;
        }
        nalUnits := nalUnits + [payload[pos..pos + naluSize]];
        pos := pos + naluSize;
      }
    }

    /** A fragmentation unit. */
    method TakeFragment(payload: Vec) returns (nalUnits: seq<Vec>)
      requires |payload| >= 3
      modifies `fuBuffer, `fuStarted
      ensures (Fu(), nalUnits) == Fragment(old(Fu()), payload)
    {
      nalUnits := [];
      var fuHeader := payload[2];
      if fuHeader / 128 == 1 {
        fuBuffer := RebuiltHeader(payload) + payload[3..];
        fuStarted := true;
      } else if fuStarted {
        fuBuffer := fuBuffer + payload[3..];
        if fuHeader / 64 % 2 == 1 {
          nalUnits := [fuBuffer];
          fuBuffer, fuStarted := [], false;
        }
      }
    }

    /** `ParseRTP`: anything that is not RTP goes to the byte stream parser. */
    method ParseRTP(data: Vec) returns (nalUnits: seq<Vec>)
      modifies this
      ensures |data| < HEADER_LEN ==> nalUnits == [] && buffer == old(buffer) && Fu() == old(Fu())
      ensures |data| >= HEADER_LEN && !IsRtp(data) ==>
        nalUnits == Units(old(buffer) + data) && buffer == Limited(Kept(old(buffer) + data)) && Fu() == old(Fu())
      ensures IsRtp(data) ==> (Fu(), nalUnits) == Step(old(Fu()), data) && buffer == old(buffer)
    {
      hide Units, Kept, Limited, Fragment, Aggregated, AfterSeq;
      if |data| < HEADER_LEN {
        return [];
      }
      var version := data[0] / 64;
      if version != 2 {
        nalUnits := Parse(data);
        return;
      }
      CheckSequence(Big16(data, 2));
      var csrcCount: nat := data[0] % 16;
      var offset := HEADER_LEN + csrcCount * 4;
      if data[0] / 16 % 2 == 1 && |data| > offset + 4 {
        var extLen := Big16(data, offset + 2) * 4;
        offset := offset + 4 + extLen;
      }
      if offset >= |data| {
        return [];
      }
      var payload := data[offset..];
      if |payload| < 2 {
        return [];
      }
      var nalType := payload[0] / 2 % 64;
      if nalType <= 47 {
        nalUnits := [payload];
      } else if nalType == AP_TYPE {
        nalUnits := TakeAggregated(payload);
      } else if nalType == FU_TYPE {
        if |payload| < 3 {
          return [];
        }
        nalUnits := TakeFragment(payload);
      } else {
        nalUnits := [];
      }
    }
  }

  lemma {:induction false} CodeLengthIs(s: Vec)
    ensures CodeLength(s) == if |s| >= 4 && s[0] == 0 && s[1] == 0 && s[2] == 0 && s[3] == 1 then 4 else 3
  {}

  lemma {:induction false} AggregatedStep(payload: Vec, pos: nat)
    requires pos + 2 < |payload|
    ensures var size := Big16(payload, pos);
      Aggregated(payload, pos) ==
        if pos + 2 + size > |payload| then [] else [payload[pos + 2..pos + 2 + size]] + Aggregated(payload, pos + 2 + size)
  {}
}
