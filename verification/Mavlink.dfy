/** The MAVLink stream parser of pkg/server/mavlink/mavlink.go. */
module Mavlink {
  import opened Gf256
  import opened Matrices
  import opened Packets
  import opened Streams

  const V1_MARKER: byte := 0xFE
  const V2_MARKER: byte := 0xFD
  const V1_HEADER := 6
  const V2_HEADER := 10
  const CRC_LEN := 2
  const SIGNATURE_LEN := 13

  datatype Header = Header(version: byte, payloadLen: byte, seqNo: byte, sysID: byte, compID: byte, msgID: nat,
                           incompatFlags: byte, compatFlags: byte)

  datatype Message = Message(header: Header, payload: Vec, raw: Vec)

  predicate Marked(s: Vec)
  {
    |s| >= 8 && (s[0] == V1_MARKER || s[0] == V2_MARKER)
  }

  /** The length a message announces; signed version 2 messages are longer. */
  function MessageLength(s: Vec): (len: nat)
    requires Marked(s)
    ensures len >= 8 && (s[0] == V2_MARKER ==> len >= 12)
  {
    var payloadLen: nat := s[1];
    if s[0] == V1_MARKER then V1_HEADER + payloadLen + CRC_LEN
    else V2_HEADER + payloadLen + CRC_LEN + (if s[2] % 2 == 1 then SIGNATURE_LEN else 0)
  }

  /** A complete message and nothing more. */
  predicate Whole(raw: Vec)
  {
    Marked(raw) && |raw| == MessageLength(raw)
  }

  function MessageOf(raw: Vec): Message
    requires Whole(raw)
  {
    var payloadLen: nat := raw[1];
    if raw[0] == V1_MARKER then
      Message(Header(1, raw[1], raw[2], raw[3], raw[4], raw[5], 0, 0), raw[V1_HEADER..V1_HEADER + payloadLen], raw)
    else
      var low: nat, mid: nat, high: nat := raw[7], raw[8], raw[9];
      Message(Header(2, raw[1], raw[4], raw[5], raw[6], low + 256 * mid + 65536 * high, raw[2], raw[3]),
              raw[V2_HEADER..V2_HEADER + payloadLen], raw)
  }

  // -------------------------------------------------------------- a stream in pieces

  datatype Piece = Skipped(b: byte) | Found(msg: Message)

  /** What the parser makes of a stream: bytes skipped and messages found, in order. */
  function Pieces(s: Vec): seq<Piece>
  {
    if |s| < 8 then []
    else if !Marked(s) then [Skipped(s[0])] + Pieces(s[1..])
    else if |s| < MessageLength(s) then []
    else
      HeadIsWhole(s);
      [Found(MessageOf(s[..MessageLength(s)]))] + Pieces(s[MessageLength(s)..])
  }

  /** What it keeps for later. */
  function Rest(s: Vec): Vec
  {
    if |s| < 8 then s
    else if !Marked(s) then Rest(s[1..])
    else if |s| < MessageLength(s) then s
    else Rest(s[MessageLength(s)..])
  }

  lemma {:induction false} HeadIsWhole(s: Vec)
    requires Marked(s) && |s| >= MessageLength(s)
    ensures Whole(s[..MessageLength(s)])
  {}

  function MessagesIn(pieces: seq<Piece>): seq<Message>
  {
    if pieces == [] then []
    else MessagesIn(pieces[..|pieces| - 1]) + (match pieces[|pieces| - 1] case Found(m) => [m] case Skipped(_) => [])
  }

  function BytesIn(pieces: seq<Piece>): Vec
  {
    if pieces == [] then []
    else (match pieces[0] case Found(m) => m.raw case Skipped(b) => [b]) + BytesIn(pieces[1..])
  }

  lemma {:induction false} MessagesJoin(a: seq<Piece>, b: seq<Piece>)
    ensures MessagesIn(a + b) == MessagesIn(a) + MessagesIn(b)
  {
    if b == [] {
      assert a + b == a;
    } else {
      assert (a + b)[..|a + b| - 1] == a + b[..|b| - 1];
      MessagesJoin(a, b[..|b| - 1]);
    }
  }

  /** Every byte is in a message, was skipped, or is kept: in the order they came. */
  lemma {:induction false} BytesConserved(s: Vec)
    ensures BytesIn(Pieces(s)) + Rest(s) == s
  {
    hide MessageOf, Pieces, Rest, BytesIn, MessageLength;
    PiecesUnfold(s);
    if |s| >= 8 && !Marked(s) {
      BytesConserved(s[1..]);
      FirstPiece(Skipped(s[0]), Pieces(s[1..]));
      assert s == [s[0]] + s[1..];
    } else if |s| >= 8 && |s| >= MessageLength(s) {
      var len := MessageLength(s);
      BytesConserved(s[len..]);
      RawIsAll(s[..len]);
      FirstPiece(Found(MessageOf(s[..len])), Pieces(s[len..]));
      assert s == s[..len] + s[len..];
    } else {
      NoBytes();
      assert [] + s == s;
    }
  }

  lemma {:induction false} NoBytes()
    ensures BytesIn([]) == []
  {}

  lemma {:induction false} FirstPiece(p: Piece, rest: seq<Piece>)
    ensures BytesIn([p] + rest) == (match p case Found(m) => m.raw case Skipped(b) => [b]) + BytesIn(rest)
  {
    assert ([p] + rest)[1..] == rest;
  }

  lemma {:induction false} RawIsAll(raw: Vec)
    requires Whole(raw)
    ensures MessageOf(raw).raw == raw
  {}

  /** Parsing in two steps, keeping the rest in between, is parsing at once. */
  lemma {:induction false} PiecesJoin(a: Vec, b: Vec)
    ensures Pieces(a + b) == Pieces(a) + Pieces(Rest(a) + b)
    ensures Rest(a + b) == Rest(Rest(a) + b)
  {
    hide MessageOf, MessageLength, Pieces, Rest, Marked;
    var s := a + b;
    PiecesUnfold(a);
    if |a| < 8 {
      assert [] + Pieces(s) == Pieces(s);
    } else {
      HeadKept(a, b);
      PiecesUnfold(s);
      if !Marked(a) {
        assert s[1..] == a[1..] + b;
        PiecesJoin(a[1..], b);
        assert [Skipped(a[0])] + (Pieces(a[1..]) + Pieces(Rest(a[1..]) + b)) == [Skipped(a[0])] + Pieces(a[1..]) + Pieces(Rest(a[1..]) + b);
      } else if |a| < MessageLength(a) {
        assert [] + Pieces(s) == Pieces(s);
      } else {
        var len := MessageLength(a);
        assert s[..len] == a[..len] && s[len..] == a[len..] + b;
        PiecesJoin(a[len..], b);
        HeadIsWhole(a);
        var found := [Found(MessageOf(a[..len]))];
        assert found + (Pieces(a[len..]) + Pieces(Rest(a[len..]) + b)) == found + Pieces(a[len..]) + Pieces(Rest(a[len..]) + b);
      }
    }
  }

  lemma {:induction false} HeadKept(a: Vec, b: Vec)
    requires |a| >= 8
    ensures Marked(a + b) == Marked(a) && (Marked(a) ==> MessageLength(a + b) == MessageLength(a))
    ensures (a + b)[0] == a[0]
  {}

  lemma {:induction false} PiecesUnfold(s: Vec)
    ensures |s| < 8 ==> Pieces(s) == [] && Rest(s) == s
    ensures |s| >= 8 && !Marked(s) ==> Pieces(s) == [Skipped(s[0])] + Pieces(s[1..]) && Rest(s) == Rest(s[1..])
    ensures |s| >= 8 && Marked(s) && |s| < MessageLength(s) ==> Pieces(s) == [] && Rest(s) == s
    ensures |s| >= 8 && Marked(s) && |s| >= MessageLength(s) ==>
      var len := MessageLength(s);
      Whole(s[..len]) && Pieces(s) == [Found(MessageOf(s[..len]))] + Pieces(s[len..]) && Rest(s) == Rest(s[len..])
  {
    hide MessageOf;
  }

  /** A parser fed chunk by chunk: the messages returned so far, and what it holds. */
  function Fed(chunks: seq<Vec>): (seq<Message>, Vec)
  {
    if chunks == [] then ([], [])
    else
      var (messages, pending) := Fed(chunks[..|chunks| - 1]);
      var s := pending + chunks[|chunks| - 1];
      (messages + MessagesIn(Pieces(s)), Rest(s))
  }

  /** However a stream is cut into chunks, the messages are those of the whole. */
  lemma {:induction false} ChunksDoNotMatter(chunks: seq<Vec>)
    ensures Fed(chunks) == (MessagesIn(Pieces(Joined(chunks))), Rest(Joined(chunks)))
  {
    if chunks != [] {
      var m := |chunks| - 1;
      ChunksDoNotMatter(chunks[..m]);
      var a, b := Joined(chunks[..m]), chunks[m];
      PiecesJoin(a, b);
      MessagesJoin(Pieces(a), Pieces(Rest(a) + b));
    }
  }

  function MessagesOf(raws: seq<Vec>): seq<Message>
    requires forall i :: 0 <= i < |raws| ==> Whole(raws[i])
  {
    if raws == [] then [] else MessagesOf(raws[..|raws| - 1]) + [MessageOf(raws[|raws| - 1])]
  }

  /** Messages one after the other parse back exactly. */
  lemma {:induction false} WholeMessagesParseBack(raws: seq<Vec>)
    requires forall i :: 0 <= i < |raws| ==> Whole(raws[i])
    ensures MessagesIn(Pieces(Joined(raws))) == MessagesOf(raws) && Rest(Joined(raws)) == []
  {
    hide MessageOf, Pieces, Rest, MessageLength, Marked;
    NoBytesToParse();
    if raws != [] {
      var m := |raws| - 1;
      WholeMessagesParseBack(raws[..m]);
      var a, raw := Joined(raws[..m]), raws[m];
      PiecesJoin(a, raw);
      assert [] + raw == raw;
      OneMessage(raw);
      MessagesJoin(Pieces(a), Pieces(raw));
    }
  }

  lemma {:induction false} NoBytesToParse()
    ensures Pieces([]) == [] && Rest([]) == [] && MessagesIn([]) == []
  {}

  lemma {:induction false} OneMessage(raw: Vec)
    requires Whole(raw)
    ensures Pieces(raw) == [Found(MessageOf(raw))] && Rest(raw) == [] && MessagesIn(Pieces(raw)) == [MessageOf(raw)]
  {
    assert raw[..|raw|] == raw && raw[|raw|..] == [];
    assert [Found(MessageOf(raw))][..0] == [];
  }

  // ------------------------------------------------------------------------ the parser

  class Parser {
    var buffer: Vec
    var skip: nat

    ghost predicate Valid()
      reads this
    {
      skip <= |buffer|
    }

    ghost function Pending(): Vec
      requires Valid()
      reads this
    {
      buffer[skip..]
    }

    constructor ()
      ensures Valid() && Pending() == []
    {
      buffer, skip := [], 0;
    }

    /** One round of the loop in `Parse`: a byte skipped, a message taken, or nothing until more data comes. */
    method Next() returns (found: Option<Message>, more: bool)
      requires Valid() && |Pending()| >= 8
      modifies `skip
      ensures Valid() && (more ==> skip > old(skip)) && (!more ==> skip == old(skip))
      ensures !more ==> found == None && Pieces(Pending()) == [] && Rest(Pending()) == Pending()
      ensures Rest(Pending()) == Rest(old(Pending()))
      ensures MessagesIn(Pieces(old(Pending()))) ==
        (match found case Some(m) => [m] case None => []) + MessagesIn(Pieces(Pending()))
    {
      hide MessageOf, MessageLength, Pieces, Rest, MessagesIn;
      ghost var s := Pending();
      PiecesUnfold(s);
      var version := buffer[skip];
      if version != V1_MARKER && version != V2_MARKER {
        FirstMessage(Skipped(s[0]), Pieces(s[1..]));
        assert s[1..] == buffer[skip + 1..];
        skip := skip + 1;
        return None, true;
      }
      var msgLen := AnnouncedLength();
      if |buffer| - skip < msgLen {
        assert [] + MessagesIn(Pieces(s)) == MessagesIn(Pieces(s));
        return None, false;
      }
      var raw := buffer[skip..skip + msgLen];
      assert raw == s[..msgLen] && s[msgLen..] == buffer[skip + msgLen..];
      FirstMessage(Found(MessageOf(raw)), Pieces(s[msgLen..]));
      skip := skip + msgLen;
      return Some(MessageOf(raw)), true;
    }

    /** `Parse`, with the compaction of the buffer before the new data is appended. */
    method Parse(data: Vec) returns (messages: seq<Message>)
      requires Valid()
      modifies this
      ensures Valid()
      ensures messages == MessagesIn(Pieces(old(Pending()) + data))
      ensures Pending() == Rest(old(Pending()) + data)
    {
      hide Pieces, Rest, MessagesIn, Marked;
      ghost var all := Pending() + data;
      if skip > 4096 {
        buffer, skip := buffer[skip..], 0;
      }
      buffer := buffer + data;
      messages := [];
      assert Pending() == all && [] + MessagesIn(Pieces(all)) == MessagesIn(Pieces(all));
      NoMessages();
      while |buffer| - skip >= 8
        invariant Valid() && Rest(Pending()) == Rest(all)
        invariant messages + MessagesIn(Pieces(Pending())) == MessagesIn(Pieces(all))
        decreases |buffer| - skip
      {
        var found, more := Next();
        if !more {
          return;
        }
        if found.Some? {
          messages := messages + [found.value];
        }
      }
      PiecesUnfold(Pending());
    }

    method AnnouncedLength() returns (msgLen: nat)
      requires Valid() && Marked(Pending())
      ensures msgLen == MessageLength(Pending())
    {
      var payloadLen: nat := buffer[skip + 1];
      if buffer[skip] == V1_MARKER {
        return V1_HEADER + payloadLen + CRC_LEN;
      }
      var flags := buffer[skip + 2];
      msgLen := V2_HEADER + payloadLen + CRC_LEN;
      if flags % 2 != 0 {
        msgLen := msgLen + SIGNATURE_LEN;
      }
    }

    /** `Reset` */
    method Reset()
      modifies this
      ensures Valid() && Pending() == []
    {
      buffer, skip := [], 0;
    }
  }

  lemma {:induction false} NoMessages()
    ensures MessagesIn([]) == []
  {}

  lemma {:induction false} FirstMessage(p: Piece, rest: seq<Piece>)
    ensures MessagesIn([p] + rest) == (match p case Found(m) => [m] case Skipped(_) => []) + MessagesIn(rest)
  {
    MessagesJoin([p], rest);
    assert [p][..0] == [];
  }

  /** `ParseMessage` */
  function ParseMessage(data: Vec): Option<Message>
  {
    if |data| < 8 then None
    else if data[0] == V1_MARKER then
      var payloadLen: nat := data[1];
      var msgLen := V1_HEADER + payloadLen + CRC_LEN;
      if |data| < msgLen then None
      else
        Some(Message(Header(1, data[1], data[2], data[3], data[4], data[5], 0, 0),
                     data[V1_HEADER..V1_HEADER + payloadLen], data[..msgLen]))
    else if data[0] == V2_MARKER then
      if |data| < V2_HEADER + CRC_LEN then None
      else
        var payloadLen: nat := data[1];
        var msgLen := V2_HEADER + payloadLen + CRC_LEN + (if data[2] % 2 != 0 then SIGNATURE_LEN else 0);
        if |data| < msgLen then None
        else
          var low: nat, mid: nat, high: nat := data[7], data[8], data[9];
          Some(Message(Header(2, data[1], data[4], data[5], data[6], low + 256 * mid + 65536 * high, data[2], data[3]),
                       data[V2_HEADER..V2_HEADER + payloadLen], data[..msgLen]))
    else None
  }

  /** The one-shot parser agrees with the stream parser on what the data starts with. */
  lemma {:induction false} ParsersAgree(data: Vec)
    ensures ParseMessage(data) ==
      if Pieces(data) != [] && Pieces(data)[0].Found? then Some(Pieces(data)[0].msg) else None
  {
    hide ParseMessage, MessageOf, Pieces, MessageLength;
    PiecesUnfold(data);
    ParsePrefix(data);
  }

  lemma {:induction false} ParsePrefix(data: Vec)
    ensures ParseMessage(data) ==
      if Marked(data) && |data| >= MessageLength(data) then HeadIsWhole(data); Some(MessageOf(data[..MessageLength(data)]))
      else None
  {
    if Marked(data) && |data| >= MessageLength(data) {
      var raw := data[..MessageLength(data)];
      var payloadLen: nat := data[1];
      if data[0] == V1_MARKER {
        assert raw[V1_HEADER..V1_HEADER + payloadLen] == data[V1_HEADER..V1_HEADER + payloadLen];
      } else {
        assert raw[V2_HEADER..V2_HEADER + payloadLen] == data[V2_HEADER..V2_HEADER + payloadLen];
      }
    }
  }
}
