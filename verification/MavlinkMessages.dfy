/** MAVLink messages built field by field, and what the parser makes of them. */
module MavlinkMessages {
  import opened Gf256
  import opened Matrices
  import opened Mavlink

  /** A version 1 message: six bytes of header, payload, checksum. */
  lemma {:induction false} Version1Parses(seqNo: byte, sysID: byte, compID: byte, msgID: byte, payload: Vec, crc: Vec)
    requires |payload| < 256 && |crc| == 2
    ensures var raw := [0xFE, |payload|, seqNo, sysID, compID, msgID] + payload + crc;
      Whole(raw) && MessageOf(raw) == Message(Header(1, |payload|, seqNo, sysID, compID, msgID, 0, 0), payload, raw)
  {
    var raw := [0xFE, |payload|, seqNo, sysID, compID, msgID] + payload + crc;
    assert raw[6..6 + |payload|] == payload;
  }

  lemma {:induction false} Version2Whole(head: Vec, payload: Vec, tail: Vec)
    requires |head| == 10 && head[0] == 0xFD && head[1] == |payload|
    requires |tail| == if head[2] % 2 == 1 then 15 else 2
    ensures var raw := head + payload + tail; var low: nat, mid: nat, high: nat := head[7], head[8], head[9];
      Whole(raw)
      && MessageOf(raw) == Message(Header(2, head[1], head[4], head[5], head[6], low + 256 * mid + 65536 * high,
                                          head[2], head[3]), payload, raw)
  {
    var raw := head + payload + tail;
    assert raw[10..10 + |payload|] == payload;
  }

  lemma {:induction false} ThreeBytes(x: nat)
    requires x < 0x100_0000
    ensures x % 256 + 256 * (x / 256 % 256) + 65536 * (x / 65536) == x && x / 65536 < 256
  {}

  /**
    A version 2 message: ten bytes of header with a message id of three bytes, the lowest
    first, payload, checksum, and thirteen bytes of signature if the first flag says so.
  */
  lemma {:induction false} Version2Parses(incompat: byte, compat: byte, seqNo: byte, sysID: byte, compID: byte,
                                          msgID: nat, payload: Vec, crc: Vec, signature: Vec)
    requires |payload| < 256 && |crc| == 2 && msgID < 0x100_0000
    requires |signature| == if incompat % 2 == 1 then 13 else 0
    ensures var raw := [0xFD, |payload|, incompat, compat, seqNo, sysID, compID,
                        msgID % 256, msgID / 256 % 256, msgID / 65536] + payload + crc + signature;
      Whole(raw)
      && MessageOf(raw) == Message(Header(2, |payload|, seqNo, sysID, compID, msgID, incompat, compat), payload, raw)
  {
    hide Whole, MessageOf;
    ThreeBytes(msgID);
    var head := [0xFD, |payload|, incompat, compat, seqNo, sysID, compID, msgID % 256, msgID / 256 % 256, msgID / 65536];
    Version2Whole(head, payload, crc + signature);
    assert head + payload + (crc + signature) == head + payload + crc + signature;
  }

  /** Bytes that are no start marker are skipped up to the next message. */
  lemma {:induction false} NoiseIsSkipped(noise: Vec, raw: Vec)
    requires Whole(raw) && forall i :: 0 <= i < |noise| ==> noise[i] !in {0xFE, 0xFD}
    ensures MessagesIn(Pieces(noise + raw)) == [MessageOf(raw)] && Rest(noise + raw) == []
  {
    hide Pieces, Rest, MessagesIn, MessageOf, MessageLength;
    OneMessage(raw);
    if noise == [] {
      assert noise + raw == raw;
    } else {
      var s := noise + raw;
      assert s[0] == noise[0] && s[1..] == noise[1..] + raw;
      NoiseIsSkipped(noise[1..], raw);
      PiecesUnfold(s);
      FirstMessage(Skipped(s[0]), Pieces(s[1..]));
      assert [] + MessagesIn(Pieces(s[1..])) == MessagesIn(Pieces(s[1..]));
    }
  }
}
