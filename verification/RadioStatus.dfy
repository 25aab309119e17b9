/** The RADIO_STATUS messages of pkg/server/mavlink/mavlink.go. */
module RadioStatus {
  import opened Gf256
  import opened Matrices
  import opened Packets
  import opened Words
  import opened Mavlink
  import Crc

  const RADIO_STATUS_ID := 109
  const CRC_EXTRA: byte := 185
  const PAYLOAD_LEN := 9

  class Builder {
    const sysID: byte
    const compID: byte
    var seqNo: byte

    constructor (sysID: byte, compID: byte)
      ensures this.sysID == sysID && this.compID == compID && seqNo == 0
    {
      this.sysID, this.compID, seqNo := sysID, compID, 0;
    }

    /** `Build`: a message both parsers take, with the values given and the checksum of the definition. */
    method Build(rssi: byte, remrssi: byte, txbuf: byte, noise: byte, remnoise: byte, rxerrors: nat, corrected: nat)
      returns (msg: array<byte>)
      requires rxerrors < 65536 && corrected < 65536
      modifies this
      ensures fresh(msg) && Whole(msg[..]) && ParseMessage(msg[..]) == Some(MessageOf(msg[..]))
      ensures var m := MessageOf(msg[..]);
        && m.header == Header(2, 9, old(seqNo), sysID, compID, 109, 0, 0)
        && m.payload == LowBytes(rxerrors, 2) + LowBytes(corrected, 2) + [rssi, remrssi, txbuf, noise, remnoise]
      ensures msg[19..] == LowBytes(Crc.Checksum(0xFFFF, msg[1..19] + [185]), 2)
      ensures seqNo == if old(seqNo) == 255 then 0 else old(seqNo) + 1
    {
      hide Crc.Checksum, LowBytes, Whole, ParseMessage, MessageOf;
      msg := new byte[V2_HEADER + PAYLOAD_LEN + CRC_LEN](_ => 0);
      ghost var header := [V2_MARKER, 9, 0, 0, seqNo, sysID, compID, 109, 0, 0];
      ghost var payload := LowBytes(rxerrors, 2) + LowBytes(corrected, 2) + [rssi, remrssi, txbuf, noise, remnoise];
      FillHeader(msg);
      PutUint16(msg, 10, rxerrors);
      assert msg[..12] == msg[..10] + msg[10..12];
      PutUint16(msg, 12, corrected);
      assert msg[..14] == msg[..12] + msg[12..14];
      FillValues(msg, rssi, remrssi, txbuf, noise, remnoise);
      assert msg[..19] == msg[..14] + msg[14..19];
      assert msg[..19] == header + payload;
      var crc := Checksummed(msg);
      ghost var covered := msg[1..19] + [CRC_EXTRA];
      PutUint16(msg, 19, crc);
      assert msg[1..19] + [CRC_EXTRA] == covered;
      BuiltIsWhole(msg[..], header, payload);
      seqNo := if seqNo == 255 then 0 else seqNo + 1;
    }

    /** `binary.LittleEndian.PutUint16` */
    static method PutUint16(msg: array<byte>, at: nat, x: nat)
      requires at + 2 <= msg.Length && x < 65536
      modifies msg
      ensures msg[..at] == old(msg[..at]) && msg[at + 2..] == old(msg[at + 2..]) && msg[at..at + 2] == LowBytes(x, 2)
    {
      TwoLowBytes(x);
      msg[at], msg[at + 1] := x % 256, x / 256;
    }

    static method FillValues(msg: array<byte>, rssi: byte, remrssi: byte, txbuf: byte, noise: byte, remnoise: byte)
      requires msg.Length == 21
      modifies msg
      ensures msg[..14] == old(msg[..14]) && msg[14..19] == [rssi, remrssi, txbuf, noise, remnoise]
    {
      msg[14], msg[15], msg[16], msg[17], msg[18] := rssi, remrssi, txbuf, noise, remnoise;
    }

    method FillHeader(msg: array<byte>)
      requires msg.Length == 21
      modifies msg
      ensures msg[..10] == [V2_MARKER, 9, 0, 0, seqNo, sysID, compID, 109, 0, 0]
    {
      msg[0], msg[1], msg[2], msg[3] := V2_MARKER, PAYLOAD_LEN, 0, 0;
      msg[4], msg[5], msg[6] := seqNo, sysID, compID;
      msg[7], msg[8], msg[9] := RADIO_STATUS_ID % 256, RADIO_STATUS_ID / 256 % 256, RADIO_STATUS_ID / 65536 % 256;
    }

    /** Everything but the marker, and the extra byte of the message type. */
    static method Checksummed(msg: array<byte>) returns (crc: nat)
      requires msg.Length == 21
      ensures crc == Crc.Checksum(0xFFFF, msg[1..19] + [CRC_EXTRA]) < 65536
    {
      hide Crc.Checksum;
      var c := new Crc.Accumulator();
      c.Accumulate(msg[1..19]);
      c.Accumulate([CRC_EXTRA]);
      Crc.ChecksumJoin(0xFFFF, msg[1..19], [CRC_EXTRA]);
      crc := c.crc;
    }
  }

  lemma {:induction false} TwoLowBytes(x: nat)
    requires x < 65536
    ensures LowBytes(x, 2) == [x % 256, x / 256]
  {
    assert LowBytes(x / 256 / 256, 0) == [];
    assert LowBytes(x / 256, 1) == [x / 256];
  }

  lemma {:induction false} BuiltIsWhole(raw: Vec, header: Vec, payload: Vec)
    requires |raw| == 21 && |header| == 10 && |payload| == 9 && raw[..19] == header + payload
    requires header[0] == V2_MARKER && header[1] == 9 && header[2] == 0
    ensures Whole(raw) && ParseMessage(raw) == Some(MessageOf(raw))
    ensures var low: nat, mid: nat, high: nat := header[7], header[8], header[9];
      MessageOf(raw).header == Header(2, 9, header[4], header[5], header[6], low + 256 * mid + 65536 * high, 0, header[3])
    ensures MessageOf(raw).payload == payload
  {
    forall i | 0 <= i < 19 ensures raw[i] == (header + payload)[i] {
      assert raw[..19][i] == raw[i];
    }
    assert raw[..21] == raw;
    assert raw[10..19] == payload;
  }
}
