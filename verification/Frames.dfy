/** Frames on the air: big-endian fields, data nonces and session announcements. */
module Frames {
  import opened Gf256
  import opened Matrices
  import opened Packets
  import opened Words

  const DATA_PACKET: byte := 1
  const BLOCK_HDR_SIZE := 9
  const SESSION_HDR_SIZE := 25
  const TAG_SIZE := 16
  const BOX_MAC_SIZE := 16
  const SESSION_DATA_SIZE := 47
  const FEC_VDM_RS: byte := 1
  const BLOCK_IDX_LIMIT: nat := 0x100_0000_0000_0000

  function BigEndian(v: Vec): nat
  {
    if v == [] then 0
    else
      var last: nat := v[|v| - 1];
      256 * BigEndian(v[..|v| - 1]) + last
  }

  function BytesOf(x: nat, len: nat): (v: Vec)
    ensures |v| == len
  {
    if len == 0 then [] else BytesOf(x / 256, len - 1) + [x % 256]
  }

  lemma {:induction false} BigEndianOfBytes(x: nat, len: nat)
    requires x < Power256(len)
    ensures BigEndian(BytesOf(x, len)) == x
  {
    if len > 0 {
      BigEndianOfBytes(x / 256, len - 1);
      assert BytesOf(x, len)[..len - 1] == BytesOf(x / 256, len - 1);
    }
  }

  /** `MakeDataNonce` */
  function DataNonce(block: nat, frag: byte): nat
  {
    var f: nat := frag;
    256 * (block % BLOCK_IDX_LIMIT) + f
  }

  /** `ParseDataNonce` */
  function NonceBlock(nonce: nat): nat { nonce / 256 }

  function NonceFragment(nonce: nat): byte { nonce % 256 }

  /** Within the range of block indices the nonce gives both indices back, so no two fragments share one. */
  lemma {:induction false} NonceRoundTrip(block: nat, frag: byte)
    requires block < BLOCK_IDX_LIMIT
    ensures NonceBlock(DataNonce(block, frag)) == block && NonceFragment(DataNonce(block, frag)) == frag
    ensures DataNonce(block, frag) < Power256(8)
  {
    assert Power256(8) == 256 * BLOCK_IDX_LIMIT by {
      assert Power256(4) == 0x1_0000_0000;
      assert Power256(8) == 256 * 256 * 256 * 256 * Power256(4);
    }
  }

  /** Type, nonce, ciphertext. */
  function DataFrame(nonce: nat, sealed: Vec): Vec
  {
    [DATA_PACKET] + BytesOf(nonce, 8) + sealed
  }

  /** The nonce field of a frame that has a block header. */
  function NonceOf(frame: Vec): nat
    requires |frame| >= BLOCK_HDR_SIZE
  {
    BigEndian(frame[1..BLOCK_HDR_SIZE])
  }

  lemma {:induction false} FrameRoundTrip(block: nat, frag: byte, sealed: Vec)
    requires block < BLOCK_IDX_LIMIT
    ensures var frame := DataFrame(DataNonce(block, frag), sealed);
      && |frame| == BLOCK_HDR_SIZE + |sealed| && frame[0] == DATA_PACKET && frame[BLOCK_HDR_SIZE..] == sealed
      && NonceBlock(NonceOf(frame)) == block && NonceFragment(NonceOf(frame)) == frag
  {
    NonceRoundTrip(block, frag);
    var frame := DataFrame(DataNonce(block, frag), sealed);
    assert frame[1..BLOCK_HDR_SIZE] == BytesOf(DataNonce(block, frag), 8);
    BigEndianOfBytes(DataNonce(block, frag), 8);
  }

  datatype SessionData = SessionData(epoch: nat, channelID: nat, fecType: byte, k: byte, n: byte, key: Vec)

  /** `Marshal` of the session data. */
  function MarshalSession(d: SessionData): (v: Vec)
    requires |d.key| == 32
    ensures |v| == SESSION_DATA_SIZE
  {
    BytesOf(d.epoch, 8) + BytesOf(d.channelID, 4) + [d.fecType, d.k, d.n] + d.key
  }

  /** `UnmarshalSessionData` */
  function UnmarshalSession(v: Vec): (d: Option<SessionData>)
    ensures d.None? <==> |v| < SESSION_DATA_SIZE
    ensures d.Some? ==> |d.value.key| == 32
  {
    if |v| < SESSION_DATA_SIZE then None
    else Some(SessionData(BigEndian(v[..8]), BigEndian(v[8..12]), v[12], v[13], v[14], v[15..47]))
  }

  /** Attributes appended to the session data are ignored. */
  lemma {:induction false} SessionRoundTrip(d: SessionData, tags: Vec)
    requires |d.key| == 32 && d.epoch < Power256(8) && d.channelID < Power256(4)
    ensures UnmarshalSession(MarshalSession(d) + tags) == Some(d)
  {
    var v := MarshalSession(d) + tags;
    assert v[..8] == BytesOf(d.epoch, 8) && v[8..12] == BytesOf(d.channelID, 4) && v[15..47] == d.key;
    BigEndianOfBytes(d.epoch, 8);
    BigEndianOfBytes(d.channelID, 4);
  }

  // ------------------------------------------------------------- byte by byte

  /** Big-endian: byte i of len has the weight of the bytes behind it. */
  lemma {:induction false} BytesOfAt(x: nat, len: nat, i: nat)
    requires i < len
    ensures BytesOf(x, len)[i] == x / Power256(len - 1 - i) % 256
  {
    if i < len - 1 {
      BytesOfAt(x / 256, len - 1, i);
      DivideTwice(x, 256, Power256(len - 2 - i));
    }
  }

  lemma {:induction false} BytesOfBigEndian(v: Vec)
    ensures BytesOf(BigEndian(v), |v|) == v && BigEndian(v) < Power256(|v|)
  {
    if v != [] {
      var m := |v| - 1;
      BytesOfBigEndian(v[..m]);
      assert v == v[..m] + [v[m]];
    }
  }

  lemma {:induction false} NonceAt(nonce: nat, block: nat, frag: byte, i: nat)
    requires i < 7 && nonce / 256 == block && nonce % 256 == frag
    ensures BytesOf(nonce, 8)[i] == block / Power256(6 - i) % 256 && BytesOf(nonce, 8)[7] == frag
  {
    hide BytesOf;
    BytesOfAt(nonce, 8, i);
    BytesOfAt(nonce, 8, 7);
    assert Power256(7 - i) == 256 * Power256(6 - i);
    DivideTwice(nonce, 256, Power256(6 - i));
    assert Power256(0) == 1;
  }

  /** A frame of data: 1, the block index in seven bytes, the fragment index, ciphertext. */
  lemma {:induction false} FrameAt(block: nat, frag: byte, sealed: Vec, i: nat)
    requires block < 0x100_0000_0000_0000 && i < 7
    ensures var frame := DataFrame(DataNonce(block, frag), sealed);
      && |frame| == 9 + |sealed| && frame[0] == 1 && frame[1 + i] == block / Power256(6 - i) % 256
      && frame[8] == frag && frame[9..] == sealed
  {
    hide BytesOf, DataNonce, Power256;
    NonceRoundTrip(block, frag);
    NonceAt(DataNonce(block, frag), block, frag, i);
  }

  /** Session data: epoch, channel, code, k, n and key, the numbers in big-endian bytes. */
  lemma {:induction false} SessionAt(d: SessionData, i: nat)
    requires |d.key| == 32 && i < 47
    ensures |MarshalSession(d)| == 47
    ensures MarshalSession(d)[i] ==
      if i < 8 then d.epoch / Power256(7 - i) % 256
      else if i < 12 then d.channelID / Power256(11 - i) % 256
      else if i == 12 then d.fecType
      else if i == 13 then d.k
      else if i == 14 then d.n
      else d.key[i - 15]
  {
    hide BytesOf;
    if i < 8 {
      BytesOfAt(d.epoch, 8, i);
    } else if i < 12 {
      BytesOfAt(d.channelID, 4, i - 8);
    }
  }

  /** What unmarshals at all is marshalled session data with something behind it. */
  lemma {:induction false} UnmarshalledIsMarshalled(v: Vec)
    requires UnmarshalSession(v).Some?
    ensures var d := UnmarshalSession(v).value;
      d.epoch < Power256(8) && d.channelID < Power256(4) && v == MarshalSession(d) + v[47..]
  {
    hide BytesOf, BigEndian;
    BytesOfBigEndian(v[..8]);
    BytesOfBigEndian(v[8..12]);
    assert v == v[..8] + v[8..12] + [v[12], v[13], v[14]] + v[15..47] + v[47..];
  }
}
