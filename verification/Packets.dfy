/** Fragments on the link: the packet header of pkg/protocol/packets.go and its payload. */
module Packets {
  import opened Gf256
  import opened Matrices

  datatype Option<+T> = None | Some(value: T)

  const PACKET_HDR_SIZE := 3
  const MAX_PAYLOAD_SIZE := 3993
  const MAX_FEC_PAYLOAD := 3996
  const FEC_ONLY: byte := 1

  /** The payload as it is sent: cut at the largest size. */
  function Cut(payload: Vec): (p: Vec)
    ensures |p| <= MAX_PAYLOAD_SIZE
  {
    if |payload| > MAX_PAYLOAD_SIZE then payload[..MAX_PAYLOAD_SIZE] else payload
  }

  /** Flags, big-endian payload size, payload. */
  function MakeFragment(flags: byte, payload: Vec): (f: Vec)
    requires |payload| <= MAX_PAYLOAD_SIZE
    ensures PACKET_HDR_SIZE <= |f| == PACKET_HDR_SIZE + |payload| <= MAX_FEC_PAYLOAD
  {
    [flags, |payload| / 256, |payload| % 256] + payload
  }

  /** The size field of a fragment that has a header. */
  function SizeField(f: Vec): nat
    requires |f| >= PACKET_HDR_SIZE
  {
    var high: nat := f[1];
    256 * high + f[2]
  }

  /** A fragment as the transmitter builds it: the size field is the size of the payload. */
  predicate WellFormed(f: Vec)
  {
    PACKET_HDR_SIZE <= |f| <= MAX_FEC_PAYLOAD && |f| == PACKET_HDR_SIZE + SizeField(f)
  }

  /** What `outputFragment` passes on for a fragment, if anything. */
  function PayloadOf(f: Vec): Option<Vec>
  {
    if |f| < PACKET_HDR_SIZE then None
    else if f[0] % 2 == FEC_ONLY then None
    else if SizeField(f) == 0 then None
    else if PACKET_HDR_SIZE + SizeField(f) > |f| then None
    else Some(f[PACKET_HDR_SIZE..PACKET_HDR_SIZE + SizeField(f)])
  }

  lemma {:induction false} MadeFragment(flags: byte, payload: Vec)
    requires |payload| <= MAX_PAYLOAD_SIZE
    ensures WellFormed(MakeFragment(flags, payload))
    ensures PayloadOf(MakeFragment(flags, payload)) ==
      if flags % 2 == 1 || payload == [] then None else Some(payload)
  {
    var f := MakeFragment(flags, payload);
    assert f[PACKET_HDR_SIZE..PACKET_HDR_SIZE + |payload|] == payload;
  }

  /** A fragment of at most 3996 bytes: flags, size in two bytes, payload, which is cut at 3993 bytes. */
  lemma {:induction false} SentFragmentAt(flags: byte, payload: Vec)
    ensures var f := MakeFragment(flags, Cut(payload)); var high: nat, low: nat := f[1], f[2];
      && f[0] == flags && 256 * high + low == |Cut(payload)| && f[3..] == Cut(payload) && |f| <= 3996
    ensures Cut(payload) == if |payload| <= 3993 then payload else payload[..3993]
    ensures MAX_FEC_PAYLOAD == 3996
  {}

  /** A payload comes out of a fragment exactly if the fragment is no padding and holds a payload of the size it says. */
  lemma {:induction false} PayloadExactly(f: Vec, p: Vec)
    ensures PayloadOf(f) == Some(p) <==>
      && 3 + |p| <= |f| && f[0] % 2 == 0 && p != []
      && f[1] == |p| / 256 && f[2] == |p| % 256 && f[3..3 + |p|] == p
  {}
}
