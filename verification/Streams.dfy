/** Byte streams in pieces, and 16-bit numbers in them. */
module Streams {
  import opened Matrices

  /** The pieces of a stream, put together. */
  function Joined(chunks: seq<Vec>): Vec
  {
    if chunks == [] then [] else Joined(chunks[..|chunks| - 1]) + chunks[|chunks| - 1]
  }

  lemma {:induction false} JoinedJoin(a: seq<Vec>, b: seq<Vec>)
    ensures Joined(a + b) == Joined(a) + Joined(b)
  {
    if b == [] {
      assert a + b == a;
    } else {
      assert (a + b)[..|a + b| - 1] == a + b[..|b| - 1];
      JoinedJoin(a, b[..|b| - 1]);
    }
  }

  /** The big-endian 16-bit number at position i. */
  function Big16(data: Vec, i: nat): nat
    requires i + 2 <= |data|
  {
    var high: nat, low: nat := data[i], data[i + 1];
    256 * high + low
  }
}
