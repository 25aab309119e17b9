/** The encoder and decoder of pkg/fec/zfex.go over shards in memory. */
module Codec {
  import opened Gf256
  import opened Gf256Tables
  import opened Matrices
  import opened Vandermonde
  import opened FlatMatrix
  import opened EncMatrix
  import opened ReedSolomon

  /** A Go slice of bytes from the start of a buffer, or nil. */
  datatype Slice = Nil | Bytes(buf: array<byte>, len: nat) {
    predicate Valid() { Bytes? ==> len <= buf.Length }

    function Len(): nat { if Nil? then 0 else len }

    function Bufs(): set<array<byte>> { if Nil? then {} else {buf} }

    ghost function Contents(): (v: Vec)
      requires Valid()
      reads Bufs()
      ensures |v| == Len()
    {
      if Nil? then [] else buf[..len]
    }
  }

  datatype FecResult = Ok | InvalidParams | TooFewShards | WrongParityCount | ShardSizeMismatch | ParityTooSmall | Panic

  predicate AllValid(shards: seq<Slice>)
  {
    forall i :: 0 <= i < |shards| ==> shards[i].Valid()
  }

  ghost function BufsOf(shards: seq<Slice>): set<array<byte>>
  {
    set i | 0 <= i < |shards| && shards[i].Bytes? :: shards[i].buf
  }

  ghost function ContentsOf(shards: seq<Slice>): (t: Shards)
    requires AllValid(shards)
    reads BufsOf(shards)
    ensures |t| == |shards|
    ensures forall i :: 0 <= i < |shards| ==> t[i] == shards[i].Contents()
  {
    if shards == [] then [] else ContentsOf(shards[..|shards| - 1]) + [shards[|shards| - 1].Contents()]
  }

  /** The first sz bytes of the buffer behind a shard, as far as it reaches. */
  ghost function ReadTo(s: Slice, sz: nat): (v: Vec)
    reads s.Bufs()
  {
    if s.Len() == 0 then [] else if sz <= s.buf.Length then s.buf[..sz] else Zeros(sz)
  }

  /** All shards present at one size, whatever their own. */
  ghost function Resized(shards: seq<Slice>, sz: nat): (t: Shards)
    reads BufsOf(shards)
    ensures |t| == |shards|
    ensures forall i :: 0 <= i < |t| ==> t[i] == ReadTo(shards[i], sz)
  {
    if shards == [] then [] else Resized(shards[..|shards| - 1], sz) + [ReadTo(shards[|shards| - 1], sz)]
  }

  predicate ReachesTo(s: Slice, sz: nat)
  {
    s.Bytes? ==> sz <= s.buf.Length
  }

  /** The buffers of the shards with these indices are at least sz bytes long. */
  predicate Reaches(shards: seq<Slice>, sz: nat, idx: seq<nat>)
  {
    forall i :: 0 <= i < |idx| ==> idx[i] < |shards| && ReachesTo(shards[idx[i]], sz)
  }

  /** The size of the first shard present. */
  function SizeOf(c: Shards): nat
  {
    if NextPresent(c, 0) == |c| then 0 else |c[NextPresent(c, 0)]|
  }

  lemma {:induction false} ResizedMarks(shards: seq<Slice>, sz: nat)
    requires sz > 0
    ensures forall i :: 0 <= i < |shards| ==> (Resized(shards, sz)[i] == [] <==> shards[i].Len() == 0)
    ensures forall i :: 0 <= i < |shards| ==> Resized(shards, sz)[i] == [] || |Resized(shards, sz)[i]| == sz
  {}

  lemma {:induction false} CountSame(c: Shards, d: Shards, hi: nat)
    requires hi <= |c| == |d| && forall i :: 0 <= i < hi ==> (c[i] == [] <==> d[i] == [])
    ensures CountPresent(c, 0, hi) == CountPresent(d, 0, hi)
  {
    if hi > 0 {
      CountSame(c, d, hi - 1);
    }
  }

  lemma {:induction false} SizeIsPositive(c: Shards)
    requires CountPresent(c, 0, |c|) > 0
    ensures SizeOf(c) > 0
  {
    NextPresentCounts(c, 0);
  }

  // ------------------------------------------------------- combinations of shards

  /** Byte by byte, the sum of the first j products of coefficients and shards. */
  function Combination(inputs: Shards, coeff: Vec, sz: nat, j: nat): (v: Vec)
    requires |inputs| == |coeff| && j <= |coeff| && AllOfSize(inputs, sz)
    ensures |v| == sz
  {
    seq(sz, b requires 0 <= b < sz => DotN(coeff, ByteColumn(inputs, b), j))
  }

  lemma {:induction false} CombinationStep(inputs: Shards, coeff: Vec, sz: nat, j: nat)
    requires |inputs| == |coeff| && j < |coeff| && AllOfSize(inputs, sz)
    ensures AddMul(Combination(inputs, coeff, sz, j), inputs[j], coeff[j]) == Combination(inputs, coeff, sz, j + 1)
  {
    hide Add, Mul;
  }

  lemma {:induction false} CombinationStart(inputs: Shards, coeff: Vec, sz: nat)
    requires |inputs| == |coeff| && AllOfSize(inputs, sz)
    ensures Combination(inputs, coeff, sz, 0) == Zeros(sz)
  {}

  /** Clear the output and add every shard, multiplied by the coefficients in matrix row `row`. */
  method CombineShards(gf: Tables, out: array<byte>, sz: nat, inputs: seq<Slice>, mat: array<byte>, n: nat, row: nat)
    requires gf.Valid() && sz <= out.Length && mat.Length == n * |inputs| && row < n
    requires AllValid(inputs) && forall i :: 0 <= i < |inputs| ==> inputs[i].Bytes? && inputs[i].len == sz
    requires out != mat && out !in BufsOf(inputs)
    modifies out
    ensures out[..sz] == Combination(ContentsOf(inputs), Rows(mat[..], n, |inputs|)[row], sz, |inputs|)
    ensures out[sz..] == old(out[sz..])
  {
    hide Tables.Valid, Rows, Combination, AddMul, Add, Mul, ContentsOf;
    var k := |inputs|;
    ghost var shards := ContentsOf(inputs);
    ghost var coeff := Rows(mat[..], n, k)[row];
    for j := 0 to sz
      invariant out[..j] == Zeros(j) && out[sz..] == old(out[sz..])
    {
      out[j] := 0;
    }
    CombinationStart(shards, coeff, sz);
    for j := 0 to k
      invariant out[..sz] == Combination(shards, coeff, sz, j)
      invariant out[sz..] == old(out[sz..])
    {
      var c := ReadAt(mat, n, k, row, j);
      CombinationStep(shards, coeff, sz, j);
      AddShard(gf, out, inputs, j, sz, c, shards);
    }
  }

  /** One `gfAddMul` of a shard onto the output. */
  method AddShard(gf: Tables, out: array<byte>, inputs: seq<Slice>, j: nat, sz: nat, c: byte, ghost shards: Shards)
    requires gf.Valid() && sz <= out.Length && j < |inputs| && inputs[j].Bytes? && inputs[j].len == sz
    requires AllValid(inputs) && out !in BufsOf(inputs) && shards == ContentsOf(inputs)
    modifies out
    ensures |shards[j]| == sz && out[..sz] == AddMul(old(out[..sz]), shards[j], c)
    ensures out[sz..] == old(out[sz..])
  {
    hide Tables.Valid, ContentsOf;
    var src := inputs[j].buf;
    assert src in BufsOf(inputs);
    assert inputs[j].Contents() == shards[j] == src[0..sz] && out[0..sz] == out[..sz];
    hide AddMul;
    GfAddMul(gf, out, 0, src, 0, sz, c);
  }

  predicate OneSize(shards: seq<Slice>)
  {
    forall i, j :: 0 <= i < |shards| && 0 <= j < |shards| && shards[i].Len() > 0 && shards[j].Len() > 0 ==>
      shards[i].Len() == shards[j].Len()
  }

  // ------------------------------------------------------------------------- codec

  /** `Encoder` and `Decoder`: both hold k, n and the same generator matrix. */
  class Fec {
    const k: nat
    const n: nat
    const gf: Tables
    const enc: array<byte>

    ghost predicate Valid()
      reads this, enc
    {
      1 <= k <= n <= 255 && gf.Valid() && enc.Length == n * k && Rows(enc[..], n, k) == Generator(k, n)
    }

    constructor (k: nat, n: nat)
      requires 1 <= k <= n <= 255
      ensures Valid() && fresh(enc) && this.k == k && this.n == n
    {
      var gf := InitGF();
      var enc := BuildEncMatrix(gf, k, n);
      this.k, this.n, this.gf, this.enc := k, n, gf, enc;
    }

    /** `NewEncoder` and `NewDecoder`: an error unless 1 <= k <= n <= 255. */
    static method New(k: int, n: int) returns (r: FecResult, f: Fec?)
      ensures r == (if 1 <= k <= n <= 255 then Ok else InvalidParams) && (f == null <==> r != Ok)
      ensures f != null ==> fresh(f) && fresh(f.enc) && f.Valid() && f.k == k && f.n == n
    {
      if k < 1 || n < k || n > 255 {
        return InvalidParams, null;
      }
      f := new Fec(k, n);
      r := Ok;
    }

    /** Empty shards are accepted as they are; otherwise the lengths must fit. */
    predicate EncodeAccepts(data: seq<Slice>, parity: seq<Slice>)
    {
      && |data| == k && |parity| == n - k
      && (k == n || k == 0 || data[0].Len() == 0 ||
          ((forall i :: 0 <= i < k ==> data[i].Len() == data[0].Len()) &&
           (forall i :: 0 <= i < n - k ==> data[0].Len() <= parity[i].Len())))
    }

    /** `Encode`: fill the parity shards of the codeword. */
    method Encode(data: seq<Slice>, parity: seq<Slice>) returns (r: FecResult)
      requires Valid() && AllValid(data) && AllValid(parity)
      requires BufsOf(parity) !! BufsOf(data) && enc !in BufsOf(parity)
      requires forall i, j :: 0 <= i < j < |parity| && parity[i].Bytes? && parity[j].Bytes? ==> parity[i].buf != parity[j].buf
      modifies BufsOf(parity)
      ensures Valid()
      ensures r == Ok <==> EncodeAccepts(data, parity)
      ensures r == Ok && k < n && data[0].Len() > 0 ==>
        var sz := data[0].Len();
        AllOfSize(old(ContentsOf(data)), sz) &&
        forall i :: 0 <= i < n - k ==>
          && parity[i].Bytes? && sz <= parity[i].buf.Length
          && parity[i].buf[..] == CodeShard(k, old(ContentsOf(data)), sz, k + i) + old(parity[i].buf[sz..])
      ensures r != Ok || k == n || data[0].Len() == 0 ==>
        forall i :: 0 <= i < |parity| && parity[i].Bytes? ==> parity[i].buf[..] == old(parity[i].buf[..])
    {
      if |data| != k {
        return TooFewShards;
      }
      if |parity| != n - k {
        return WrongParityCount;
      }
      if n - k == 0 {
        return Ok;
      }
      var sz := data[0].Len();
      if sz == 0 {
        return Ok;
      }
      for i := 1 to k
        invariant forall j :: 0 <= j < i ==> data[j].Len() == sz
      {
        if data[i].Len() != sz {
          return ShardSizeMismatch;
        }
      }
      for i := 0 to n - k
        invariant forall j :: 0 <= j < i ==> sz <= parity[j].Len()
      {
        if parity[i].Len() < sz {
          return ParityTooSmall;
        }
      }
      EncodeRows(data, parity, sz);
      return Ok;
    }

    method EncodeRows(data: seq<Slice>, parity: seq<Slice>, sz: nat)
      requires Valid() && AllValid(data) && AllValid(parity) && |data| == k && |parity| == n - k && sz > 0
      requires forall i :: 0 <= i < k ==> data[i].Len() == sz
      requires forall i :: 0 <= i < |parity| ==>
        parity[i].Bytes? && sz <= parity[i].len && parity[i].buf !in BufsOf(data) && parity[i].buf != enc
      requires forall i, j :: 0 <= i < j < |parity| ==> parity[i].buf != parity[j].buf
      modifies BufsOf(parity)
      ensures Valid() && AllOfSize(old(ContentsOf(data)), sz)
      ensures forall i :: 0 <= i < n - k ==>
        parity[i].buf[..] == CodeShard(k, old(ContentsOf(data)), sz, k + i) + old(parity[i].buf[sz..])
    {
      hide Tables.Valid, Rows, GeneratorRow, Combination, CodeShard, ContentsOf;
      ghost var shards := ContentsOf(data);
      for i := 0 to n - k
        invariant ContentsOf(data) == shards && enc[..] == old(enc[..])
        invariant forall j :: 0 <= j < i ==>
          parity[j].buf[..] == CodeShard(k, shards, sz, k + j) + old(parity[j].buf[sz..])
        invariant forall j :: i <= j < n - k ==> parity[j].buf[..] == old(parity[j].buf[..])
      {
        var out := parity[i].buf;
        assert out in BufsOf(parity);
        CombineShards(gf, out, sz, data, enc, n, k + i);
        CombinationIsCodeShard(k, shards, sz, k + i);
        assert out[..] == out[..sz] + out[sz..];
      }
    }

    /** The first loop of `Reconstruct`: how many shards there are, and their size. */
    method CountShards(shards: array<Slice>, ghost c: Shards) returns (available: nat, sz: nat)
      requires AllValid(shards[..])
      requires |c| == shards.Length && forall i :: 0 <= i < |c| ==> |c[i]| == shards[i].Len()
      ensures available == CountPresent(c, 0, |c|)
      ensures sz == SizeOf(c)
    {
      available, sz := 0, 0;
      for i := 0 to shards.Length
        invariant available == CountPresent(c, 0, i) && (available > 0 <==> sz > 0)
        invariant available == 0 ==> forall j :: 0 <= j < i ==> !Present(c, j)
        invariant available > 0 ==>
          exists j :: 0 <= j < i && Present(c, j) && sz == |c[j]| && forall l :: 0 <= l < j ==> !Present(c, l)
      {
        if shards[i].Len() > 0 {
          available := available + 1;
          if sz == 0 {
            sz := shards[i].Len();
          }
        }
      }
    }

    /** The data shards that arrived stand at their own positions, from position i on. */
    ghost predicate Placed(c: Shards, shards: seq<Slice>, inputs: seq<Slice>, indices: seq<nat>, i: nat)
    {
      && |inputs| == k == |indices| && k <= |c| == |shards|
      && forall j :: i <= j < k ==>
        if Present(c, j) then inputs[j] == shards[j] && indices[j] == j else inputs[j] == Nil
    }

    /** Positions below i hold the chosen shards. */
    ghost predicate Filled(want: seq<nat>, shards: seq<Slice>, inputs: seq<Slice>, indices: seq<nat>, i: nat)
    {
      && |inputs| == k == |indices| == |want| && i <= k
      && (forall j :: 0 <= j < k ==> want[j] < |shards|)
      && forall j :: 0 <= j < i ==> indices[j] == want[j] && inputs[j] == shards[want[j]]
    }

    /** The first pass: place the data shards that arrived. */
    method PlaceData(shards: array<Slice>, ghost c: Shards) returns (inputs: array<Slice>, indices: array<nat>)
      requires k <= shards.Length == |c| && forall i :: 0 <= i < |c| ==> (c[i] == [] <==> shards[i].Len() == 0)
      ensures fresh(inputs) && fresh(indices) && inputs.Length == k == indices.Length
      ensures Placed(c, shards[..], inputs[..], indices[..], 0)
    {
      inputs := new Slice[k](_ => Nil);
      indices := new nat[k](_ => 0);
      for i := 0 to k
        invariant forall j :: 0 <= j < k ==>
          if j < i && Present(c, j) then inputs[j] == shards[j] && indices[j] == j else inputs[j] == Nil
      {
        if shards[i].Len() > 0 {
          inputs[i] := shards[i];
          indices[i] := i;
        }
      }
    }

    /** The next parity shard that arrived. */
    method NextParity(shards: array<Slice>, p: nat, ghost c: Shards) returns (q: nat)
      requires p <= shards.Length == |c| && forall i :: 0 <= i < |c| ==> (c[i] == [] <==> shards[i].Len() == 0)
      ensures q == NextPresent(c, p)
    {
      q := p;
      while q < shards.Length
        invariant p <= q <= shards.Length && NextPresent(c, q) == NextPresent(c, p)
      {
        if shards[q].Len() > 0 {
          break;
        }
        q := q + 1;
      }
    }

    lemma {:induction false} ChooseUnfolds(c: Shards, want: seq<nat>, i: nat, p: nat)
      requires i < k <= p <= |c| && |want| == k && Enough(c, k, i, p) && want[i..] == Choose(c, k, i, p)
      ensures Present(c, i) ==> Enough(c, k, i + 1, p) && want[i] == i && want[i + 1..] == Choose(c, k, i + 1, p)
      ensures var q := NextPresent(c, p);
        !Present(c, i) ==> q < |c| && Enough(c, k, i + 1, q + 1) && want[i] == q && want[i + 1..] == Choose(c, k, i + 1, q + 1)
    {
      EnoughStep(c, k, i, p);
      assert want[i] == want[i..][0] && want[i + 1..] == want[i..][1..];
    }

    /** Place the data shards that arrived, then fill the gaps with parity shards. */
    method ChooseShards(shards: array<Slice>, ghost c: Shards) returns (inputs: array<Slice>, indices: array<nat>)
      requires 1 <= k <= shards.Length == |c| && forall i :: 0 <= i < |c| ==> (c[i] == [] <==> shards[i].Len() == 0)
      requires CountPresent(c, 0, |c|) >= k
      ensures fresh(inputs) && fresh(indices) && inputs.Length == k && indices[..] == Chosen(c, k)
      ensures Labelled(inputs[..], indices[..], shards[..])
    {
      hide Choose, Enough, Present, Placed, Filled, Labelled, Chosen;
      ghost var want := Chosen(c, k);
      inputs, indices := PlaceData(shards, c);
      ChosenIsChoose(c, k);
      NothingFilled(want, shards[..], inputs[..], indices[..]);
      var parityIdx := k;
      for i := 0 to k
        invariant k <= parityIdx <= |c| && Enough(c, k, i, parityIdx) && want[i..] == Choose(c, k, i, parityIdx)
        invariant Placed(c, shards[..], inputs[..], indices[..], i)
        invariant Filled(want, shards[..], inputs[..], indices[..], i)
      {
        ChooseUnfolds(c, want, i, parityIdx);
        FillStep(c, want, shards[..], inputs[..], indices[..], i);
        ghost var was, at := inputs[..], indices[..];
        assert inputs[i] == was[i];
        if inputs[i] == Nil {
          var q := NextParity(shards, parityIdx, c);
          inputs[i] := shards[q];
          indices[i] := q;
          parityIdx := q + 1;
          assert inputs[..] == was[i := shards[q]] && indices[..] == at[i := q];
        }
      }
      AllFilled(want, shards[..], inputs[..], indices[..]);
    }

    lemma {:induction false} NothingFilled(want: seq<nat>, shards: seq<Slice>, inputs: seq<Slice>, indices: seq<nat>)
      requires |inputs| == k == |indices| == |want| && ValidRows(want, |shards|)
      ensures Filled(want, shards, inputs, indices, 0)
    {}

    lemma {:induction false} AllFilled(want: seq<nat>, shards: seq<Slice>, inputs: seq<Slice>, indices: seq<nat>)
      requires Filled(want, shards, inputs, indices, k)
      ensures indices == want && Labelled(inputs, indices, shards)
    {}

    /** A position holds its data shard already, or is filled with shard want[i]. */
    lemma {:induction false} FillStep(c: Shards, want: seq<nat>, shards: seq<Slice>, inputs: seq<Slice>, indices: seq<nat>, i: nat)
      requires Placed(c, shards, inputs, indices, i) && Filled(want, shards, inputs, indices, i) && i < k
      requires (c[i] == [] <==> shards[i].Len() == 0) && (Present(c, i) ==> want[i] == i)
      ensures inputs[i] == Nil <==> !Present(c, i)
      ensures Present(c, i) ==> Placed(c, shards, inputs, indices, i + 1) && Filled(want, shards, inputs, indices, i + 1)
      ensures !Present(c, i) ==>
        Placed(c, shards, inputs[i := shards[want[i]]], indices[i := want[i]], i + 1) &&
        Filled(want, shards, inputs[i := shards[want[i]]], indices[i := want[i]], i + 1)
    {}

    lemma {:induction false} ChosenIsChoose(c: Shards, k: nat)
      requires k <= |c| && CountPresent(c, 0, |c|) >= k
      ensures Enough(c, k, 0, k) && Chosen(c, k)[0..] == Choose(c, k, 0, k) && ValidRows(Chosen(c, k), |c|)
    {
      EnoughInitially(c, k);
      ChosenFacts(c, k);
    }

    /**
      `shuffleShards` moves every data shard to the position of its index. `of` names
      the shard that belongs to each index.
    */
    method ShuffleShards(shards: array<Slice>, indices: array<nat>, ghost of: seq<Slice>)
      requires shards.Length == indices.Length == k
      requires Labelled(shards[..], indices[..], of) && DataDistinct(indices[..])
      modifies shards, indices
      ensures Labelled(shards[..], indices[..], of) && DataDistinct(indices[..])
      ensures AtHome(indices[..], k, k) && multiset(indices[..]) == multiset(old(indices[..]))
      ensures old(AtHome(indices[..], k, k)) ==> shards[..] == old(shards[..]) && indices[..] == old(indices[..])
    {
      hide Labelled, DataDistinct, SwapAt, AtHome, Settled;
      ghost var natural := AtHome(indices[..], k, k);
      var i := 0;
      NoneAtHome(indices[..], k);
      while i < k
        invariant 0 <= i <= k && AtHome(indices[..], i, k)
        invariant Labelled(shards[..], indices[..], of) && DataDistinct(indices[..])
        invariant multiset(indices[..]) == multiset(old(indices[..]))
        invariant natural ==> shards[..] == old(shards[..]) && indices[..] == old(indices[..])
        decreases k - Settled(indices[..], k), k - i
      {
        SettledBound(indices[..], k);
        OneMoreAtHome(indices[..], i, k);
        assert indices[i] == indices[..][i];
        if indices[i] >= k || indices[i] == i {
          i := i + 1;
        } else {
          var c := indices[i];
          ShuffleStep(shards[..], indices[..], of, i, c);
          SwapKeepsMultiset(indices[..], i, c);
          SwapEntries(indices, i, c);
          SwapEntries(shards, i, c);
          SettledBound(indices[..], k);
        }
      }
    }

    static method SwapEntries<T>(a: array<T>, i: nat, j: nat)
      requires i < a.Length && j < a.Length
      modifies a
      ensures a[..] == SwapAt(old(a[..]), i, j)
    {
      a[i], a[j] := a[j], a[i];
    }

    lemma {:induction false} SwapKeepsMultiset(s: seq<nat>, i: nat, j: nat)
      requires i < |s| && j < |s|
      ensures multiset(SwapAt(s, i, j)) == multiset(s)
    {}

    lemma {:induction false} NoneAtHome(indices: seq<nat>, k: nat)
      ensures AtHome(indices, 0, k)
    {}

    lemma {:induction false} OneMoreAtHome(indices: seq<nat>, i: nat, k: nat)
      requires AtHome(indices, i, k) && i < |indices|
      ensures indices[i] >= k || indices[i] == i ==> AtHome(indices, i + 1, k)
    {}

    /** Every position below m holds its own index, or that of a parity shard. */
    ghost predicate AtHome(indices: seq<nat>, m: nat, k: nat)
    {
      m <= |indices| && forall i :: 0 <= i < m ==> k <= indices[i] || indices[i] == i
    }

    /** One swap: position c holds index c from now on. */
    lemma {:induction false} ShuffleStep(shards: seq<Slice>, indices: seq<nat>, of: seq<Slice>, i: nat, c: nat)
      requires |indices| == k && i < k && c < k && indices[i] == c && c != i
      requires Labelled(shards, indices, of) && DataDistinct(indices) && AtHome(indices, i, k)
      ensures var t := SwapAt(indices, i, c);
        && Labelled(SwapAt(shards, i, c), t, of) && DataDistinct(t) && AtHome(t, i, k)
        && Settled(t, k) > Settled(indices, k) && !AtHome(indices, k, k)
    {
      assert i < c ==> indices[i] != indices[c];
      assert c < i ==> indices[c] != indices[i];
      SettledGrows(indices, i, c, k);
    }

    ghost predicate Labelled(shards: seq<Slice>, indices: seq<nat>, of: seq<Slice>)
    {
      |shards| == |indices| && forall i :: 0 <= i < |shards| ==> indices[i] < |of| && shards[i] == of[indices[i]]
    }

    ghost predicate DataDistinct(indices: seq<nat>)
    {
      forall i, j :: 0 <= i < j < |indices| && indices[i] < |indices| ==> indices[i] != indices[j]
    }

    /** How many of the first m positions hold their own index. */
    ghost function Settled(indices: seq<nat>, m: nat): nat
      requires m <= |indices|
    {
      if m == 0 then 0 else Settled(indices, m - 1) + (if indices[m - 1] == m - 1 then 1 else 0)
    }

    lemma {:induction false} SettledBound(indices: seq<nat>, m: nat)
      requires m <= |indices|
      ensures Settled(indices, m) <= m
    {
      if m > 0 {
        SettledBound(indices, m - 1);
      }
    }

    lemma {:induction false} SettledGrows(was: seq<nat>, i: nat, c: nat, m: nat)
      requires i < |was| && c < |was| && i != c && was[i] == c && was[c] != c && m <= |was|
      ensures Settled(was[i := was[c]][c := c], m) >= Settled(was, m) + (if c < m then 1 else 0)
    {
      if m > 0 {
        SettledGrows(was, i, c, m - 1);
      }
    }

    /** Build the decode matrix from the generator rows of the chosen shards, and invert it. */
    method BuildDecodeMatrix(indices: array<nat>, matrix: array<byte>)
      requires Valid() && indices.Length == k && matrix.Length == k * k && matrix != enc
      requires ValidRows(indices[..], n)
      requires forall i :: 0 <= i < k && indices[i] < k ==> indices[i] == i
      modifies matrix
      ensures LeftInverse(Rows(matrix[..], k, k), PickRows(k, indices[..]))
    {
      hide Tables.Valid, Rows, GeneratorRow, LeftInverse, Nonsingular;
      ghost var idx := indices[..];
      for i := 0 to k
        invariant enc[..] == old(enc[..])
        invariant forall r :: 0 <= r < i ==> Rows(matrix[..], k, k)[r] == GeneratorRow(k, idx[r])
      {
        if indices[i] < k {
          GeneratorIsSystematic(k, i);
          for j := 0 to k
            invariant enc[..] == old(enc[..])
            invariant forall r :: 0 <= r < i ==> Rows(matrix[..], k, k)[r] == GeneratorRow(k, idx[r])
            invariant forall c :: 0 <= c < j ==> Rows(matrix[..], k, k)[i][c] == Unit(k, i)[c]
          {
            WriteAt(matrix, k, k, i, j, if j == i then 1 else 0);
          }
          assert Rows(matrix[..], k, k)[i] == Unit(k, i);
        } else {
          for j := 0 to k
            invariant enc[..] == old(enc[..])
            invariant forall r :: 0 <= r < i ==> Rows(matrix[..], k, k)[r] == GeneratorRow(k, idx[r])
            invariant forall c :: 0 <= c < j ==> Rows(matrix[..], k, k)[i][c] == GeneratorRow(k, idx[i])[c]
          {
            var x := ReadAt(enc, n, k, indices[i], j);
            WriteAt(matrix, k, k, i, j, x);
          }
          assert Rows(matrix[..], k, k)[i] == GeneratorRow(k, idx[i]);
        }
      }
      assert Rows(matrix[..], k, k) == PickRows(k, idx);
      AnyRowsNonsingular(k, idx);
      InvertMatrix(gf, matrix, k);
    }

    /** The missing data shards below i, in order. */
    ghost function Missing(c: Shards, i: nat): (m: seq<nat>)
      requires i <= |c|
    {
      if i == 0 then [] else Missing(c, i - 1) + (if Present(c, i - 1) then [] else [i - 1])
    }

    lemma {:induction false} MissingExactly(c: Shards, i: nat)
      requires i <= |c|
      ensures var m := Missing(c, i);
        && (forall j :: 0 <= j < |m| ==> m[j] < i && !Present(c, m[j]))
        && (forall j, l :: 0 <= j < l < |m| ==> m[j] < m[l])
        && (forall q :: 0 <= q < i && !Present(c, q) ==> q in m)
    {
      if i > 0 {
        MissingExactly(c, i - 1);
      }
    }

    /** The j-th missing shard below i stays the j-th. */
    lemma {:induction false} MissingPrefix(c: Shards, i: nat, l: nat)
      requires i <= l <= |c|
      ensures |Missing(c, i)| <= |Missing(c, l)| && Missing(c, l)[..|Missing(c, i)|] == Missing(c, i)
    {
      if i < l {
        MissingPrefix(c, i, l - 1);
      }
    }

    lemma {:induction false} MissingStep(c: Shards, row: nat, l: nat)
      requires row < l <= |c|
      ensures |Missing(c, row)| <= |Missing(c, l)|
      ensures Present(c, row) ==> |Missing(c, row + 1)| == |Missing(c, row)|
      ensures !Present(c, row) ==> |Missing(c, row + 1)| == |Missing(c, row)| + 1
      ensures !Present(c, row) ==> |Missing(c, row)| < |Missing(c, l)| && Missing(c, l)[|Missing(c, row)|] == row
    {
      MissingPrefix(c, row + 1, l);
      var m := |Missing(c, row)|;
      if !Present(c, row) {
        assert Missing(c, l)[m] == Missing(c, l)[..m + 1][m];
      }
    }

    method FindMissing(shards: array<Slice>, ghost c: Shards) returns (missing: seq<nat>)
      requires k <= shards.Length == |c| && forall i :: 0 <= i < |c| ==> (c[i] == [] <==> shards[i].Len() == 0)
      ensures missing == Missing(c, k)
    {
      missing := [];
      for i := 0 to k
        invariant missing == Missing(c, i)
      {
        if shards[i].Len() == 0 {
          missing := missing + [i];
        }
      }
    }

    /** Give every missing data shard that is nil a buffer of its own. */
    method AllocateMissing(shards: array<Slice>, missing: seq<nat>, sz: nat) returns (outputs: seq<Slice>)
      requires Ascending(missing, shards.Length)
      requires forall j :: 0 <= j < |missing| ==> shards[missing[j]].Len() == 0 && shards[missing[j]].Valid()
      modifies shards
      ensures |outputs| == |missing| && Stored(old(shards[..]), shards[..], missing, outputs)
      ensures AllNil(old(shards[..]), missing) ==> Buffers(outputs, sz) && fresh(BufsOf(outputs))
      ensures !AllNil(old(shards[..]), missing) ==> exists j :: 0 <= j < |outputs| && outputs[j].Len() == 0
    {
      hide Stored, AllNil, Buffers;
      ghost var before := shards[..];
      outputs := [];
      NothingStored(before, sz);
      for i := 0 to |missing|
        invariant |outputs| == i && Stored(before, shards[..], missing[..i], outputs)
        invariant AllNil(before, missing[..i]) ==> Buffers(outputs, sz) && fresh(BufsOf(outputs))
        invariant !AllNil(before, missing[..i]) ==> exists j :: 0 <= j < |outputs| && outputs[j].Len() == 0
      {
        var idx := missing[i];
        ghost var now, had := shards[..], outputs;
        assert before[idx].Len() == 0;
        StoreStep(before, now, missing, outputs, i);
        if shards[idx] == Nil {
          var buf := new byte[sz](_ => 0);
          assert forall l :: 0 <= l < |had| && had[l].Bytes? ==> had[l].buf != buf;
          shards[idx] := Bytes(buf, sz);
        }
        outputs := outputs + [shards[idx]];
        assert shards[..] == now[idx := outputs[i]];
        StoredAfter(before, now, missing, had, i, outputs[i]);
        BuffersAfter(had, outputs[i], sz);
        if j :| 0 <= j < |had| && had[j].Len() == 0 {
          assert outputs[j] == had[j];
        }
      }
      assert missing[..|missing|] == missing;
    }

    lemma {:induction false} NothingStored(before: seq<Slice>, sz: nat)
      ensures Stored(before, before, [], []) && AllNil(before, []) && Buffers([], sz) && BufsOf([]) == {}
    {}

    lemma {:induction false} StoreStep(before: seq<Slice>, now: seq<Slice>, missing: seq<nat>, outputs: seq<Slice>, i: nat)
      requires i < |missing| && Ascending(missing, |before|) && Stored(before, now, missing[..i], outputs)
      ensures |now| == |before| && now[missing[i]] == before[missing[i]]
      ensures AllNil(before, missing[..i + 1]) <==> AllNil(before, missing[..i]) && before[missing[i]] == Nil
    {
      assert missing[..i + 1] == missing[..i] + [missing[i]];
      assert missing[i] !in missing[..i];
    }

    lemma {:induction false} StoredAfter(before: seq<Slice>, now: seq<Slice>, missing: seq<nat>, outputs: seq<Slice>, i: nat, x: Slice)
      requires i < |missing| && Ascending(missing, |before|) && Stored(before, now, missing[..i], outputs)
      requires |now| == |before|
      ensures Stored(before, now[missing[i] := x], missing[..i + 1], outputs + [x])
    {
      assert missing[..i + 1] == missing[..i] + [missing[i]];
    }

    lemma {:induction false} BuffersAfter(outputs: seq<Slice>, x: Slice, sz: nat)
      ensures BufsOf(outputs + [x]) == BufsOf(outputs) + x.Bufs()
      ensures Buffers(outputs, sz) && x.Bytes? && x.len == sz && x.Valid() && x.buf !in BufsOf(outputs) ==> Buffers(outputs + [x], sz)
    {
      forall b | b in BufsOf(outputs) + x.Bufs() ensures b in BufsOf(outputs + [x]) {
        if b in BufsOf(outputs) {
          var j :| 0 <= j < |outputs| && outputs[j].Bytes? && outputs[j].buf == b;
          assert (outputs + [x])[j].buf == b;
        } else {
          assert (outputs + [x])[|outputs|].buf == b;
        }
      }
    }

    /** Decode one missing shard into the next output buffer. */
    method DecodeOne(inputs: seq<Slice>, matrix: array<byte>, row: nat, outputs: seq<Slice>, j: nat, sz: nat, ghost want: seq<Vec>)
      requires gf.Valid() && matrix.Length == k * k && |inputs| == k && row < k
      requires AllValid(inputs) && forall i :: 0 <= i < k ==> inputs[i].Bytes? && inputs[i].len == sz
      requires Buffers(outputs, sz) && BufsOf(outputs) !! BufsOf(inputs) && matrix !in BufsOf(outputs)
      requires j < |outputs| == |want| && HoldFirst(outputs, want, j)
      requires want[j] == Combination(ContentsOf(inputs), Rows(matrix[..], k, k)[row], sz, k)
      modifies BufsOf(outputs)
      ensures matrix[..] == old(matrix[..]) && ContentsOf(inputs) == old(ContentsOf(inputs))
      ensures HoldFirst(outputs, want, j + 1)
    {
      hide Tables.Valid, Rows, ContentsOf, Combination, Slice.Contents;
      var out := outputs[j].buf;
      assert out in BufsOf(outputs);
      CombineShards(gf, out, sz, inputs, matrix, k, row);
    }

    /** Decode the missing data shards into the output buffers, row by row. */
    method DecodeRows(inputs: seq<Slice>, indices: seq<nat>, matrix: array<byte>, outputs: seq<Slice>, sz: nat, ghost c: Shards, ghost want: seq<Vec>)
      requires gf.Valid() && matrix.Length == k * k && |inputs| == k == |indices| && k <= |c|
      requires AllValid(inputs) && forall i :: 0 <= i < k ==> inputs[i].Bytes? && inputs[i].len == sz
      requires forall i :: 0 <= i < k ==> if Present(c, i) then indices[i] == i else k <= indices[i]
      requires Buffers(outputs, sz) && BufsOf(outputs) !! BufsOf(inputs) && matrix !in BufsOf(outputs)
      requires |outputs| == |Missing(c, k)|
      requires want == DecodedRows(ContentsOf(inputs), Rows(matrix[..], k, k), Missing(c, k), sz)
      modifies BufsOf(outputs)
      ensures HoldFirst(outputs, want, |outputs|)
    {
      hide Tables.Valid, Rows, ContentsOf, Combination, Present, Missing, Slice.Contents, HoldFirst, Buffers, BufsOf, DecodedRows;
      ghost var m, shards := Rows(matrix[..], k, k), ContentsOf(inputs);
      var outIdx := 0;
      MissingNone(c);
      HoldNone(outputs, want, sz);
      for row := 0 to k
        invariant outIdx == |Missing(c, row)|
        invariant matrix[..] == old(matrix[..]) && ContentsOf(inputs) == shards
        invariant HoldFirst(outputs, want, outIdx)
      {
        MissingStep(c, row, k);
        if indices[row] >= k {
          DecodedRowIs(shards, m, Missing(c, k), sz, outIdx);
          DecodeOne(inputs, matrix, row, outputs, outIdx, sz, want);
          outIdx := outIdx + 1;
        }
      }
    }

    lemma {:induction false} MissingNone(c: Shards)
      ensures Missing(c, 0) == []
    {}

    lemma {:induction false} ChosenAtHome(c: Shards)
      requires k <= |c| <= 255 && CountPresent(c, 0, |c|) >= k
      ensures var idx := Chosen(c, k);
        AtHome(idx, k, k) && DataDistinct(idx) && ValidRows(idx, |c|) && forall i :: 0 <= i < k && idx[i] < k ==> idx[i] == i
    {
      ChosenFacts(c, k);
    }

    /** Choose k shards, bring them into order, and invert their generator rows. */
    method Prepare(shards: array<Slice>, ghost c: Shards) returns (inputs: seq<Slice>, indices: seq<nat>, matrix: array<byte>)
      requires Valid() && shards.Length == n == |c| && forall i :: 0 <= i < |c| ==> (c[i] == [] <==> shards[i].Len() == 0)
      requires CountPresent(c, 0, n) >= k
      ensures |inputs| == k && indices == Chosen(c, k) && Labelled(inputs, indices, shards[..])
      ensures fresh(matrix) && matrix.Length == k * k && ValidRows(indices, 256)
      ensures LeftInverse(Rows(matrix[..], k, k), PickRows(k, indices))
    {
      hide Tables.Valid, Rows, LeftInverse, PickRows, Chosen, AtHome, DataDistinct, Labelled, Generator;
      var inputArray, indexArray := ChooseShards(shards, c);
      ChosenAtHome(c);
      ShuffleShards(inputArray, indexArray, shards[..]);
      inputs, indices := inputArray[..], indexArray[..];
      matrix := new byte[k * k](_ => 0);
      BuildDecodeMatrix(indexArray, matrix);
    }

    lemma {:induction false} MissingFacts(before: seq<Slice>, c: Shards, missing: seq<nat>)
      requires k <= |before| == |c| && AllValid(before) && missing == Missing(c, k)
      requires forall i :: 0 <= i < |c| ==> (c[i] == [] <==> before[i].Len() == 0)
      ensures Ascending(missing, |before|)
      ensures forall j :: 0 <= j < |missing| ==> before[missing[j]].Valid() && before[missing[j]].Len() == 0
      ensures forall j :: 0 <= j < |missing| ==> missing[j] < k
    {
      MissingExactly(c, k);
    }

    /** The chosen shards, cut at the decoding size where their buffers reach it. */
    ghost predicate AreCut(inputs: seq<Slice>, cut: seq<Slice>, sz: nat)
    {
      |cut| == |inputs| && forall i :: 0 <= i < |inputs| ==>
        inputs[i].Bytes? && cut[i] == Bytes(inputs[i].buf, sz) && sz <= inputs[i].buf.Length
    }

    /** Slicing the chosen shards to the decoding size: out of range when a buffer is shorter. */
    method CutInputs(inputs: seq<Slice>, sz: nat) returns (cut: seq<Slice>, ok: bool)
      requires forall i :: 0 <= i < |inputs| ==> inputs[i].Bytes?
      ensures ok <==> forall i :: 0 <= i < |inputs| ==> sz <= inputs[i].buf.Length
      ensures ok ==> AreCut(inputs, cut, sz)
    {
      cut := [];
      for i := 0 to |inputs|
        invariant |cut| == i
        invariant forall j :: 0 <= j < i ==> cut[j] == Bytes(inputs[j].buf, sz) && sz <= inputs[j].buf.Length
      {
        if inputs[i].buf.Length < sz {
          return cut, false;
        }
        cut := cut + [Bytes(inputs[i].buf, sz)];
      }
      ok := true;
    }

    lemma {:induction false} InputFacts(before: seq<Slice>, inputs: seq<Slice>, indices: seq<nat>, c: Shards, sz: nat)
      requires AllValid(before) && c == Resized(before, sz) && Decodable(c, k, sz)
      requires |inputs| == k && indices == Chosen(c, k) && Labelled(inputs, indices, before)
      ensures forall i :: 0 <= i < k ==> inputs[i].Bytes? && inputs[i].buf in BufsOf(before)
      ensures (forall i :: 0 <= i < k ==> sz <= inputs[i].buf.Length) <==> Reaches(before, sz, indices)
      ensures ValidRows(indices, |c|)
      ensures forall i :: 0 <= i < k ==> if Present(c, i) then indices[i] == i else k <= indices[i]
    {
      ChosenFacts(c, k);
      forall i | 0 <= i < k ensures inputs[i].Bytes? && inputs[i].buf in BufsOf(before) {
        assert Present(c, indices[i]);
        assert before[indices[i]].buf == inputs[i].buf;
      }
      if forall i :: 0 <= i < k ==> sz <= inputs[i].buf.Length {
        forall i | 0 <= i < k ensures indices[i] < |before| && ReachesTo(before[indices[i]], sz) {}
      }
    }

    /** The buffers of the inputs start with these shards, where they reach that far. */
    ghost predicate StartWith(inputs: seq<Slice>, w: Shards, sz: nat)
      reads BufsOf(inputs)
    {
      |inputs| == |w| && forall i :: 0 <= i < |inputs| ==>
        inputs[i].Bytes? && (sz <= inputs[i].buf.Length ==> inputs[i].buf[..sz] == w[i])
    }

    lemma {:induction false} InputsStart(before: seq<Slice>, inputs: seq<Slice>, indices: seq<nat>, c: Shards, sz: nat)
      requires AllValid(before) && c == Resized(before, sz) && Decodable(c, k, sz)
      requires |inputs| == k && indices == Chosen(c, k) && Labelled(inputs, indices, before)
      ensures (forall i :: 0 <= i < k ==> indices[i] < |c|) && StartWith(inputs, Pick(c, indices), sz) && BufsOf(inputs) <= BufsOf(before)
    {
      ChosenFacts(c, k);
      forall i | 0 <= i < k
        ensures inputs[i].Bytes? && inputs[i].buf in BufsOf(before)
        ensures sz <= inputs[i].buf.Length ==> inputs[i].buf[..sz] == Pick(c, indices)[i]
      {
        assert Present(c, indices[i]);
        assert before[indices[i]].buf == inputs[i].buf;
      }
    }

    /** The cut shards hold what is decoded from. */
    lemma {:induction false} CutFacts(inputs: seq<Slice>, cut: seq<Slice>, w: Shards, sz: nat)
      requires StartWith(inputs, w, sz) && AreCut(inputs, cut, sz)
      ensures AllValid(cut) && forall i :: 0 <= i < |cut| ==> cut[i].Bytes? && cut[i].len == sz
      ensures BufsOf(cut) <= BufsOf(inputs) && ContentsOf(cut) == w
    {
      forall i | 0 <= i < |cut| ensures cut[i].Valid() && cut[i].Contents() == w[i] && cut[i].buf in BufsOf(inputs) {
        assert inputs[i].buf == cut[i].buf;
      }
    }

    /** The chosen shards, and the matrix that decodes them. */
    method Gather(shards: array<Slice>, sz: nat, ghost c: Shards) returns (inputs: seq<Slice>, indices: seq<nat>, matrix: array<byte>)
      requires Valid() && shards.Length == n && AllValid(shards[..]) && c == Resized(shards[..], sz) && Decodable(c, k, sz)
      ensures |inputs| == k && indices == Chosen(c, k) && ValidRows(indices, |c|) && ValidRows(indices, 256)
      ensures forall i :: 0 <= i < k ==> if Present(c, i) then indices[i] == i else k <= indices[i]
      ensures StartWith(inputs, Pick(c, indices), sz) && BufsOf(inputs) <= BufsOf(shards[..])
      ensures (forall i :: 0 <= i < k ==> inputs[i].Bytes?)
      ensures (forall i :: 0 <= i < k ==> sz <= inputs[i].buf.Length) <==> Reaches(shards[..], sz, indices)
      ensures fresh(matrix) && matrix.Length == k * k && LeftInverse(Rows(matrix[..], k, k), PickRows(k, indices))
    {
      hide Tables.Valid, Rows, LeftInverse, Labelled, PickRows, Chosen, Generator, Resized, Reaches, StartWith;
      ghost var before := shards[..];
      ResizedMarks(before, sz);
      inputs, indices, matrix := Prepare(shards, c);
      InputFacts(before, inputs, indices, c, sz);
      InputsStart(before, inputs, indices, c, sz);
    }

    lemma {:induction false} RebuiltFromRow(c: Shards, idx: seq<nat>, m: Mat, sz: nat, row: nat)
      requires Decodable(c, k, sz) && idx == Chosen(c, k) && IsMat(m, k, k) && row < k
      requires ValidRows(idx, 256) && LeftInverse(m, PickRows(k, idx))
      ensures (forall i :: 0 <= i < k ==> idx[i] < |c|) && AllOfSize(Pick(c, idx), sz)
      ensures Combination(Pick(c, idx), m[row], sz, k) == Rebuilt(c, k, sz, row)
    {
      hide PickRows, Solve, LeftInverse, Chosen, DotN;
      ChosenFacts(c, k);
      var inputs := Pick(c, idx);
      forall i | 0 <= i < k ensures |inputs[i]| == sz {
        assert Present(c, idx[i]);
      }
      forall b | 0 <= b < sz ensures DotN(m[row], ByteColumn(inputs, b), k) == Rebuilt(c, k, sz, row)[b] {
        InverseSolves(k, idx, m, ByteColumn(inputs, b));
        assert Apply(m, ByteColumn(inputs, b))[row] == DotN(m[row], ByteColumn(inputs, b), k);
      }
    }

    lemma {:induction false} RowsAreRebuilt(c: Shards, idx: seq<nat>, m: Mat, sz: nat, missing: seq<nat>, want: seq<Vec>)
      requires Decodable(c, k, sz) && idx == Chosen(c, k) && IsMat(m, k, k)
      requires ValidRows(idx, 256) && LeftInverse(m, PickRows(k, idx))
      requires (forall i :: 0 <= i < k ==> idx[i] < |c|) && AllOfSize(Pick(c, idx), sz)
      requires (forall j :: 0 <= j < |missing| ==> missing[j] < k) && want == DecodedRows(Pick(c, idx), m, missing, sz)
      ensures forall j :: 0 <= j < |missing| ==> want[j] == Rebuilt(c, k, sz, missing[j])
    {
      hide PickRows, LeftInverse, Chosen, Combination, Rebuilt;
      forall j | 0 <= j < |missing| ensures want[j] == Rebuilt(c, k, sz, missing[j]) {
        RebuiltFromRow(c, idx, m, sz, missing[j]);
        DecodedRowIs(Pick(c, idx), m, missing, sz, j);
      }
    }

    /** The slots after decoding: missing data shards are rebuilt, all others are the slices they were. */
    ghost predicate FilledIn(before: seq<Slice>, after: seq<Slice>, c: Shards, sz: nat)
      requires Decodable(c, k, sz)
      reads BufsOf(after)
    {
      && |before| == |after| == |c| && AllValid(after)
      && forall i :: 0 <= i < |c| ==>
        if i < k && !Present(c, i) then after[i].Contents() == Rebuilt(c, k, sz, i) else after[i] == before[i]
    }

    lemma {:induction false} StoredIsFilledIn(before: seq<Slice>, after: seq<Slice>, c: Shards, sz: nat,
                                              missing: seq<nat>, outputs: seq<Slice>, want: seq<Vec>)
      requires AllValid(before) && |before| == |c| && Decodable(c, k, sz) && missing == Missing(c, k)
      requires Stored(before, after, missing, outputs) && Buffers(outputs, sz) && HoldFirst(outputs, want, |outputs|)
      requires forall j :: 0 <= j < |missing| ==> missing[j] < k && want[j] == Rebuilt(c, k, sz, missing[j])
      ensures FilledIn(before, after, c, sz)
    {
      hide Rebuilt, Missing;
      MissingExactly(c, k);
      forall i | 0 <= i < |c|
        ensures after[i].Valid()
        ensures if i < k && !Present(c, i) then after[i].Contents() == Rebuilt(c, k, sz, i) else after[i] == before[i]
      {
        if i in missing {
          var j :| 0 <= j < |missing| && missing[j] == i;
          assert after[i] == outputs[j];
        } else {
          assert after[i] == before[i];
        }
      }
    }

    /** The decoding itself, once every missing data shard has a buffer. */
    method DecodeInto(cut: seq<Slice>, indices: seq<nat>, matrix: array<byte>, outputs: seq<Slice>, sz: nat,
                      ghost missing: seq<nat>, ghost c: Shards, ghost before: seq<Slice>, ghost after: seq<Slice>)
      requires Valid() && Decodable(c, k, sz) && |cut| == k && indices == Chosen(c, k) && missing == Missing(c, k)
      requires AllValid(cut) && forall i :: 0 <= i < k ==> cut[i].Bytes? && cut[i].len == sz
      requires ValidRows(indices, |c|) && ValidRows(indices, 256) && ContentsOf(cut) == Pick(c, indices)
      requires forall i :: 0 <= i < k ==> if Present(c, i) then indices[i] == i else k <= indices[i]
      requires matrix.Length == k * k && LeftInverse(Rows(matrix[..], k, k), PickRows(k, indices))
      requires Buffers(outputs, sz) && BufsOf(outputs) !! BufsOf(cut) && matrix !in BufsOf(outputs)
      requires AllValid(before) && |before| == |c| && k <= |c| && Stored(before, after, missing, outputs)
      requires |outputs| == |missing|
      requires forall j :: 0 <= j < |missing| ==> missing[j] < k
      modifies BufsOf(outputs)
      ensures FilledIn(before, after, c, sz)
    {
      hide Tables.Valid, Rows, ContentsOf, Combination, Missing, DecodedRows, LeftInverse, PickRows, Chosen, Buffers, HoldFirst, Generator;
      hide FilledIn, Rebuilt, Stored, Decodable;
      ghost var want := DecodedRows(ContentsOf(cut), Rows(matrix[..], k, k), missing, sz);
      RowsAreRebuilt(c, indices, Rows(matrix[..], k, k), sz, missing, want);
      DecodeRows(cut, indices, matrix, outputs, sz, c, want);
      StoredIsFilledIn(before, after, c, sz, missing, outputs, want);
    }

    /** The first write to an output is out of range if its buffer is empty. */
    method OutputsReach(outputs: seq<Slice>, sz: nat) returns (ok: bool)
      ensures ok <==> forall j :: 0 <= j < |outputs| ==> sz <= outputs[j].Len()
    {
      for j := 0 to |outputs|
        invariant forall l :: 0 <= l < j ==> sz <= outputs[l].Len()
      {
        if outputs[j].Len() < sz {
          return false;
        }
      }
      ok := true;
    }

    /** `Reconstruct` on shards that are enough, with data missing: fill it in. */
    method Decode(shards: array<Slice>, sz: nat, missing: seq<nat>, ghost c: Shards) returns (r: FecResult)
      requires Valid() && shards.Length == n && AllValid(shards[..]) && c == Resized(shards[..], sz)
      requires Decodable(c, k, sz) && missing == Missing(c, k)
      modifies shards
      ensures r == if AllNil(old(shards[..]), missing) && Reaches(old(shards[..]), sz, Chosen(c, k)) then Ok else Panic
      ensures r == Ok ==> FilledIn(old(shards[..]), shards[..], c, sz)
    {
      hide Tables.Valid, Rows, ContentsOf, Missing, LeftInverse, PickRows, Chosen, Generator, Pick;
      hide Buffers, Stored, AllNil, FilledIn, Resized, Reaches, AreCut, StartWith;
      ghost var before := shards[..];
      ResizedMarks(before, sz);
      MissingFacts(before, c, missing);
      var inputs, indices, matrix := Gather(shards, sz, c);
      ghost var w := Pick(c, indices);
      var outputs := AllocateMissing(shards, missing, sz);
      BuffersAreLong(outputs, sz);
      var cut, reach := CutInputs(inputs, sz);
      var long := OutputsReach(outputs, sz);
      if !reach || !long {
        return Panic;
      }
      CutFacts(inputs, cut, w, sz);
      assert BufsOf(outputs) !! BufsOf(before) && matrix !in BufsOf(outputs);
      DecodeInto(cut, indices, matrix, outputs, sz, missing, c, before, shards[..]);
      r := Ok;
    }

    /**
      `Reconstruct`. With the right number of slots and at least k shards it fills in
      every missing data shard from the first sz bytes of the chosen shards' buffers, sz
      being the size of the first shard present. It panics if a missing one is an empty
      slice that is not nil, although its comment allows it, or a chosen buffer is shorter.
    */
    method Reconstruct(shards: array<Slice>) returns (r: FecResult, ghost sz: nat)
      requires Valid() && AllValid(shards[..])
      modifies shards
      ensures sz == SizeOf(old(ContentsOf(shards[..]))) && r == old(Outcome(shards[..]))
      ensures r == Ok ==>
        Decodable(old(Resized(shards[..], sz)), k, sz) && FilledIn(old(shards[..]), shards[..], old(Resized(shards[..], sz)), sz)
      ensures r == TooFewShards ==> shards[..] == old(shards[..])
    {
      hide Tables.Valid, Rows, Generator, ContentsOf, CountPresent, Resized, FilledIn, SizeOf, Outcome, Decodable, Missing, Chosen,
           Reaches, AllNil;
      ghost var before, c := shards[..], ContentsOf(shards[..]);
      ghost var d := Resized(before, SizeOf(c));
      OutcomeTooFew(before);
      OutcomeEnough(before, c, d, SizeOf(c));
      if shards.Length != n {
        return TooFewShards, SizeOf(c);
      }
      var available, size := CountShards(shards, c);
      sz := size;
      if available < k {
        return TooFewShards, sz;
      }
      r := FillIn(shards, size, d);
    }

    /** The rest of `Reconstruct`, with enough shards. */
    method FillIn(shards: array<Slice>, sz: nat, ghost d: Shards) returns (r: FecResult)
      requires Valid() && shards.Length == n && AllValid(shards[..]) && d == Resized(shards[..], sz) && Decodable(d, k, sz)
      requires forall i :: 0 <= i < n ==> (d[i] == [] <==> shards[i].Len() == 0)
      modifies shards
      ensures r ==
        if Missing(d, k) == [] || (AllNil(old(shards[..]), Missing(d, k)) && Reaches(old(shards[..]), sz, Chosen(d, k))) then Ok
        else Panic
      ensures r == Ok ==> FilledIn(old(shards[..]), shards[..], d, sz)
    {
      hide Tables.Valid, Rows, Generator, ContentsOf, CountPresent, Resized, FilledIn, Missing, Chosen, Reaches, AllNil, DataComplete;
      var missing := FindMissing(shards, d);
      if missing == [] {
        NothingMissing(shards[..], d, sz);
        return Ok;
      }
      r := Decode(shards, sz, missing, d);
    }

    lemma {:induction false} OutcomeTooFew(shards: seq<Slice>)
      requires AllValid(shards) && 1 <= k <= n
      ensures |shards| != n || CountPresent(ContentsOf(shards), 0, |shards|) < k ==> Outcome(shards) == TooFewShards
    {}

    lemma {:induction false} OutcomeEnough(shards: seq<Slice>, c: Shards, d: Shards, sz: nat)
      requires AllValid(shards) && 1 <= k <= n <= 255 && c == ContentsOf(shards) && d == Resized(shards, sz) && sz == SizeOf(c)
      ensures |shards| == n && CountPresent(c, 0, n) >= k ==>
        && Decodable(d, k, sz) && (forall i :: 0 <= i < n ==> (d[i] == [] <==> shards[i].Len() == 0))
        && Outcome(shards) ==
             if Missing(d, k) == [] || (AllNil(shards, Missing(d, k)) && Reaches(shards, sz, Chosen(d, k))) then Ok else Panic
    {
      hide ContentsOf, CountPresent, Resized, SizeOf, Chosen, Reaches, AllNil, Missing, EmptyDataIsNil, DataComplete;
      if |shards| == n && CountPresent(c, 0, n) >= k {
        OutcomeParts(shards, c, d, sz);
      }
    }

    lemma {:induction false} OutcomeParts(shards: seq<Slice>, c: Shards, d: Shards, sz: nat)
      requires AllValid(shards) && 1 <= k <= n <= 255 && c == ContentsOf(shards) && d == Resized(shards, sz) && sz == SizeOf(c)
      requires |shards| == n && CountPresent(c, 0, n) >= k
      ensures Decodable(d, k, sz) && (forall i :: 0 <= i < n ==> (d[i] == [] <==> shards[i].Len() == 0))
      ensures Outcome(shards) ==
        if Missing(d, k) == [] || (AllNil(shards, Missing(d, k)) && Reaches(shards, sz, Chosen(d, k))) then Ok else Panic
    {
      hide ContentsOf, CountPresent, Resized, SizeOf, Chosen, Reaches, AllNil, Missing, EmptyDataIsNil, DataComplete;
      SizeIsPositive(c);
      ResizedMarks(shards, sz);
      CountSame(c, d, n);
      EmptyIsMissing(shards, d);
      if Missing(d, k) == [] {
        NothingMissing(shards, d, sz);
      } else {
        SomethingMissing(shards, d);
      }
    }

    /** What `Reconstruct` returns for these slots. */
    ghost function Outcome(shards: seq<Slice>): FecResult
      requires AllValid(shards) && 1 <= k
      reads BufsOf(shards)
    {
      var c := ContentsOf(shards);
      if |c| != n || n < k || CountPresent(c, 0, |c|) < k then TooFewShards
      else if DataComplete(shards) then Ok
      else
        SizeIsPositive(c);
        ResizedMarks(shards, SizeOf(c));
        CountSame(c, Resized(shards, SizeOf(c)), |c|);
        if EmptyDataIsNil(shards) && Reaches(shards, SizeOf(c), Chosen(Resized(shards, SizeOf(c)), k)) then Ok
        else Panic
    }

    /** No data slot is empty. */
    ghost predicate DataComplete(shards: seq<Slice>)
    {
      forall i :: 0 <= i < k && i < |shards| ==> shards[i].Len() > 0
    }

    /** No data slot holds an empty slice other than nil. */
    ghost predicate EmptyDataIsNil(shards: seq<Slice>)
    {
      forall i :: 0 <= i < k && i < |shards| && shards[i].Len() == 0 ==> shards[i] == Nil
    }

    lemma {:induction false} EmptyIsMissing(shards: seq<Slice>, c: Shards)
      requires k <= |c| == |shards| && forall i :: 0 <= i < |c| ==> (c[i] == [] <==> shards[i].Len() == 0)
      ensures AllNil(shards, Missing(c, k)) <==> EmptyDataIsNil(shards)
    {
      MissingExactly(c, k);
      if AllNil(shards, Missing(c, k)) {
        forall i | 0 <= i < k && shards[i].Len() == 0 ensures shards[i] == Nil {
          assert !Present(c, i);
          var j :| 0 <= j < |Missing(c, k)| && Missing(c, k)[j] == i;
        }
      }
    }

    lemma {:induction false} NothingMissing(shards: seq<Slice>, d: Shards, sz: nat)
      requires Decodable(d, k, sz) && |d| == |shards| && AllValid(shards) && Missing(d, k) == []
      requires forall i :: 0 <= i < |d| ==> (d[i] == [] <==> shards[i].Len() == 0)
      ensures DataComplete(shards) && FilledIn(shards, shards, d, sz)
    {
      hide Rebuilt;
      MissingExactly(d, k);
      forall i | 0 <= i < k ensures Present(d, i) && shards[i].Len() > 0 {
        assert Present(d, i);
      }
    }

    lemma {:induction false} SomethingMissing(shards: seq<Slice>, d: Shards)
      requires k <= |d| == |shards| && Missing(d, k) != []
      requires forall i :: 0 <= i < |d| ==> (d[i] == [] <==> shards[i].Len() == 0)
      ensures !DataComplete(shards)
    {
      MissingExactly(d, k);
      var i := Missing(d, k)[0];
      assert shards[i].Len() == 0;
    }

    /** With shards of one size, all of each is used. */
    lemma {:induction false} OneSizeResized(shards: seq<Slice>)
      requires AllValid(shards) && OneSize(shards) && k <= |shards| && CountPresent(ContentsOf(shards), 0, |shards|) >= k >= 1
      ensures var c := ContentsOf(shards);
        Resized(shards, SizeOf(c)) == c && Reaches(shards, SizeOf(c), Chosen(c, k))
    {
      var c := ContentsOf(shards);
      SizeIsPositive(c);
      var q := NextPresent(c, 0);
      assert shards[q].Len() == |c[q]|;
      ChosenFacts(c, k);
      forall i | 0 <= i < |shards| ensures Resized(shards, SizeOf(c))[i] == c[i] {
        assert c[i] == shards[i].Contents();
      }
      forall i | 0 <= i < k ensures ReachesTo(shards[Chosen(c, k)[i]], SizeOf(c)) {
        assert Present(c, Chosen(c, k)[i]);
      }
    }

    /** For shards of one size: it panics exactly when a missing data slot is empty but not nil. */
    lemma {:induction false} OutcomeOfOneSize(shards: seq<Slice>)
      requires AllValid(shards) && OneSize(shards) && 1 <= k <= n <= 255
      ensures Outcome(shards) ==
        if |shards| != n || CountPresent(ContentsOf(shards), 0, |shards|) < k then TooFewShards
        else if EmptyDataIsNil(shards) then Ok
        else Panic
    {
      hide Outcome, Chosen, Resized, SizeOf, Reaches, Missing, AllNil, CountPresent, ContentsOf, OneSize;
      OutcomeTooFew(shards);
      var c := ContentsOf(shards);
      if |shards| == n && CountPresent(c, 0, |shards|) >= k {
        OneSizeResized(shards);
        OutcomeParts(shards, c, c, SizeOf(c));
        EmptyIsMissing(shards, c);
        assert Missing(c, k) == [] ==> AllNil(shards, Missing(c, k)) by {
          NoneNil(shards);
        }
      }
    }

    lemma {:induction false} NoneNil(shards: seq<Slice>)
      ensures AllNil(shards, [])
    {}

    /** And the result is the reconstruction of their contents. */
    lemma {:induction false} FilledInIsReconstructed(before: seq<Slice>, after: seq<Slice>, c: Shards, sz: nat)
      requires AllValid(before) && Decodable(c, k, sz) && FilledIn(before, after, c, sz) && c == ContentsOf(before)
      ensures AllValid(after) && ContentsOf(after) == Reconstructed(c, k, sz)
    {
      hide Rebuilt;
      forall i | 0 <= i < |c| ensures ContentsOf(after)[i] == Reconstructed(c, k, sz)[i] {
        assert c[i] == before[i].Contents();
      }
    }

    /** The conditions matter: with one data shard missing, an empty slice panics where nil is filled in... */
    lemma {:induction false} EmptySlicePanics(e: array<byte>, p: array<byte>)
      requires Valid() && k == 1 && n == 2 && p.Length > 0
      ensures var bad, good := [Bytes(e, 0), Bytes(p, 1)], [Nil, Bytes(p, 1)];
        && AllValid(bad) && Outcome(bad) == Panic
        && AllValid(good) && Outcome(good) == Ok
    {
      hide ContentsOf;
      var bad, good := [Bytes(e, 0), Bytes(p, 1)], [Nil, Bytes(p, 1)];
      assert bad[0].Len() == 0 && bad[0] != Nil && good[0] == Nil;
      OutcomeOfOneSize(bad);
      OutcomeOfOneSize(good);
      ParityOnly(ContentsOf(bad));
      ParityOnly(ContentsOf(good));
    }

    /** ...and a chosen shard whose buffer is shorter than the first shard is sliced out of range. */
    lemma {:induction false} ShortBufferPanics(a: array<byte>, b: array<byte>)
      requires Valid() && k == 2 && n == 3 && a.Length == 2 && b.Length == 1
      ensures var shards := [Bytes(a, 2), Nil, Bytes(b, 1)]; AllValid(shards) && Outcome(shards) == Panic
    {
      hide ContentsOf, Resized, CountPresent, Chosen, Missing, AllNil, Outcome;
      var shards := [Bytes(a, 2), Nil, Bytes(b, 1)];
      var c, d := ContentsOf(shards), Resized(shards, 2);
      assert |c[0]| == shards[0].Len() == 2 && |c[1]| == shards[1].Len() && |c[2]| == shards[2].Len() == 1;
      TwoOfThree(c);
      OutcomeParts(shards, c, d, 2);
      ChosenFacts(d, k);
      MissingExactly(d, k);
      assert d[0] == ReadTo(shards[0], 2) && d[1] == ReadTo(shards[1], 2);
      assert Chosen(d, k)[1] == 2 && !ReachesTo(shards[2], 2);
    }

    lemma {:induction false} TwoOfThree(c: Shards)
      requires |c| == 3 && c[0] != [] && c[1] == [] && c[2] != []
      ensures CountPresent(c, 0, 3) == 2 && SizeOf(c) == |c[0]|
    {
      assert CountPresent(c, 0, 3) == CountPresent(c, 0, 2) + 1;
      assert CountPresent(c, 0, 2) == CountPresent(c, 0, 1);
      assert CountPresent(c, 0, 1) == CountPresent(c, 0, 0) + 1;
    }

    lemma {:induction false} ParityOnly(c: Shards)
      requires |c| == 2 && c[0] == [] && |c[1]| == 1
      ensures CountPresent(c, 0, 2) == 1
    {
      assert CountPresent(c, 0, 1) == CountPresent(c, 0, 0);
    }
  }

  /** Distinct buffers for shards of sz bytes. */
  ghost predicate Buffers(outputs: seq<Slice>, sz: nat)
  {
    && AllValid(outputs)
    && (forall j :: 0 <= j < |outputs| ==> outputs[j].Bytes? && outputs[j].len == sz)
    && (forall j, l :: 0 <= j < l < |outputs| ==> outputs[j].buf != outputs[l].buf)
  }

  /** The first cnt buffers hold what is wanted. */
  ghost predicate HoldFirst(outputs: seq<Slice>, want: seq<Vec>, cnt: nat)
    reads BufsOf(outputs)
  {
    && AllValid(outputs) && cnt <= |outputs| == |want|
    && forall j :: 0 <= j < cnt ==> outputs[j].Bytes? && outputs[j].buf[..outputs[j].len] == want[j]
  }

  lemma {:induction false} BuffersAreLong(outputs: seq<Slice>, sz: nat)
    ensures Buffers(outputs, sz) ==> forall j :: 0 <= j < |outputs| ==> outputs[j].Len() == sz
  {}

  lemma {:induction false} HoldNone(outputs: seq<Slice>, want: seq<Vec>, sz: nat)
    requires Buffers(outputs, sz) && |outputs| == |want|
    ensures HoldFirst(outputs, want, 0)
  {}

  /** The combinations the decoder computes for the missing shards. */
  ghost function DecodedRows(shards: Shards, m: Mat, missing: seq<nat>, sz: nat): (v: seq<Vec>)
    requires AllOfSize(shards, sz) && IsMat(m, |shards|, |shards|)
    ensures |v| == |missing|
  {
    seq(|missing|, j requires 0 <= j < |missing| =>
      if missing[j] < |m| then Combination(shards, m[missing[j]], sz, |m|) else [])
  }

  lemma {:induction false} DecodedRowIs(shards: Shards, m: Mat, missing: seq<nat>, sz: nat, j: nat)
    requires AllOfSize(shards, sz) && IsMat(m, |shards|, |shards|) && j < |missing| && missing[j] < |m|
    ensures DecodedRows(shards, m, missing, sz)[j] == Combination(shards, m[missing[j]], sz, |m|)
  {
  }

  predicate Ascending(missing: seq<nat>, n: nat)
  {
    && (forall j :: 0 <= j < |missing| ==> missing[j] < n)
    && (forall j, l :: 0 <= j < l < |missing| ==> missing[j] < missing[l])
  }

  ghost predicate AllNil(shards: seq<Slice>, missing: seq<nat>)
  {
    forall j :: 0 <= j < |missing| ==> missing[j] < |shards| && shards[missing[j]] == Nil
  }

  /** Only the missing shards have been replaced, by the outputs. */
  ghost predicate Stored(before: seq<Slice>, after: seq<Slice>, missing: seq<nat>, outputs: seq<Slice>)
  {
    && |before| == |after| && |missing| == |outputs|
    && (forall j :: 0 <= j < |missing| ==> missing[j] < |after| && after[missing[j]] == outputs[j])
    && (forall i :: 0 <= i < |after| && i !in missing ==> after[i] == before[i])
  }

  lemma {:induction false} CombinationIsCodeShard(k: nat, data: Shards, sz: nat, r: nat)
    requires |data| == k <= 255 && AllOfSize(data, sz)
    ensures Combination(data, GeneratorRow(k, r), sz, k) == CodeShard(k, data, sz, r)
  {
    hide GeneratorRow, DotN;
  }
}
