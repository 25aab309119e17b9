/**
  The Reed-Solomon code on shards: what a codeword is, which shards the decoder
  picks, what it computes from them, and why that gives the data back.
*/
module ReedSolomon {
  import opened Gf256
  import opened Polynomials
  import opened Matrices
  import opened Vandermonde

  /** Shards are byte sequences; a missing shard is empty. */
  type Shards = seq<Vec>

  predicate AllOfSize(shards: Shards, sz: nat)
  {
    forall i :: 0 <= i < |shards| ==> |shards[i]| == sz
  }

  /** Byte b of every shard. */
  function ByteColumn(shards: Shards, b: nat): (v: Vec)
    requires forall i :: 0 <= i < |shards| ==> b < |shards[i]|
    ensures |v| == |shards|
  {
    seq(|shards|, i requires 0 <= i < |shards| => shards[i][b])
  }

  /** Shard r of the codeword of k equally long data shards. */
  ghost function CodeShard(k: nat, data: Shards, sz: nat, r: nat): (v: Vec)
    requires |data| == k <= 255 && AllOfSize(data, sz)
    ensures |v| == sz
  {
    seq(sz, b requires 0 <= b < sz => Dot(GeneratorRow(k, r), ByteColumn(data, b)))
  }

  /** The code is systematic. */
  lemma {:induction false} DataShardsAreThemselves(k: nat, data: Shards, sz: nat, r: nat)
    requires |data| == k <= 255 && AllOfSize(data, sz) && r < k
    ensures CodeShard(k, data, sz, r) == data[r]
  {
    hide DotN;
    forall b | 0 <= b < sz ensures CodeShard(k, data, sz, r)[b] == data[r][b] {
      GeneratorIsSystematic(k, r);
      DotUnit(ByteColumn(data, b), r, k);
    }
  }

  /** The parity byte of the data bytes a and b is the byte 3a + 2b of the field. */
  lemma {:induction false} ParityOfTwo(a: byte, b: byte)
    ensures CodeShard(2, [[a], [b]], 1, 2) == [Add(Mul(3, a), Mul(2, b))]
  {
    GeneratorOfTwo();
    assert ByteColumn([[a], [b]], 0) == [a, b];
    TwoProducts([3, 2], [a, b]);
  }

  // ----------------------------------------------------- choosing k shards to decode

  predicate Present(shards: Shards, i: nat)
    requires i < |shards|
  {
    shards[i] != []
  }

  function CountPresent(shards: Shards, lo: nat, hi: nat): nat
    requires lo <= hi <= |shards|
    decreases hi - lo
  {
    if lo == hi then 0 else CountPresent(shards, lo, hi - 1) + (if Present(shards, hi - 1) then 1 else 0)
  }

  lemma {:induction false} CountSplit(shards: Shards, lo: nat, mid: nat, hi: nat)
    requires lo <= mid <= hi <= |shards|
    ensures CountPresent(shards, lo, hi) == CountPresent(shards, lo, mid) + CountPresent(shards, mid, hi)
    ensures CountPresent(shards, lo, mid) <= mid - lo
    decreases hi - lo
  {
    if mid < hi {
      CountSplit(shards, lo, mid, hi - 1);
    } else if lo < mid {
      CountSplit(shards, lo, mid - 1, mid - 1);
    }
  }

  lemma {:induction false} CountAfterStore(frags: Shards, f: nat, body: Vec, hi: nat)
    requires hi <= |frags| && f < |frags| && frags[f] == [] && body != []
    ensures CountPresent(frags[f := body], 0, hi) == CountPresent(frags, 0, hi) + (if f < hi then 1 else 0)
  {
    if hi > 0 {
      CountAfterStore(frags, f, body, hi - 1);
    }
  }

  /** The first shard present at p or later. */
  function NextPresent(shards: Shards, p: nat): (q: nat)
    requires p <= |shards|
    ensures p <= q <= |shards|
    ensures q < |shards| ==> Present(shards, q)
    ensures forall i :: p <= i < q ==> !Present(shards, i)
    decreases |shards| - p
  {
    if p == |shards| || Present(shards, p) then p else NextPresent(shards, p + 1)
  }

  lemma {:induction false} NextPresentCounts(shards: Shards, p: nat)
    requires p <= |shards| && CountPresent(shards, p, |shards|) > 0
    ensures var q := NextPresent(shards, p);
      q < |shards| && CountPresent(shards, q + 1, |shards|) == CountPresent(shards, p, |shards|) - 1
    decreases |shards| - p
  {
    CountSplit(shards, p, p + 1, |shards|);
    if !Present(shards, p) {
      NextPresentCounts(shards, p + 1);
    }
  }

  /** There are as many parity shards from p on as data shards missing from i on. */
  predicate Enough(shards: Shards, k: nat, i: nat, p: nat)
    requires i <= k <= p <= |shards|
  {
    k - i <= CountPresent(shards, i, k) + CountPresent(shards, p, |shards|)
  }

  lemma {:induction false} EnoughStep(shards: Shards, k: nat, i: nat, p: nat)
    requires i < k <= p <= |shards| && Enough(shards, k, i, p)
    ensures Present(shards, i) ==> Enough(shards, k, i + 1, p)
    ensures !Present(shards, i) ==>
      NextPresent(shards, p) < |shards| && Enough(shards, k, i + 1, NextPresent(shards, p) + 1)
  {
    CountSplit(shards, i, i + 1, k);
    CountSplit(shards, i + 1, k, k);
    if !Present(shards, i) {
      NextPresentCounts(shards, p);
    }
  }

  /** The indices chosen for positions i..k: a present data shard stays in place. */
  function Choose(shards: Shards, k: nat, i: nat, p: nat): (idx: seq<nat>)
    requires i <= k <= p <= |shards| && Enough(shards, k, i, p)
    ensures |idx| == k - i
    decreases k - i
  {
    if i == k then []
    else
      EnoughStep(shards, k, i, p);
      if Present(shards, i) then [i] + Choose(shards, k, i + 1, p)
      else
        var q := NextPresent(shards, p);
        [q] + Choose(shards, k, i + 1, q + 1)
  }

  lemma {:induction false} ChooseFacts(shards: Shards, k: nat, i: nat, p: nat)
    requires i <= k <= p <= |shards| && Enough(shards, k, i, p)
    ensures ChosenWell(shards, i, p, Choose(shards, k, i, p))
    decreases k - i
  {
    if i < k {
      hide CountPresent, Enough;
      EnoughStep(shards, k, i, p);
      if Present(shards, i) {
        ChooseFacts(shards, k, i + 1, p);
        ChosenPrepended(shards, i, p, p, i, Choose(shards, k, i + 1, p));
      } else {
        var q := NextPresent(shards, p);
        ChooseFacts(shards, k, i + 1, q + 1);
        ChosenPrepended(shards, i, p, q + 1, q, Choose(shards, k, i + 1, q + 1));
      }
    }
  }

  /** What holds of the indices chosen for positions from i on, with parity shards from p on. */
  predicate ChosenWell(shards: Shards, i: nat, p: nat, idx: seq<nat>)
    requires i + |idx| <= |shards|
  {
    && ValidRows(idx, |shards|)
    && (forall j :: 0 <= j < |idx| ==> Present(shards, idx[j]))
    && (forall j :: 0 <= j < |idx| ==> if Present(shards, i + j) then idx[j] == i + j else p <= idx[j])
  }

  lemma {:induction false} ChosenPrepended(shards: Shards, i: nat, p: nat, p': nat, h: nat, rest: seq<nat>)
    requires i + 1 + |rest| <= p <= p' <= |shards| && ChosenWell(shards, i + 1, p', rest) && h < |shards| && Present(shards, h)
    requires if Present(shards, i) then h == i else p <= h < p'
    ensures ChosenWell(shards, i, p, [h] + rest)
  {
    var idx := [h] + rest;
    forall j | 0 <= j < |idx|
      ensures idx[j] < |shards| && Present(shards, idx[j])
      ensures if Present(shards, i + j) then idx[j] == i + j else p <= idx[j]
    {
      if j > 0 {
        assert idx[j] == rest[j - 1] && i + j == i + 1 + (j - 1);
      }
    }
    forall j | 0 < j < |idx| ensures idx[j] != h {
      assert idx[j] == rest[j - 1] && i + j == i + 1 + (j - 1);
    }
  }

  lemma {:induction false} EnoughInitially(shards: Shards, k: nat)
    requires k <= |shards| && CountPresent(shards, 0, |shards|) >= k
    ensures Enough(shards, k, 0, k)
  {
    CountSplit(shards, 0, k, |shards|);
  }

  function Chosen(shards: Shards, k: nat): (idx: seq<nat>)
    requires k <= |shards| && CountPresent(shards, 0, |shards|) >= k
    ensures |idx| == k
  {
    EnoughInitially(shards, k);
    Choose(shards, k, 0, k)
  }

  /** k distinct shards that arrived, every data shard among them at its own place. */
  lemma {:induction false} ChosenFacts(shards: Shards, k: nat)
    requires k <= |shards| && CountPresent(shards, 0, |shards|) >= k
    ensures var idx := Chosen(shards, k);
      && ValidRows(idx, |shards|)
      && (forall j :: 0 <= j < k ==> Present(shards, idx[j]))
      && (forall j :: 0 <= j < k ==> if Present(shards, j) then idx[j] == j else k <= idx[j])
  {
    EnoughInitially(shards, k);
    ChooseFacts(shards, k, 0, k);
  }

  // ------------------------------------------------------------------ reconstruction

  /** The data vector whose codeword has entries w at the given rows. */
  ghost function Solve(k: nat, rows: seq<nat>, w: Vec): (v: Vec)
    requires k <= 255 && |rows| == k == |w| && ValidRows(rows, 256)
    ensures |v| == k
  {
    var xs := RowPoints(rows);
    seq(k, j requires 0 <= j < k => Eval(Interpolate(xs, w), Point(j)))
  }

  ghost function RowPoints(rows: seq<nat>): (xs: seq<byte>)
    requires ValidRows(rows, 256)
    ensures |xs| == |rows| && Distinct(xs)
    ensures forall i :: 0 <= i < |xs| ==> xs[i] == Point(rows[i])
  {
    var xs: seq<byte> := seq(|rows|, i requires 0 <= i < |rows| => Point(rows[i]));
    assert Distinct(xs) by {
      forall i, j | 0 <= i < j < |rows| ensures xs[i] != xs[j] {
        PointsApart(rows[i], rows[j]);
      }
    }
    xs
  }

  /** `Solve` solves the system of the chosen generator rows... */
  lemma {:induction false} SolveSolves(k: nat, rows: seq<nat>, w: Vec)
    requires k <= 255 && |rows| == k == |w| && ValidRows(rows, 256)
    ensures Apply(PickRows(k, rows), Solve(k, rows, w)) == w
  {
    hide Eval, Combine, GeneratorRow, Dot, Interpolate;
    var xs := RowPoints(rows);
    var p := Interpolate(xs, w);
    var v := Solve(k, rows, w);
    PointsDistinct(k);
    var q := Interpolate(Points(k), v);
    forall j | 0 <= j < k ensures Eval(q, Points(k)[j]) == Eval(p, Points(k)[j]) {
      InterpolateHits(Points(k), v, j);
    }
    EqualAtPoints(q, p, Points(k));
    forall i | 0 <= i < k ensures Dot(GeneratorRow(k, rows[i]), v) == w[i] {
      GeneratorInterpolates(k, rows[i], v);
      InterpolateHits(xs, w, i);
    }
  }

  /** ... and any left inverse of those rows computes it. */
  lemma {:induction false} InverseSolves(k: nat, rows: seq<nat>, d: Mat, w: Vec)
    requires k <= 255 && |rows| == k == |w| && ValidRows(rows, 256)
    requires IsMat(d, k, k) && LeftInverse(d, PickRows(k, rows))
    ensures Apply(d, w) == Solve(k, rows, w)
  {
    SolveSolves(k, rows, w);
  }

  /** Data solves the system its own codeword sets up. */
  lemma {:induction false} SolveOfCodeword(k: nat, rows: seq<nat>, v: Vec)
    requires k <= 255 && |rows| == k == |v| && ValidRows(rows, 256)
    ensures Solve(k, rows, Apply(PickRows(k, rows), v)) == v
  {
    hide Eval, Combine, GeneratorRow, Dot, Interpolate;
    var w := Apply(PickRows(k, rows), v);
    var xs := RowPoints(rows);
    PointsDistinct(k);
    var q := Interpolate(Points(k), v);
    var p := Interpolate(xs, w);
    forall i | 0 <= i < k ensures Eval(q, xs[i]) == Eval(p, xs[i]) {
      GeneratorInterpolates(k, rows[i], v);
      InterpolateHits(xs, w, i);
    }
    EqualAtPoints(q, p, xs);
    forall j | 0 <= j < k ensures Solve(k, rows, w)[j] == v[j] {
      InterpolateHits(Points(k), v, j);
    }
  }

  /**
    k - 1 shards are never enough: there is data that they do not show, but any other
    given shard does.
  */
  lemma {:induction false} FewerShardsAreNotEnough(k: nat, rows: seq<nat>, r: nat) returns (v: Vec)
    requires 1 <= k <= 255 && |rows| == k - 1 && ValidRows(rows + [r], 256)
    ensures |v| == k && Dot(GeneratorRow(k, r), v) == 1
    ensures forall i :: 0 <= i < k - 1 ==> Dot(GeneratorRow(k, rows[i]), v) == 0
  {
    hide Dot, GeneratorRow, Solve;
    var all, w: Vec := rows + [r], Zeros(k - 1) + [1];
    v := Solve(k, all, w);
    SolveSolves(k, all, w);
    forall i | 0 <= i < k ensures Dot(GeneratorRow(k, all[i]), v) == w[i] {
      assert Apply(PickRows(k, all), v)[i] == Dot(GeneratorRow(k, all[i]), v);
    }
    assert all[k - 1] == r && w[k - 1] == 1;
    forall i | 0 <= i < k - 1 ensures Dot(GeneratorRow(k, rows[i]), v) == 0 {
      assert all[i] == rows[i] && w[i] == 0;
    }
  }

  function Pick(shards: Shards, idx: seq<nat>): (t: Shards)
    requires forall i :: 0 <= i < |idx| ==> idx[i] < |shards|
    ensures |t| == |idx|
  {
    seq(|idx|, i requires 0 <= i < |idx| => shards[idx[i]])
  }

  /** Enough shards, and all that are present have one size. */
  predicate Decodable(shards: Shards, k: nat, sz: nat)
  {
    && 1 <= k <= |shards| <= 255 && sz > 0
    && CountPresent(shards, 0, |shards|) >= k
    && forall i :: 0 <= i < |shards| ==> shards[i] == [] || |shards[i]| == sz
  }

  /** Data shard i as the decoder computes it from the chosen shards. */
  ghost function Rebuilt(shards: Shards, k: nat, sz: nat, i: nat): (v: Vec)
    requires Decodable(shards, k, sz) && i < k
    ensures |v| == sz
  {
    ChosenFacts(shards, k);
    var idx := Chosen(shards, k);
    seq(sz, b requires 0 <= b < sz => Solve(k, idx, ByteColumn(Pick(shards, idx), b))[i])
  }

  /** The shards after `Reconstruct`: every missing data shard is filled in. */
  ghost function Reconstructed(shards: Shards, k: nat, sz: nat): (t: Shards)
    requires Decodable(shards, k, sz)
    ensures |t| == |shards|
  {
    seq(|shards|, i requires 0 <= i < |shards| =>
      if i < k && !Present(shards, i) then Rebuilt(shards, k, sz, i) else shards[i])
  }

  /** The shards that arrived are shards of the codeword of `data`. */
  ghost predicate Erasure(shards: Shards, k: nat, data: Shards, sz: nat)
  {
    && |data| == k <= 255 && AllOfSize(data, sz)
    && forall i :: 0 <= i < |shards| ==> shards[i] == [] || shards[i] == CodeShard(k, data, sz, i)
  }

  /** Whatever k or more shards of a codeword arrive, the data is reconstructed. */
  lemma {:induction false} AnyKShardsGiveTheData(shards: Shards, k: nat, data: Shards, sz: nat)
    requires Decodable(shards, k, sz) && Erasure(shards, k, data, sz)
    ensures forall i :: 0 <= i < k ==> Reconstructed(shards, k, sz)[i] == data[i]
  {
    forall i | 0 <= i < k ensures Reconstructed(shards, k, sz)[i] == data[i] {
      if Present(shards, i) {
        DataShardsAreThemselves(k, data, sz, i);
      } else {
        forall b | 0 <= b < sz ensures Rebuilt(shards, k, sz, i)[b] == data[i][b] {
          RebuiltByte(shards, k, data, sz, i, b);
        }
        assert Rebuilt(shards, k, sz, i) == data[i];
      }
    }
  }

  lemma {:induction false} RebuiltByte(shards: Shards, k: nat, data: Shards, sz: nat, i: nat, b: nat)
    requires Decodable(shards, k, sz) && Erasure(shards, k, data, sz) && i < k && b < sz
    ensures Rebuilt(shards, k, sz, i)[b] == data[i][b]
  {
    hide GeneratorRow, Dot, Solve, Chosen;
    ChosenFacts(shards, k);
    var idx := Chosen(shards, k);
    var v := ByteColumn(data, b);
    assert ByteColumn(Pick(shards, idx), b) == Apply(PickRows(k, idx), v) by {
      forall j | 0 <= j < k ensures shards[idx[j]][b] == Dot(GeneratorRow(k, idx[j]), v) {
        assert Present(shards, idx[j]);
        assert shards[idx[j]] == CodeShard(k, data, sz, idx[j]);
      }
    }
    SolveOfCodeword(k, idx, v);
  }
}
