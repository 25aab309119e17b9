/** Vectors and matrices over GF(2^8), as sequences and sequences of rows. */
module Matrices {
  import opened Gf256
  import opened Polynomials

  type Vec = seq<byte>
  type Mat = seq<Vec>

  predicate IsMat(m: Mat, rows: nat, cols: nat)
  {
    |m| == rows && forall r :: 0 <= r < rows ==> |m[r]| == cols
  }

  /** The sum of the first n products. */
  function DotN(u: Vec, v: Vec, n: nat): byte
    requires n <= |u| && n <= |v|
  {
    if n == 0 then 0 else Add(DotN(u, v, n - 1), Mul(u[n - 1], v[n - 1]))
  }

  function Dot(u: Vec, v: Vec): byte
    requires |u| == |v|
  {
    DotN(u, v, |u|)
  }

  function Apply(m: Mat, v: Vec): (w: Vec)
    requires IsMat(m, |m|, |v|)
    ensures |w| == |m|
  {
    seq(|m|, r requires 0 <= r < |m| => Dot(m[r], v))
  }

  function Zeros(k: nat): (v: Vec)
    ensures |v| == k
  {
    seq(k, _ => 0)
  }

  function Unit(k: nat, i: nat): (v: Vec)
    ensures |v| == k
  {
    seq(k, j => if j == i then 1 else 0)
  }

  /** `gfAddMul` on whole rows. */
  function AddMul(dst: Vec, src: Vec, c: byte): (v: Vec)
    requires |dst| == |src|
    ensures |v| == |dst|
  {
    seq(|dst|, i requires 0 <= i < |dst| => Add(dst[i], Mul(c, src[i])))
  }

  function SwapAt<T>(s: seq<T>, i: nat, j: nat): (t: seq<T>)
    requires i < |s| && j < |s|
    ensures |t| == |s|
  {
    s[i := s[j]][j := s[i]]
  }

  /** A square matrix that maps no vector but zero to zero. */
  ghost predicate Nonsingular(m: Mat)
    requires IsMat(m, |m|, |m|)
  {
    forall v: Vec :: |v| == |m| && Apply(m, v) == Zeros(|m|) ==> v == Zeros(|m|)
  }

  /** Every vector can be recovered from its image under `m` by applying `d`. */
  ghost predicate LeftInverse(d: Mat, m: Mat)
    requires IsMat(m, |m|, |m|) && IsMat(d, |m|, |m|)
  {
    forall v: Vec :: |v| == |m| ==> Apply(d, Apply(m, v)) == v
  }

  // ------------------------------------------------------------------ dot products

  /** `gfAddMul` is linear in the source and in the factor. */
  lemma {:induction false} AddMulLinear(d: Vec, x: Vec, y: Vec, c: byte, e: byte)
    requires |d| == |x| == |y|
    ensures AddMul(AddMul(d, x, c), y, c) == AddMul(d, AddMul(x, y, 1), c)
    ensures AddMul(AddMul(d, x, c), x, e) == AddMul(d, x, Add(c, e))
  {
    hide Add, Mul;
    forall i | 0 <= i < |d|
      ensures AddMul(AddMul(d, x, c), y, c)[i] == AddMul(d, AddMul(x, y, 1), c)[i]
      ensures AddMul(AddMul(d, x, c), x, e)[i] == AddMul(d, x, Add(c, e))[i]
    {
      AddLaws(d[i], Mul(c, x[i]), Mul(c, y[i]));
      OneTimes(y[i]);
      MulDistrib(c, x[i], y[i]);
      AddLaws(d[i], Mul(c, x[i]), Mul(e, x[i]));
      MulComm(c, x[i]);
      MulComm(e, x[i]);
      MulDistrib(x[i], c, e);
      MulComm(x[i], Add(c, e));
    }
  }

  lemma {:induction false} ZeroProducts(a: byte)
    ensures Mul(a, 0) == 0 && Mul(0, a) == 0
  {
    MulZero(a);
  }

  lemma {:induction false} DotUnit(u: Vec, i: nat, n: nat)
    requires i < |u| && n <= |u|
    ensures DotN(u, Unit(|u|, i), n) == if i < n then u[i] else 0
    ensures DotN(Unit(|u|, i), u, n) == if i < n then u[i] else 0
  {
    hide Add, Mul;
    if n > 0 {
      DotUnit(u, i, n - 1);
      ZeroProducts(u[n - 1]);
      MulByOne(u[n - 1]);
      AddLaws(u[n - 1], 0, 0);
      AddLaws(u[i], 0, 0);
      AddLaws(0, 0, 0);
    }
  }

  /** Replacing one entry on each side replaces one product. */
  lemma {:induction false} DotReplace(u: Vec, v: Vec, p: nat, c: byte, d: byte, n: nat)
    requires |u| == |v| && p < |u| && n <= |u|
    ensures DotN(u[p := c], v[p := d], n)
         == if p < n then Add(DotN(u, v, n), Add(Mul(u[p], v[p]), Mul(c, d))) else DotN(u, v, n)
  {
    hide Add, Mul;
    if n > 0 {
      DotReplace(u, v, p, c, d, n - 1);
      var s, o, w := DotN(u, v, n - 1), Mul(u[p], v[p]), Mul(c, d);
      if p == n - 1 {
        AddLaws(s, o, Add(o, w));
        AddLaws(o, w, 0);
      } else if p < n - 1 {
        var t := Mul(u[n - 1], v[n - 1]);
        AddLaws(s, Add(o, w), t);
        AddLaws(Add(o, w), t, 0);
        AddLaws(s, t, Add(o, w));
      }
    }
  }

  lemma {:induction false} DotAddMul(dst: Vec, src: Vec, c: byte, v: Vec, n: nat)
    requires |dst| == |src| == |v| && n <= |v|
    ensures DotN(AddMul(dst, src, c), v, n) == Add(DotN(dst, v, n), Mul(c, DotN(src, v, n)))
  {
    hide Add, Mul;
    if n == 0 {
      ZeroProducts(c);
      AddLaws(0, 0, 0);
    } else {
      DotAddMul(dst, src, c, v, n - 1);
      var a, b, x := dst[n - 1], src[n - 1], v[n - 1];
      MulComm(Add(a, Mul(c, b)), x);
      MulDistrib(x, a, Mul(c, b));
      MulComm(x, a);
      MulComm(x, Mul(c, b));
      MulAssoc(c, b, x);
      MulDistrib(c, DotN(src, v, n - 1), Mul(b, x));
      AddSwap(DotN(dst, v, n - 1), Mul(c, DotN(src, v, n - 1)), Mul(a, x), Mul(c, Mul(b, x)));
    }
  }

  lemma {:induction false} DotScale(u: Vec, c: byte, v: Vec, n: nat)
    requires |u| == |v| && n <= |v|
    ensures DotN(Scale(u, c), v, n) == Mul(c, DotN(u, v, n))
  {
    hide Add, Mul;
    if n == 0 {
      ZeroProducts(c);
    } else {
      DotScale(u, c, v, n - 1);
      MulAssoc(c, u[n - 1], v[n - 1]);
      MulDistrib(c, DotN(u, v, n - 1), Mul(u[n - 1], v[n - 1]));
    }
  }

  /** Swapping the same two entries on both sides changes nothing. */
  lemma {:induction false} DotSwap(u: Vec, v: Vec, i: nat, j: nat)
    requires |u| == |v| && i < |u| && j < |u|
    ensures Dot(SwapAt(u, i, j), SwapAt(v, i, j)) == Dot(u, v)
  {
    hide Add, Mul;
    if i == j {
      assert SwapAt(u, i, j) == u && SwapAt(v, i, j) == v;
    } else {
      var n := |u|;
      var u1, v1 := u[i := u[j]], v[i := v[j]];
      DotReplace(u, v, i, u[j], v[j], n);
      DotReplace(u1, v1, j, u[i], v[i], n);
      var s, o, w := DotN(u, v, n), Mul(u[i], v[i]), Mul(u[j], v[j]);
      AddLaws(s, Add(o, w), Add(w, o));
      AddLaws(o, w, 0);
      AddLaws(Add(o, w), 0, 0);
      AddLaws(s, 0, 0);
    }
  }

  // -------------------------------------------------------- rows of a flat matrix

  lemma {:induction false} RowFits(r: nat, n: nat, k: nat)
    requires r < n
    ensures r * k + k <= n * k
  {
    assert (n - r - 1) * k >= 0;
    assert n * k == r * k + k + (n - r - 1) * k;
  }

  function RowAt(s: Vec, n: nat, k: nat, r: nat): (v: Vec)
    requires |s| == n * k && r < n
    ensures |v| == k
  {
    RowFits(r, n, k);
    s[r * k..r * k + k]
  }

  /** The rows of an n by k matrix stored row after row. */
  ghost function Rows(s: Vec, n: nat, k: nat): (m: Mat)
    requires |s| == n * k
    ensures IsMat(m, n, k)
  {
    seq(n, r requires 0 <= r < n => RowAt(s, n, k, r))
  }

  function SetCell(m: Mat, r: nat, c: nat, x: byte): Mat
    requires r < |m| && c < |m[r]|
  {
    var row: Vec := m[r][c := x];
    m[r := row]
  }

  /** Writing cell (r, c) of the flat matrix updates one entry of one row. */
  lemma {:induction false} WriteCell(s: Vec, n: nat, k: nat, r: nat, c: nat, x: byte)
    requires |s| == n * k && r < n && c < k
    ensures 0 <= r * k + c < |s|
    ensures Rows(s, n, k)[r][c] == s[r * k + c]
    ensures Rows(s[r * k + c := x], n, k) == SetCell(Rows(s, n, k), r, c, x)
  {
    RowFits(r, n, k);
    var t := s[r * k + c := x];
    var m, m' := Rows(s, n, k), Rows(t, n, k);
    forall q | 0 <= q < n ensures m'[q] == SetCell(m, r, c, x)[q] {
      RowFits(q, n, k);
      if q < r {
        RowFits(q, r, k);
      } else if r < q {
        RowFits(r, q, k);
      }
    }
  }
}
