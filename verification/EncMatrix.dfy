/** The construction of the generator matrix in pkg/fec/zfex.go: `buildEncMatrix`. */
module EncMatrix {
  import opened Gf256
  import opened Gf256Powers
  import opened Gf256Tables
  import opened Polynomials
  import opened Matrices
  import opened Vandermonde
  import opened FlatMatrix

  // ------------------------------------------------------------- Vandermonde rows

  function Power(x: byte, j: nat): byte
  {
    if j == 0 then 1 else Mul(x, Power(x, j - 1))
  }

  /** 1, x, x^2, ... */
  function PowerRow(x: byte, k: nat): (v: Vec)
    ensures |v| == k
  {
    seq(k, j requires 0 <= j => Power(x, j))
  }

  function VandermondeMat(ps: seq<byte>): (m: Mat)
    ensures IsMat(m, |ps|, |ps|)
  {
    seq(|ps|, i requires 0 <= i < |ps| => PowerRow(ps[i], |ps|))
  }

  lemma {:induction false} EvalAppend(p: seq<byte>, c: byte, x: byte)
    ensures Eval(p + [c], x) == Add(Eval(p, x), Mul(c, Power(x, |p|)))
  {
    hide Add, Mul;
    if p == [] {
      assert ([] + [c])[1..] == [];
      ZeroProducts(x);
      MulByOne(c);
      AddLaws(c, 0, 0);
    } else {
      var t := p[1..];
      assert (p + [c])[1..] == t + [c];
      EvalAppend(t, c, x);
      var w := Power(x, |t|);
      MulDistrib(x, Eval(t, x), Mul(c, w));
      MulAssoc(x, c, w);
      MulComm(x, c);
      MulAssoc(c, x, w);
      AddLaws(p[0], Mul(x, Eval(t, x)), Mul(c, Power(x, |p|)));
    }
  }

  /** A row of powers times a column of coefficients evaluates the polynomial. */
  lemma {:induction false} DotEvaluates(p: seq<byte>, x: byte, n: nat)
    requires n <= |p|
    ensures DotN(PowerRow(x, |p|), p, n) == Eval(p[..n], x)
  {
    hide Add, Mul, Eval, Power;
    if n == 0 {
      EvalZero([], x);
      assert p[..0] == [];
    } else {
      DotEvaluates(p, x, n - 1);
      assert p[..n] == p[..n - 1] + [p[n - 1]];
      EvalAppend(p[..n - 1], p[n - 1], x);
      MulComm(p[n - 1], Power(x, n - 1));
    }
  }

  lemma {:induction false} PowerOfExp(i: nat, j: nat)
    ensures Power(Exp(i), j) == Exp(i * j)
  {
    hide Mul, Exp;
    if j == 0 {
      assert i * 0 == 0;
      PowersOfInterest();
      ExpTimes(255, 0);
    } else {
      PowerOfExp(i, j - 1);
      assert i * j == i + i * (j - 1);
      ExpAdd(i, i * (j - 1));
    }
  }

  // ----------------------------------------------------- the inverse of the top block

  /** Column j holds the coefficients of the j-th Lagrange basis polynomial. */
  ghost function InverseVandermonde(ps: seq<byte>): (m: Mat)
    requires Distinct(ps)
    ensures IsMat(m, |ps|, |ps|)
  {
    seq(|ps|, i requires 0 <= i < |ps| => seq(|ps|, j requires 0 <= j < |ps| => Basis(ps, j)[i]))
  }

  /** W maps samples at the points to the coefficients of the interpolating polynomial. */
  lemma {:induction false} InverseInterpolates(ps: seq<byte>, v: Vec, n: nat, i: nat)
    requires Distinct(ps) && |v| == |ps| && n <= |ps| && i < |ps|
    ensures DotN(InverseVandermonde(ps)[i], v, n) == Combine(ps, v, n)[i]
  {
    hide Add, Mul, Basis;
    if n > 0 {
      InverseInterpolates(ps, v, n - 1, i);
      MulComm(Basis(ps, n - 1)[i], v[n - 1]);
    }
  }

  lemma {:induction false} SamplesOfInterpolation(ps: seq<byte>, v: Vec)
    requires Distinct(ps) && |v| == |ps|
    ensures Apply(VandermondeMat(ps), Apply(InverseVandermonde(ps), v)) == v
  {
    hide Eval, Combine, Power, Dot, InverseVandermonde;
    var p := Interpolate(ps, v);
    forall i | 0 <= i < |ps| ensures Dot(InverseVandermonde(ps)[i], v) == p[i] {
      InverseRowInterpolates(ps, v, i);
    }
    assert Apply(InverseVandermonde(ps), v) == p;
    forall i | 0 <= i < |ps| ensures Dot(PowerRow(ps[i], |ps|), p) == v[i] {
      RowEvaluates(p, ps[i]);
      InterpolateHits(ps, v, i);
    }
  }

  lemma {:induction false} InverseRowInterpolates(ps: seq<byte>, v: Vec, i: nat)
    requires Distinct(ps) && |v| == |ps| && i < |ps|
    ensures Dot(InverseVandermonde(ps)[i], v) == Interpolate(ps, v)[i]
  {
    InverseInterpolates(ps, v, |ps|, i);
  }

  lemma {:induction false} RowEvaluates(p: seq<byte>, x: byte)
    ensures Dot(PowerRow(x, |p|), p) == Eval(p, x)
  {
    DotEvaluates(p, x, |p|);
    assert p[..|p|] == p;
  }

  /** `InverseVandermonde` is the two-sided inverse of the Vandermonde matrix. */
  lemma {:induction false} VandermondeInverse(ps: seq<byte>)
    requires Distinct(ps)
    ensures LeftInverse(VandermondeMat(ps), InverseVandermonde(ps))
    ensures LeftInverse(InverseVandermonde(ps), VandermondeMat(ps))
  {
    hide Eval, Combine, Power, Dot, InverseVandermonde;
    forall v: Vec | |v| == |ps|
      ensures Apply(VandermondeMat(ps), Apply(InverseVandermonde(ps), v)) == v
      ensures Apply(InverseVandermonde(ps), Apply(VandermondeMat(ps), v)) == v
    {
      SamplesOfInterpolation(ps, v);
      CoefficientsOfSamples(ps, v);
    }
  }

  lemma {:induction false} CoefficientsOfSamples(ps: seq<byte>, c: Vec)
    requires Distinct(ps) && |c| == |ps|
    ensures Apply(InverseVandermonde(ps), Apply(VandermondeMat(ps), c)) == c
  {
    hide Eval, Combine, Power, Dot, InverseVandermonde;
    var samples := Apply(VandermondeMat(ps), c);
    var p := Interpolate(ps, samples);
    forall i | 0 <= i < |ps| ensures Dot(InverseVandermonde(ps)[i], samples) == p[i] {
      InverseRowInterpolates(ps, samples, i);
    }
    assert Apply(InverseVandermonde(ps), samples) == p;
    forall i | 0 <= i < |ps| ensures Eval(p, ps[i]) == Eval(c, ps[i]) {
      InterpolateHits(ps, samples, i);
      RowEvaluates(c, ps[i]);
    }
    EqualAtPoints(p, c, ps);
  }

  // -------------------------------------------------------------- `invertVandermonde`

  lemma {:induction false} MasterConstant(ps: seq<byte>)
    requires ps != [] && ps[0] == 0
    ensures Master(ps)[0] == 0
  {
    hide Add, Mul;
    var n := |ps| - 1;
    var m := Master(ps[..n]);
    if n == 0 {
      ZeroProducts(1);
    } else {
      MasterConstant(ps[..n]);
      ZeroProducts(ps[n]);
    }
    AddLaws(0, 0, 0);
  }

  lemma {:induction false} TimesRootAt(p: seq<byte>, r: byte, i: nat)
    requires 1 <= i < |p|
    ensures TimesRoot(p, r)[i] == Add(p[i - 1], Mul(r, p[i]))
  {}

  /** The coefficients held after i points: zeros, then all but the leading one. */
  ghost predicate Holds(c: seq<byte>, ps: seq<byte>, i: nat)
    requires i <= |ps|
  {
    && |c| == |ps|
    && (forall j :: 0 <= j < |ps| - i ==> c[j] == 0)
    && c[|ps| - i..] + [1] == Master(ps[..i])
  }

  ghost predicate HoldsTo(c: seq<byte>, c0: seq<byte>, p: byte, lo: nat, j: nat)
    requires lo <= j < |c| == |c0|
  {
    && (forall q :: 0 <= q < lo || j <= q < |c| ==> c[q] == c0[q])
    && (forall q :: lo <= q < j ==> c[q] == Add(c0[q], Mul(p, c0[q + 1])))
  }

  lemma {:induction false} HoldsStep(c: seq<byte>, c0: seq<byte>, ps: seq<byte>, i: nat)
    requires 1 <= i < |ps| && ps[0] == 0 && Holds(c0, ps, i) && |c| == |ps|
    requires HoldsTo(c[|ps| - 1 := c0[|ps| - 1]], c0, ps[i], |ps| - i, |ps| - 1)
    requires c[|ps| - 1] == Add(c0[|ps| - 1], ps[i])
    ensures Holds(c, ps, i + 1)
  {
    hide Add, Mul;
    var k := |ps|;
    var m := Master(ps[..i]);
    var m' := Master(ps[..i + 1]);
    assert ps[..i + 1][..i] == ps[..i];
    assert m' == TimesRoot(m, ps[i]);
    MasterConstant(ps[..i + 1]);
    MasterIsMonic(ps[..i + 1]);
    MulByOne(ps[i]);
    forall j | 0 <= j < k - (i + 1) ensures c[j] == 0 {
      assert c[k - 1 := c0[k - 1]][j] == c0[j];
    }
    forall q | 0 <= q < i + 2 ensures (c[k - (i + 1)..] + [1])[q] == m'[q] {
      var c1 := c[k - 1 := c0[k - 1]];
      if q == 0 {
        assert c1[k - (i + 1)] == c0[k - (i + 1)];
      } else if q < i {
        TimesRootAt(m, ps[i], q);
        assert (c0[k - i..] + [1])[q - 1] == m[q - 1] && (c0[k - i..] + [1])[q] == m[q];
        assert c1[k - i + (q - 1)] == Add(c0[k - i + (q - 1)], Mul(ps[i], c0[k - i + q]));
      } else if q == i {
        TimesRootAt(m, ps[i], q);
        assert (c0[k - i..] + [1])[q - 1] == m[q - 1] && (c0[k - i..] + [1])[q] == m[q];
      }
    }
  }

  /**
    The points whose master polynomial the loop really computes: its first round has
    no product term, so the first two points act as 0 and their sum.
  */
  function Adjusted(ps: seq<byte>): (q: seq<byte>)
    requires |ps| >= 2
    ensures |q| == |ps|
  {
    [0, Add(ps[0], ps[1])] + ps[2..]
  }

  function LoopPolynomial(ps: seq<byte>): (m: seq<byte>)
    requires |ps| >= 2
    ensures |m| == |ps| + 1
  {
    Master(Adjusted(ps))
  }

  /** One round of the loop for the coefficients. */
  method CoefficientRound(gf: Tables, p: array<byte>, c: array<byte>, k: nat, i: nat)
    requires gf.Valid() && k == p.Length == c.Length && 1 <= i < k && p != c
    modifies c
    ensures HoldsTo(c[..][k - 1 := old(c[k - 1])], old(c[..]), p[i], k - i, k - 1)
    ensures c[k - 1] == Add(old(c[k - 1]), p[i])
  {
    hide Tables.Valid, Add, Mul;
    ghost var c0 := c[..];
    var pi := p[i];
    for j := k - i to k - 1
      invariant HoldsTo(c[..], c0, pi, k - i, j)
    {
      c[j] := Add(c[j], gf.GfMul(pi, c[j + 1]));
    }
    ghost var c1 := c[..];
    c[k - 1] := Add(c[k - 1], pi);
    assert c[..][k - 1 := c0[k - 1]] == c1;
  }

  /** The first loop of `invertVandermonde`. */
  method MasterCoefficients(gf: Tables, p: array<byte>, k: nat) returns (c: array<byte>)
    requires gf.Valid() && k == p.Length && k >= 2
    ensures fresh(c) && c.Length == k && c[..] + [1] == LoopPolynomial(p[..])
  {
    hide Tables.Valid, Add, Mul, Holds;
    ghost var ps, q := p[..], Adjusted(p[..]);
    c := new byte[k](_ => 0);
    ghost var zeros := c[..];
    HoldsFirst(zeros, q);
    c[k - 1] := p[0];
    AddLaws(Add(ps[0], ps[1]), 0, 0);
    for i := 1 to k
      invariant p[..] == ps
      invariant i == 1 ==> c[..] == zeros[k - 1 := ps[0]]
      invariant i >= 2 ==> Holds(c[..], q, i)
    {
      ghost var c0 := c[..];
      CoefficientRound(gf, p, c, k, i);
      if i == 1 {
        FirstRound(c[..], zeros, p[1], ps[0], q[1]);
        HoldsStep(c[..], zeros, q, 1);
      } else {
        assert q[i] == ps[i] == p[i];
        HoldsStep(c[..], c0, q, i);
      }
    }
    AllHeld(c[..], q);
  }

  /** The first round only changes the last coefficient. */
  lemma {:induction false} FirstRound(c: seq<byte>, zeros: seq<byte>, p: byte, p0: byte, r: byte)
    requires |c| == |zeros| >= 2 && (forall j :: 0 <= j < |zeros| ==> zeros[j] == 0)
    requires var k := |c|; HoldsTo(c[k - 1 := p0], zeros[k - 1 := p0], p, k - 1, k - 1)
    ensures var k := |c|;
      zeros[k - 1] == 0 && HoldsTo(c[k - 1 := 0], zeros, r, k - 1, k - 1)
  {
    var k := |c|;
    forall q | 0 <= q < k - 1 ensures c[q] == 0 {
      assert c[k - 1 := p0][q] == zeros[k - 1 := p0][q];
    }
  }

  lemma {:induction false} AllHeld(c: seq<byte>, q: seq<byte>)
    requires Holds(c, q, |q|)
    ensures c + [1] == Master(q)
  {
    assert q[..|q|] == q && c[0..] == c;
  }

  lemma {:induction false} HoldsFirst(c: seq<byte>, ps: seq<byte>)
    requires |c| == |ps| >= 1 && ps[0] == 0 && forall j :: 0 <= j < |c| ==> c[j] == 0
    ensures Holds(c, ps, 1)
  {
    hide Add, Mul;
    assert ps[..1][..0] == [];
    assert Master([]) == [1];
    ZeroProducts(1);
    AddLaws(0, 0, 0);
    AddLaws(1, 0, 0);
    assert Master(ps[..1]) == TimesRoot([1], 0);
    assert c[|ps| - 1..] == [0];
  }

  lemma {:induction false} QuotientAt(p: seq<byte>, r: byte, j: nat)
    requires j + 1 < |p|
    ensures Quotient(p, r)[j] == Eval(p[j + 1..], r)
  {
    if j > 0 {
      QuotientAt(p[1..], r, j - 1);
      assert p[1..][j..] == p[j + 1..];
    }
  }

  /** One step of the synthetic division, from the top coefficient down. */
  lemma {:induction false} DivisionRow(m: seq<byte>, r: byte, i: nat)
    requires 1 <= i < |m| - 1
    ensures var q := Quotient(m, r);
      q[i - 1] == Add(m[i], Mul(r, q[i])) && Eval(q[i - 1..], r) == Add(Mul(r, Eval(q[i..], r)), q[i - 1])
  {
    hide Add, Mul, Quotient;
    var q := Quotient(m, r);
    QuotientAt(m, r, i - 1);
    QuotientAt(m, r, i);
    assert m[i..][1..] == m[i + 1..];
    assert q[i - 1..][1..] == q[i..];
    AddLaws(q[i - 1], Mul(r, Eval(q[i..], r)), 0);
  }

  lemma {:induction false} DivisionStart(m: seq<byte>, r: byte)
    requires |m| >= 2 && m[|m| - 1] == 1
    ensures Quotient(m, r)[|m| - 2] == 1 && Eval(Quotient(m, r)[|m| - 2..], r) == 1
  {
    hide Add, Mul, Quotient;
    var q := Quotient(m, r);
    QuotientLeads(m, r);
    assert q[|m| - 2..] == [1];
    assert [1][1..] == [];
    ZeroProducts(r);
    AddLaws(1, 0, 0);
  }

  /** Synthetic division by x + p[row] of the polynomial held, and the value of the quotient there. */
  method DivideOut(gf: Tables, p: array<byte>, c: array<byte>, k: nat, row: nat)
    returns (b: array<byte>, t: byte)
    requires gf.Valid() && k == p.Length == c.Length && row < k
    ensures fresh(b) && b[..] == Quotient(c[..] + [1], p[row]) && t == Eval(b[..], p[row])
  {
    hide Tables.Valid, Add, Mul, Eval, Quotient;
    ghost var m := c[..] + [1];
    ghost var q := Quotient(m, p[row]);
    b := new byte[k](_ => 0);
    var xx := p[row];
    t := 1;
    b[k - 1] := 1;
    DivisionStart(m, xx);
    var i := k - 1;
    while i > 0
      invariant 0 <= i < k
      invariant forall j :: i <= j < k ==> b[j] == q[j]
      invariant t == Eval(q[i..], xx)
    {
      DivisionRow(m, xx, i);
      assert c[i] == m[i];
      b[i - 1] := Add(c[i], gf.GfMul(xx, b[i]));
      t := Add(gf.GfMul(xx, t), b[i - 1]);
      i := i - 1;
    }
    assert q[0..] == q && b[..] == q;
  }

  /** Column j as computed: the quotient, divided by its value at the point; the table has 0 for the inverse of 0. */
  ghost function ComputedColumn(ps: seq<byte>, j: nat): (v: seq<byte>)
    requires j < |ps| && |ps| >= 2
    ensures |v| == |ps|
  {
    var b := Quotient(LoopPolynomial(ps), ps[j]);
    var t := Eval(b, ps[j]);
    Scale(b, if t == 0 then 0 else Inv(t))
  }

  /** Column `row` of the result. */
  method WriteColumn(gf: Tables, src: array<byte>, n: nat, k: nat, row: nat, b: array<byte>, t: byte)
    requires gf.Valid() && src.Length == n * k && k <= n && row < k == b.Length && src != b
    modifies src
    ensures var column := Scale(old(b[..]), if t == 0 then 0 else Inv(t));
      (forall i :: 0 <= i < k ==> Rows(src[..], n, k)[i] == old(Rows(src[..], n, k))[i][row := column[i]]) &&
      (forall i :: k <= i < n ==> Rows(src[..], n, k)[i] == old(Rows(src[..], n, k))[i])
  {
    hide Tables.Valid, Mul, Eval, Rows;
    ghost var m, bs := Rows(src[..], n, k), b[..];
    ghost var column := Scale(bs, if t == 0 then 0 else Inv(t));
    for col := 0 to k
      invariant b[..] == bs
      invariant forall i :: 0 <= i < n ==> Rows(src[..], n, k)[i] == if i < col then m[i][row := column[i]] else m[i]
    {
      assert b[col] == b[..][col];
      WriteAt(src, n, k, col, row, gf.GfMul(gf.GfInv(t), b[col]));
    }
  }

  /** `invertVandermonde`, on the top k rows of an n by k matrix, for any points. */
  method InvertVandermonde(gf: Tables, src: array<byte>, n: nat, k: nat, ghost ps: seq<byte>)
    requires gf.Valid() && src.Length == n * k && 1 <= k <= n && |ps| == k
    requires forall i :: 0 <= i < k ==> Rows(src[..], n, k)[i] == PowerRow(ps[i], k)
    modifies src
    ensures k == 1 ==> src[..] == old(src[..])
    ensures k >= 2 ==> forall i, j :: 0 <= i < k && 0 <= j < k ==> Rows(src[..], n, k)[i][j] == ComputedColumn(ps, j)[i]
    ensures forall i :: k <= i < n ==> Rows(src[..], n, k)[i] == old(Rows(src[..], n, k))[i]
  {
    hide Tables.Valid, Rows, Eval, Power, Quotient, LoopPolynomial;
    ghost var m := Rows(src[..], n, k);
    if k == 1 {
      return;
    }
    var p := new byte[k](_ => 0);
    for i := 0 to k
      invariant forall j :: 0 <= j < i ==> p[j] == ps[j]
      invariant src[..] == old(src[..])
    {
      p[i] := ReadAt(src, n, k, i, 1);
      PowerOne(ps[i]);
    }
    assert p[..] == ps;
    var c := MasterCoefficients(gf, p, k);
    for row := 0 to k
      invariant p[..] == ps && c[..] + [1] == LoopPolynomial(ps)
      invariant forall i :: k <= i < n ==> Rows(src[..], n, k)[i] == m[i]
      invariant forall i, j :: 0 <= i < k && 0 <= j < row ==> Rows(src[..], n, k)[i][j] == ComputedColumn(ps, j)[i]
    {
      var b, t := DivideOut(gf, p, c, k, row);
      WriteColumn(gf, src, n, k, row, b, t);
    }
  }

  // ---------------------------------------------- when that is the inverse, and when not

  /** Two points or fewer, or one of the first two is 0. */
  predicate LoopIsRight(ps: seq<byte>)
  {
    |ps| <= 2 || Mul(ps[0], ps[1]) == 0
  }

  /** The top three coefficients of both polynomials, and where they part. */
  lemma {:induction false} TopCoefficients(ps: seq<byte>, n: nat)
    requires 2 <= n <= |ps|
    ensures var m, l := Master(ps[..n]), Master(Adjusted(ps)[..n]);
      m[n] == l[n] && m[n - 1] == l[n - 1] && Add(m[n - 2], l[n - 2]) == Mul(ps[0], ps[1])
    ensures Mul(ps[0], ps[1]) == 0 ==> Master(ps[..n]) == Master(Adjusted(ps)[..n])
  {
    hide Add, Mul, Master;
    var q := Adjusted(ps);
    if n == 2 {
      AdjustedStart(ps);
      MasterOfTwo(ps[..2]);
      MasterOfTwo(q[..2]);
      ZeroProducts(Add(ps[0], ps[1]));
      AddLaws(Add(ps[0], ps[1]), 0, 0);
      AddLaws(Mul(ps[0], ps[1]), 0, 0);
      assert Master(ps[..2]) == [Mul(ps[0], ps[1]), Add(ps[0], ps[1]), 1];
      assert Master(q[..2]) == [0, Add(ps[0], ps[1]), 1];
    } else {
      TopCoefficients(ps, n - 1);
      assert ps[..n][..n - 1] == ps[..n - 1] && q[..n][..n - 1] == q[..n - 1] && ps[n - 1] == q[n - 1];
      MasterStep(ps[..n]);
      MasterStep(q[..n]);
      var m, l, r := Master(ps[..n - 1]), Master(q[..n - 1]), ps[n - 1];
      TimesRootAt(m, r, n - 1);
      TimesRootAt(l, r, n - 1);
      TimesRootAt(m, r, n - 2);
      TimesRootAt(l, r, n - 2);
      TimesRootTop(m, r);
      TimesRootTop(l, r);
      var z := Mul(r, m[n - 2]);
      AddOut(m[n - 3], z, l[n - 3]);
    }
  }

  lemma {:induction false} AdjustedStart(ps: seq<byte>)
    requires |ps| >= 2
    ensures Adjusted(ps)[..2] == [0, Add(ps[0], ps[1])] && Adjusted(ps)[2..] == ps[2..]
  {}

  lemma {:induction false} MasterOfOne(a: byte)
    ensures Master([a]) == [a, 1]
  {
    hide Add, Mul;
    assert [a][..0] == [];
    assert Master([]) == [1];
    MulByOne(a);
    AddLaws(a, 0, 0);
    AddLaws(1, 0, 0);
    assert Master([a]) == TimesRoot([1], a);
    assert Scale([1], a) == [a] && [0] + [1] == [0, 1] && [a] + [0] == [a, 0];
    assert Sum([0, 1], [a, 0]) == [Add(0, a), Add(1, 0)];
  }

  lemma {:induction false} MasterOfTwo(ps: seq<byte>)
    requires |ps| == 2
    ensures Master(ps) == [Mul(ps[0], ps[1]), Add(ps[0], ps[1]), 1]
  {
    hide Add, Mul;
    var a, b := ps[0], ps[1];
    assert ps[..1] == [a];
    MasterOfOne(a);
    MulComm(a, b);
    MulByOne(b);
    AddLaws(Mul(b, a), 0, 0);
    AddLaws(1, 0, 0);
    assert Master(ps) == TimesRoot([a, 1], b);
    assert Scale([a, 1], b) == [Mul(b, a), b] && [0] + [a, 1] == [0, a, 1] && [Mul(b, a), b] + [0] == [Mul(b, a), b, 0];
    assert Sum([0, a, 1], [Mul(b, a), b, 0]) == [Add(0, Mul(b, a)), Add(a, b), Add(1, 0)];
  }

  lemma {:induction false} TimesRootTop(p: seq<byte>, r: byte)
    requires p != []
    ensures TimesRoot(p, r)[|p|] == p[|p| - 1]
  {
    hide Mul;
    AddLaws(p[|p| - 1], 0, 0);
  }

  lemma {:induction false} AddOut(a: byte, z: byte, b: byte)
    ensures Add(Add(a, z), Add(b, z)) == Add(a, b)
  {
    hide Add;
    AddSwap(a, z, b, z);
    AddLaws(z, z, z);
    AddLaws(Add(a, b), 0, 0);
  }

  /** Division does not see the constant term, and the quotient shows all others. */
  lemma {:induction false} QuotientsAgree(m: seq<byte>, l: seq<byte>, r: byte)
    requires |m| == |l| >= 2
    ensures Quotient(m, r) == Quotient(l, r) <==> m[1..] == l[1..]
  {
    hide Add, Mul, Eval;
    if Quotient(m, r) == Quotient(l, r) {
      forall i | 1 <= i < |m| ensures m[i] == l[i] {
        if i == |m| - 1 {
          QuotientLeads(m, r);
          QuotientLeads(l, r);
        } else {
          DivisionRow(m, r, i);
          DivisionRow(l, r, i);
          var q := Quotient(m, r);
          AddCancels(m[i], l[i], Mul(r, q[i]));
        }
      }
    }
  }

  lemma {:induction false} AddCancels(a: byte, b: byte, z: byte)
    requires Add(a, z) == Add(b, z)
    ensures a == b
  {
    hide Add;
    AddLaws(z, a, 0);
    AddLaws(z, b, 0);
  }

  /** The loop finds the coefficients it needs exactly when it is right. */
  lemma {:induction false} LoopFindsMaster(ps: seq<byte>)
    requires |ps| >= 2
    ensures LoopPolynomial(ps)[1..] == Master(ps)[1..] <==> LoopIsRight(ps)
  {
    hide Add, Mul, Master, Adjusted;
    var n := |ps|;
    var m, l := Master(ps), LoopPolynomial(ps);
    assert ps[..n] == ps && Adjusted(ps)[..n] == Adjusted(ps);
    TopCoefficients(ps, n);
    if n == 2 {
      assert m[1..] == [m[1], m[2]] && l[1..] == [l[1], l[2]];
    } else if l[1..] == m[1..] {
      assert l[1..][n - 3] == l[n - 2] && m[1..][n - 3] == m[n - 2];
      AddLaws(m[n - 2], 0, 0);
    }
  }

  /** A column is the basis polynomial exactly when the quotient is the right one. */
  lemma {:induction false} ColumnIsBasisExactly(ps: seq<byte>, j: nat)
    requires |ps| >= 2 && j < |ps| && Distinct(ps)
    ensures ComputedColumn(ps, j) == Basis(ps, j) <==> LoopPolynomial(ps)[1..] == Master(ps)[1..]
  {
    hide Add, Mul, Master, LoopPolynomial, Eval, Quotient;
    var m, l, r, n := Master(ps), LoopPolynomial(ps), ps[j], |ps|;
    var b, o := Quotient(l, r), Others(ps, j);
    QuotientsAgree(l, m, r);
    OthersNonzero(ps, j);
    if ComputedColumn(ps, j) == Basis(ps, j) {
      LoopLeads(ps);
      QuotientLeads(l, r);
      QuotientLeads(m, r);
      var t, u := Eval(b, r), Eval(o, r);
      var c, d := if t == 0 then 0 else Inv(t), Inv(u);
      MulByOne(c);
      MulByOne(d);
      assert ComputedColumn(ps, j)[n - 1] == Mul(c, b[n - 1]) && Basis(ps, j)[n - 1] == Mul(d, o[n - 1]);
      InvIsInverse(u);
      forall i | 0 <= i < n ensures b[i] == o[i] {
        assert Mul(d, b[i]) == Mul(d, o[i]) by {
          assert ComputedColumn(ps, j)[i] == Basis(ps, j)[i];
        }
        CancelFactor(u, d, b[i], o[i]);
      }
    }
  }

  lemma {:induction false} CancelFactor(u: byte, d: byte, x: byte, y: byte)
    requires Mul(u, d) == 1 && Mul(d, x) == Mul(d, y)
    ensures x == y
  {
    hide Mul;
    MulAssoc(u, d, x);
    MulAssoc(u, d, y);
    OneTimes(x);
    OneTimes(y);
  }

  lemma {:induction false} LoopLeads(ps: seq<byte>)
    requires |ps| >= 2
    ensures LoopPolynomial(ps)[|ps|] == 1 && Master(ps)[|ps|] == 1
  {
    MasterIsMonic(ps);
    MasterIsMonic(Adjusted(ps));
  }

  /**
    `invertVandermonde` computes the inverse exactly when there are at most two points
    or one of the first two is 0: its comment promises it for every Vandermonde matrix.
  */
  lemma {:induction false} InverseExactlyWhenLoopIsRight(ps: seq<byte>)
    requires |ps| >= 2 && Distinct(ps)
    ensures (forall j :: 0 <= j < |ps| ==> ComputedColumn(ps, j) == Basis(ps, j)) <==> LoopIsRight(ps)
  {
    hide ComputedColumn, Basis, LoopIsRight;
    LoopFindsMaster(ps);
    forall j | 0 <= j < |ps|
      ensures ComputedColumn(ps, j) == Basis(ps, j) <==> LoopPolynomial(ps)[1..] == Master(ps)[1..]
    {
      ColumnIsBasisExactly(ps, j);
    }
    assert ComputedColumn(ps, 0) == Basis(ps, 0) <==> LoopPolynomial(ps)[1..] == Master(ps)[1..];
  }

  /** For the points 1, 2 and 4 it does not compute the inverse. */
  lemma {:induction false} NotTheInverseAt124()
    ensures var ps: seq<byte> := [1, 2, 4];
      Distinct(ps) && !LoopIsRight(ps) && exists j :: 0 <= j < |ps| && ComputedColumn(ps, j) != Basis(ps, j)
  {
    hide ComputedColumn, Basis;
    InverseExactlyWhenLoopIsRight([1, 2, 4]);
  }

  lemma {:induction false} MasterStep(ps: seq<byte>)
    requires ps != []
    ensures Master(ps) == TimesRoot(Master(ps[..|ps| - 1]), ps[|ps| - 1])
  {}

  lemma {:induction false} PowerOne(x: byte)
    ensures Power(x, 1) == x
  {
    MulByOne(x);
    assert Power(x, 0) == 1;
  }

  lemma {:induction false} SinglePoint(ps: seq<byte>)
    requires |ps| == 1
    ensures InverseVandermonde(ps)[0] == PowerRow(ps[0], 1)
  {
    MasterIsMonic(ps);
    DivisionStart(Master(ps), ps[0]);
    assert Others(ps, 0) == [1];
    InvIsInverse(1);
    MulByOne(Inv(1));
  }

  // ------------------------------------------------------------------------ `matMul`

  function Column(m: Mat, rows: nat, c: nat): (v: Vec)
    requires rows <= |m| && forall i :: 0 <= i < rows ==> c < |m[i]|
    ensures |v| == rows
  {
    seq(rows, i requires 0 <= i < rows => m[i][c])
  }

  /** `matMul`: rows `first`.. of c become those of a times the top k rows of b. */
  method MatMul(gf: Tables, a: array<byte>, c: array<byte>, n: nat, k: nat, first: nat)
    requires gf.Valid() && a.Length == n * k == c.Length && a != c && k <= n && first <= n
    modifies c
    ensures forall r :: 0 <= r < first ==> Rows(c[..], n, k)[r] == old(Rows(c[..], n, k))[r]
    ensures forall r, j :: first <= r < n && 0 <= j < k ==>
      Rows(c[..], n, k)[r][j] == Dot(Rows(a[..], n, k)[r], Column(Rows(a[..], n, k), k, j))
  {
    hide Tables.Valid, Rows, Mul, Add, DotN, Column;
    ghost var m := Rows(a[..], n, k);
    ghost var c0 := Rows(c[..], n, k);
    ghost var want: Mat := seq(n, r requires 0 <= r < n => seq(k, j requires 0 <= j < k => Dot(m[r], Column(m, k, j))));
    for row := first to n
      invariant Rows(a[..], n, k) == m
      invariant forall r :: 0 <= r < first ==> Rows(c[..], n, k)[r] == c0[r]
      invariant forall r, j :: first <= r < row && 0 <= j < k ==> Rows(c[..], n, k)[r][j] == want[r][j]
    {
      for col := 0 to k
        invariant Rows(a[..], n, k) == m
        invariant forall r :: 0 <= r < first ==> Rows(c[..], n, k)[r] == c0[r]
        invariant forall r, j :: first <= r < row && 0 <= j < k ==> Rows(c[..], n, k)[r][j] == want[r][j]
        invariant forall j :: 0 <= j < col ==> Rows(c[..], n, k)[row][j] == want[row][j]
      {
        var acc := InnerProduct(gf, a, n, k, row, col);
        WriteAt(c, n, k, row, col, acc);
      }
    }
  }

  method InnerProduct(gf: Tables, a: array<byte>, n: nat, k: nat, row: nat, col: nat) returns (acc: byte)
    requires gf.Valid() && a.Length == n * k && k <= n && row < n && col < k
    ensures acc == Dot(Rows(a[..], n, k)[row], Column(Rows(a[..], n, k), k, col))
  {
    hide Tables.Valid, Rows, Mul, Add;
    ghost var m := Rows(a[..], n, k);
    acc := 0;
    for i := 0 to k
      invariant acc == DotN(m[row], Column(m, k, col), i)
    {
      var x := ReadAt(a, n, k, row, i);
      var y := ReadAt(a, n, k, i, col);
      acc := Add(acc, gf.GfMul(x, y));
    }
  }

  // ---------------------------------------------------------------- `buildEncMatrix`

  /** The Vandermonde matrix of the points 0, 1, x, x^2, ... */
  method FillVandermonde(gf: Tables, tmp: array<byte>, n: nat, k: nat)
    requires gf.Valid() && tmp.Length == n * k && 1 <= k <= n <= 255
    modifies tmp
    ensures forall r :: 0 <= r < n ==> Rows(tmp[..], n, k)[r] == PowerRow(Point(r), k)
  {
    hide Tables.Valid, Rows, Power, Exp;
    WriteAt(tmp, n, k, 0, 0, 1);
    PowersOfZero(0);
    for col := 1 to k
      invariant forall j :: 0 <= j < col ==> Rows(tmp[..], n, k)[0][j] == Power(0, j)
    {
      PowersOfZero(col);
      WriteAt(tmp, n, k, 0, col, 0);
    }
    assert Rows(tmp[..], n, k)[0] == PowerRow(0, k);
    for row := 0 to n - 1
      invariant forall r :: 0 <= r <= row ==> Rows(tmp[..], n, k)[r] == PowerRow(Point(r), k)
    {
      for col := 0 to k
        invariant forall r :: 0 <= r <= row ==> Rows(tmp[..], n, k)[r] == PowerRow(Point(r), k)
        invariant forall j :: 0 <= j < col ==> Rows(tmp[..], n, k)[row + 1][j] == Power(Exp(row), j)
      {
        var e := Modnn(row * col);
        ExpModulo(row * col);
        PowerOfExp(row, col);
        WriteAt(tmp, n, k, row + 1, col, gf.GfExp(e));
      }
      assert Rows(tmp[..], n, k)[row + 1] == PowerRow(Point(row + 1), k);
    }
  }

  lemma {:induction false} PowersOfZero(j: nat)
    ensures Power(0, j) == if j == 0 then 1 else 0
  {
    if j > 0 {
      MulZero(Power(0, j - 1));
    }
  }

  /** The product of a Vandermonde row and the inverse is a generator row. */
  lemma {:induction false} ProductRow(k: nat, r: nat, j: nat)
    requires k <= 255 && j < k
    ensures Distinct(Points(k))
    ensures Dot(PowerRow(Point(r), k), Basis(Points(k), j)) == GeneratorRow(k, r)[j]
  {
    hide Eval, Basis, Power, Dot;
    PointsDistinct(k);
    RowEvaluates(Basis(Points(k), j), Point(r));
  }

  /** The identity in the top k rows. */
  method SetIdentity(enc: array<byte>, n: nat, k: nat)
    requires enc.Length == n * k && k <= n
    modifies enc
    ensures forall r :: 0 <= r < k ==> Rows(enc[..], n, k)[r] == Unit(k, r)
    ensures forall r :: k <= r < n ==> Rows(enc[..], n, k)[r] == old(Rows(enc[..], n, k))[r]
  {
    hide Rows;
    ghost var m := Rows(enc[..], n, k);
    for i := 0 to k
      invariant forall r :: k <= r < n ==> Rows(enc[..], n, k)[r] == m[r]
      invariant forall r :: 0 <= r < i ==> Rows(enc[..], n, k)[r] == Unit(k, r)
    {
      for j := 0 to k
        invariant forall r :: k <= r < n ==> Rows(enc[..], n, k)[r] == m[r]
        invariant forall r :: 0 <= r < i ==> Rows(enc[..], n, k)[r] == Unit(k, r)
        invariant forall c :: 0 <= c < j ==> Rows(enc[..], n, k)[i][c] == Unit(k, i)[c]
      {
        WriteAt(enc, n, k, i, j, if i == j then 1 else 0);
      }
      assert Rows(enc[..], n, k)[i] == Unit(k, i);
    }
  }

  /** `buildEncMatrix` of the encoder and of the decoder. */
  method BuildEncMatrix(gf: Tables, k: nat, n: nat) returns (enc: array<byte>)
    requires gf.Valid() && 1 <= k <= n <= 255
    ensures fresh(enc) && enc.Length == n * k
    ensures Rows(enc[..], n, k) == Generator(k, n)
  {
    hide Tables.Valid, Rows, Power, Exp, Basis, Dot, InverseVandermonde, GeneratorRow;
    var tmp := new byte[n * k](_ => 0);
    enc := new byte[n * k](_ => 0);
    FillVandermonde(gf, tmp, n, k);
    ghost var ps := Points(k);
    PointsDistinct(k);
    InvertVandermonde(gf, tmp, n, k, ps);
    InverseOfPoints(Rows(tmp[..], n, k), k);
    MatMul(gf, tmp, enc, n, k, k);
    forall r, j | k <= r < n && 0 <= j < k ensures Rows(enc[..], n, k)[r][j] == GeneratorRow(k, r)[j] {
      ColumnIsBasis(Rows(tmp[..], n, k), ps, j);
      ProductRow(k, r, j);
    }
    SetIdentity(enc, n, k);
    forall r | 0 <= r < n ensures Rows(enc[..], n, k)[r] == GeneratorRow(k, r) {
      if r < k {
        GeneratorIsSystematic(k, r);
      }
    }
  }

  /** The first point in use is 0, so the result is the inverse. */
  lemma {:induction false} InverseOfPoints(m: Mat, k: nat)
    requires 1 <= k <= 255 && |m| >= k && forall i :: 0 <= i < k ==> |m[i]| == k
    requires k == 1 ==> m[0] == PowerRow(Points(k)[0], k)
    requires k >= 2 ==> forall i, j :: 0 <= i < k && 0 <= j < k ==> m[i][j] == ComputedColumn(Points(k), j)[i]
    ensures Distinct(Points(k)) && forall i :: 0 <= i < k ==> m[i] == InverseVandermonde(Points(k))[i]
  {
    hide Basis, ComputedColumn, Exp;
    var ps := Points(k);
    PointsDistinct(k);
    if k == 1 {
      SinglePoint(ps);
    } else {
      FirstPointIsZero(k);
      ZeroProducts(ps[1]);
      MulComm(ps[1], 0);
      InverseExactlyWhenLoopIsRight(ps);
      forall i | 0 <= i < k ensures m[i] == InverseVandermonde(ps)[i] {
        forall j | 0 <= j < k ensures m[i][j] == InverseVandermonde(ps)[i][j] {
          assert ComputedColumn(ps, j) == Basis(ps, j);
        }
      }
    }
  }

  lemma {:induction false} FirstPointIsZero(k: nat)
    requires 1 <= k <= 255
    ensures Points(k)[0] == 0
  {}

  lemma {:induction false} ColumnIsBasis(m: Mat, ps: seq<byte>, j: nat)
    requires Distinct(ps) && j < |ps| <= |m|
    requires forall i :: 0 <= i < |ps| ==> m[i] == InverseVandermonde(ps)[i] && |m[i]| == |ps|
    ensures Column(m, |ps|, j) == Basis(ps, j)
  {
    hide Basis;
  }
}
