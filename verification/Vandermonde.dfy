/**
  The generator matrix of the code, independent of how it is computed.

  Row r of the generator holds the values at the r-th point of the Lagrange basis
  of the first k points, so a codeword holds the values at n points of the one
  polynomial of degree below k that takes the data as its values at the first k.
*/
module Vandermonde {
  import opened Gf256
  import opened Gf256Powers
  import opened Polynomials
  import opened Matrices

  // -------------------------------------------------------- the master polynomial

  /** The product of x + p over the points. */
  function Master(ps: seq<byte>): (m: seq<byte>)
    ensures |m| == |ps| + 1
  {
    if ps == [] then [1] else TimesRoot(Master(ps[..|ps| - 1]), ps[|ps| - 1])
  }

  lemma {:induction false} MasterIsMonic(ps: seq<byte>)
    ensures Master(ps)[|ps|] == 1
  {
    hide Add, Mul;
    if ps != [] {
      var n := |ps| - 1;
      MasterIsMonic(ps[..n]);
      AddLaws(1, 0, 0);
    }
  }

  lemma {:induction false} MasterVanishes(ps: seq<byte>, i: nat)
    requires i < |ps|
    ensures Eval(Master(ps), ps[i]) == 0
  {
    hide Add, Mul, TimesRoot;
    var n := |ps| - 1;
    var m := Master(ps[..n]);
    EvalTimesRoot(m, ps[n], ps[i]);
    if i == n {
      AddLaws(ps[n], 0, 0);
      MulZero(Eval(m, ps[n]));
    } else {
      MasterVanishes(ps[..n], i);
      ZeroProducts(Add(ps[i], ps[n]));
    }
  }

  // ---------------------------------------------------------- the Lagrange basis

  lemma {:induction false} QuotientLeads(p: seq<byte>, r: byte)
    requires |p| >= 2
    ensures Quotient(p, r)[|p| - 2] == p[|p| - 1]
  {
    hide Add, Mul;
    if |p| == 2 {
      ZeroProducts(r);
      AddLaws(p[1], 0, 0);
      assert p[1..][1..] == [];
      assert Eval(p[1..], r) == p[1];
    } else {
      QuotientLeads(p[1..], r);
    }
  }

  /** The product of x + p over all points but the j-th. */
  function Others(ps: seq<byte>, j: nat): (q: seq<byte>)
    requires j < |ps|
    ensures |q| == |ps|
  {
    Quotient(Master(ps), ps[j])
  }

  lemma {:induction false} OthersVanishes(ps: seq<byte>, j: nat, i: nat)
    requires j < |ps| && i < |ps| && ps[i] != ps[j]
    ensures Eval(Others(ps, j), ps[i]) == 0
  {
    hide Add, Mul, Master, Quotient;
    QuotientDivides(Master(ps), ps[j], ps[i]);
    MasterVanishes(ps, i);
    MasterVanishes(ps, j);
    AddLaws(0, 0, 0);
    if Add(ps[i], ps[j]) == 0 {
      AddZeroMeansEqual(ps[i], ps[j]);
    }
    NoZeroDivisors(Add(ps[i], ps[j]), Eval(Others(ps, j), ps[i]));
  }

  lemma {:induction false} OthersNonzero(ps: seq<byte>, j: nat)
    requires j < |ps| && Distinct(ps)
    ensures Eval(Others(ps, j), ps[j]) != 0
  {
    hide Add, Mul, Master, Quotient;
    var q := Others(ps, j);
    if Eval(q, ps[j]) == 0 {
      forall i | 0 <= i < |ps| ensures Eval(q, ps[i]) == 0 {
        if i != j {
          OthersVanishes(ps, j, i);
        }
      }
      TooManyRoots(q, ps);
      MasterIsMonic(ps);
      QuotientLeads(Master(ps), ps[j]);
    }
  }

  /** The j-th Lagrange basis polynomial of the points. */
  ghost function Basis(ps: seq<byte>, j: nat): (q: seq<byte>)
    requires j < |ps| && Distinct(ps)
    ensures |q| == |ps|
  {
    OthersNonzero(ps, j);
    Scale(Others(ps, j), Inv(Eval(Others(ps, j), ps[j])))
  }

  lemma {:induction false} BasisValue(ps: seq<byte>, j: nat, i: nat)
    requires j < |ps| && i < |ps| && Distinct(ps)
    ensures Eval(Basis(ps, j), ps[i]) == if i == j then 1 else 0
  {
    hide Add, Mul, Others, Eval, Scale;
    OthersNonzero(ps, j);
    var t := Eval(Others(ps, j), ps[j]);
    EvalScale(Others(ps, j), Inv(t), ps[i]);
    if i == j {
      InvIsInverse(t);
    } else {
      OthersVanishes(ps, j, i);
      ZeroProducts(Inv(t));
    }
  }

  // ------------------------------------------------------------ interpolation

  /** The values at x of the basis polynomials. */
  ghost function BasisAt(ps: seq<byte>, x: byte): (v: Vec)
    requires Distinct(ps)
    ensures |v| == |ps|
  {
    seq(|ps|, j requires 0 <= j < |ps| => Eval(Basis(ps, j), x))
  }

  /** The combination of the first n basis polynomials with coefficients v. */
  ghost function Combine(ps: seq<byte>, v: Vec, n: nat): (p: seq<byte>)
    requires Distinct(ps) && |v| == |ps| && n <= |ps|
    ensures |p| == |ps|
  {
    if n == 0 then Zeros(|ps|) else Sum(Combine(ps, v, n - 1), Scale(Basis(ps, n - 1), v[n - 1]))
  }

  /** The polynomial of degree below |ps| with value v[i] at the i-th point. */
  ghost function Interpolate(ps: seq<byte>, v: Vec): (p: seq<byte>)
    requires Distinct(ps) && |v| == |ps|
    ensures |p| == |ps|
  {
    Combine(ps, v, |ps|)
  }

  lemma {:induction false} CombineValue(ps: seq<byte>, v: Vec, n: nat, x: byte)
    requires Distinct(ps) && |v| == |ps| && n <= |ps|
    ensures Eval(Combine(ps, v, n), x) == DotN(BasisAt(ps, x), v, n)
  {
    hide Add, Mul, Eval, Basis, Scale, Sum;
    if n == 0 {
      EvalZero(Zeros(|ps|), x);
    } else {
      CombineValue(ps, v, n - 1, x);
      var b := Basis(ps, n - 1);
      EvalSum(Combine(ps, v, n - 1), Scale(b, v[n - 1]), x);
      EvalScale(b, v[n - 1], x);
      MulComm(v[n - 1], Eval(b, x));
    }
  }

  lemma {:induction false} BasisAtPoint(ps: seq<byte>, i: nat)
    requires Distinct(ps) && i < |ps|
    ensures BasisAt(ps, ps[i]) == Unit(|ps|, i)
  {
    hide Eval, Basis;
    forall j | 0 <= j < |ps| ensures BasisAt(ps, ps[i])[j] == Unit(|ps|, i)[j] {
      BasisValue(ps, j, i);
    }
  }

  lemma {:induction false} InterpolateHits(ps: seq<byte>, v: Vec, i: nat)
    requires Distinct(ps) && |v| == |ps| && i < |ps|
    ensures Eval(Interpolate(ps, v), ps[i]) == v[i]
  {
    hide Eval, Combine, BasisAt;
    CombineValue(ps, v, |ps|, ps[i]);
    BasisAtPoint(ps, i);
    DotUnit(v, i, |ps|);
  }

  // -------------------------------------------------------- the generator matrix

  /** Evaluation point of codeword row r: 0, 1, x, x^2, ... */
  function Point(r: nat): byte
  {
    if r == 0 then 0 else Exp(r - 1)
  }

  function Points(k: nat): (ps: seq<byte>)
    ensures |ps| == k
  {
    seq(k, i requires 0 <= i => Point(i))
  }

  lemma {:induction false} PointsApart(i: nat, j: nat)
    requires i < 256 && j < 256 && i != j
    ensures Point(i) != Point(j)
  {
    hide Exp;
    if i == 0 {
      ExpNonzero(j - 1);
    } else if j == 0 {
      ExpNonzero(i - 1);
    } else if Exp(i - 1) == Exp(j - 1) {
      ExpInjective(i - 1, j - 1);
    }
  }

  lemma {:induction false} PointsDistinct(k: nat)
    requires k <= 256
    ensures Distinct(Points(k))
  {
    forall i, j | 0 <= i < j < k ensures Points(k)[i] != Points(k)[j] {
      PointsApart(i, j);
    }
  }

  /** Row r of the generator matrix of a code with k data shards. */
  ghost function GeneratorRow(k: nat, r: nat): (v: Vec)
    requires k <= 255
    ensures |v| == k
  {
    PointsDistinct(k);
    BasisAt(Points(k), Point(r))
  }

  ghost function Generator(k: nat, n: nat): (m: Mat)
    requires k <= 255
    ensures IsMat(m, n, k)
  {
    seq(n, r requires 0 <= r < n => GeneratorRow(k, r))
  }

  /** The code is systematic: the first k rows are the identity. */
  lemma {:induction false} GeneratorIsSystematic(k: nat, r: nat)
    requires r < k <= 255
    ensures GeneratorRow(k, r) == Unit(k, r)
  {
    PointsDistinct(k);
    BasisAtPoint(Points(k), r);
  }

  /** A codeword symbol is the value at its point of the interpolated data. */
  lemma {:induction false} GeneratorInterpolates(k: nat, r: nat, d: Vec)
    requires k <= 255 && |d| == k
    ensures Distinct(Points(k))
    ensures Dot(GeneratorRow(k, r), d) == Eval(Interpolate(Points(k), d), Point(r))
  {
    hide Eval, Combine, BasisAt;
    PointsDistinct(k);
    CombineValue(Points(k), d, k, Point(r));
  }

  predicate ValidRows(rows: seq<nat>, n: nat)
  {
    && (forall i :: 0 <= i < |rows| ==> rows[i] < n)
    && (forall i, j :: 0 <= i < j < |rows| ==> rows[i] != rows[j])
  }

  ghost function PickRows(k: nat, rows: seq<nat>): (m: Mat)
    requires k <= 255
    ensures IsMat(m, |rows|, k)
  {
    seq(|rows|, i requires 0 <= i < |rows| => GeneratorRow(k, rows[i]))
  }

  /** Any k distinct rows of the generator are linearly independent. */
  lemma {:induction false} AnyRowsNonsingular(k: nat, rows: seq<nat>)
    requires k <= 255 && |rows| == k && ValidRows(rows, 256)
    ensures Nonsingular(PickRows(k, rows))
  {
    var m := PickRows(k, rows);
    forall v: Vec | |v| == k && Apply(m, v) == Zeros(k) ensures v == Zeros(k) {
      KernelIsZero(k, rows, v);
    }
  }

  lemma {:induction false} KernelIsZero(k: nat, rows: seq<nat>, v: Vec)
    requires k <= 255 && |rows| == k && ValidRows(rows, 256)
    requires |v| == k && Apply(PickRows(k, rows), v) == Zeros(k)
    ensures v == Zeros(k)
  {
    hide Eval, Interpolate, GeneratorRow, Dot;
    PointsDistinct(k);
    var p := Interpolate(Points(k), v);
    var xs: seq<byte> := seq(k, i requires 0 <= i < k => Point(rows[i]));
    forall i, j | 0 <= i < j < k ensures xs[i] != xs[j] {
      PointsApart(rows[i], rows[j]);
    }
    forall i | 0 <= i < k ensures Eval(p, xs[i]) == 0 {
      GeneratorInterpolates(k, rows[i], v);
      assert Apply(PickRows(k, rows), v)[i] == Zeros(k)[i];
    }
    TooManyRoots(p, xs);
    forall i | 0 <= i < k ensures v[i] == 0 {
      InterpolateHits(Points(k), v, i);
      EvalZero(p, Point(i));
    }
  }

  // ------------------------------------------- the generator without its points

  function Power(a: byte, c: nat): byte
  {
    if c == 0 then 1 else Mul(a, Power(a, c - 1))
  }

  /** 0, then 1, then each element twice the one before. */
  predicate Doubling(gs: seq<byte>)
  {
    && (|gs| > 0 ==> gs[0] == 0)
    && (|gs| > 1 ==> gs[1] == 1)
    && (forall i :: 2 <= i < |gs| ==> gs[i] == Mul(2, gs[i - 1]))
  }

  lemma {:induction false} DoublingIsPoints(gs: seq<byte>, r: nat)
    requires Doubling(gs) && r < |gs|
    ensures gs[r] == Point(r)
  {
    if r >= 2 {
      DoublingIsPoints(gs, r - 1);
      assert Exp(1) == 2 by {
        assert XTime(Exp(0)) == 2;
      }
      ExpAdd(1, r - 2);
    }
  }

  lemma {:induction false} EvalUnit(k: nat, c: nat, x: byte)
    requires c < k
    ensures Eval(Unit(k, c), x) == Power(x, c)
  {
    hide Add, Mul;
    var t := Unit(k, c)[1..];
    if c == 0 {
      EvalZero(t, x);
      ZeroProducts(x);
      AddLaws(1, 0, 0);
    } else {
      assert t == Unit(k - 1, c - 1);
      EvalUnit(k - 1, c - 1, x);
      AddLaws(Power(x, c), 0, 0);
    }
  }

  /**
    Row r of the generator takes the Vandermonde matrix of the first k elements
    1, g, g^2, ... of a doubling sequence to that row of the r-th element.
  */
  lemma {:induction false} GeneratorTimesVandermonde(k: nat, gs: seq<byte>, r: nat, c: nat)
    requires c < k <= 255 && k <= |gs| && r < |gs| && Doubling(gs)
    ensures Dot(GeneratorRow(k, r), seq(k, j requires 0 <= j < k => Power(gs[j], c))) == Power(gs[r], c)
  {
    hide Eval, Combine, GeneratorRow, Dot, Power;
    var d: Vec := seq(k, j requires 0 <= j < k => Power(gs[j], c));
    GeneratorInterpolates(k, r, d);
    forall i | 0 <= i < k ensures Eval(Interpolate(Points(k), d), Point(i)) == Eval(Unit(k, c), Point(i)) {
      DoublingIsPoints(gs, i);
      EvalUnit(k, c, Point(i));
      InterpolateHits(Points(k), d, i);
    }
    EqualAtPoints(Interpolate(Points(k), d), Unit(k, c), Points(k));
    DoublingIsPoints(gs, r);
    EvalUnit(k, c, Point(r));
  }

  lemma {:induction false} TwoProducts(u: Vec, w: Vec)
    requires |u| == |w| == 2
    ensures Dot(u, w) == Add(Mul(u[0], w[0]), Mul(u[1], w[1]))
  {
    hide Add, Mul;
    AddLaws(Mul(u[0], w[0]), 0, 0);
    assert DotN(u, w, 1) == Add(0, Mul(u[0], w[0]));
  }

  lemma {:induction false} TwoPlusOne()
    ensures Add(2, 1) == 3
  {
    XorDigit(1, 0, false, true);
  }

  /** The first parity row of a code of two data shards. */
  lemma {:induction false} GeneratorOfTwo()
    ensures GeneratorRow(2, 2) == [3, 2]
  {
    hide GeneratorRow, Dot, Add, Mul;
    var gs: seq<byte> := [0, 1, 2];
    var v := GeneratorRow(2, 2);
    MulByOne(2);
    MulByOne(1);
    forall c | c in {0, 1}
      ensures Dot(v, [Power(0, c), Power(1, c)]) == Power(2, c)
    {
      GeneratorTimesVandermonde(2, gs, 2, c);
      assert seq(2, j requires 0 <= j < 2 => Power(gs[j], c)) == [Power(0, c), Power(1, c)];
    }
    assert [Power(0, 0), Power(1, 0)] == [1, 1];
    assert [Power(0, 1), Power(1, 1)] == [0, 1] by {
      ZeroProducts(1);
    }
    assert Power(2, 1) == 2;
    TwoProducts(v, [1, 1]);
    TwoProducts(v, [0, 1]);
    MulByOne(v[0]);
    MulByOne(v[1]);
    ZeroProducts(v[0]);
    AddLaws(v[1], v[0], 0);
    AddLaws(v[0], 2, 0);
    assert Add(v[1], v[0]) == 1 && v[1] == 2;
    TwoPlusOne();
  }
}
