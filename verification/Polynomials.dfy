/**
  Polynomials over GF(2^8), as coefficient sequences with the constant term
  first: evaluation, division by x + r, and the bound on the number of roots.
*/
module Polynomials {
  import opened Gf256
  import opened Gf256Powers

  /** Horner evaluation of the polynomial at x. */
  function Eval(p: seq<byte>, x: byte): byte
  {
    if p == [] then 0 else Add(p[0], Mul(x, Eval(p[1..], x)))
  }

  predicate IsZero(p: seq<byte>)
  {
    forall i :: 0 <= i < |p| ==> p[i] == 0
  }

  function Scale(p: seq<byte>, c: byte): (q: seq<byte>)
    ensures |q| == |p|
  {
    seq(|p|, i requires 0 <= i < |p| => Mul(c, p[i]))
  }

  function Sum(p: seq<byte>, q: seq<byte>): (s: seq<byte>)
    requires |p| == |q|
    ensures |s| == |p|
  {
    seq(|p|, i requires 0 <= i < |p| => Add(p[i], q[i]))
  }

  /** The coefficients of (x + r) times the polynomial. */
  function TimesRoot(p: seq<byte>, r: byte): (q: seq<byte>)
    ensures |q| == |p| + 1
  {
    Sum([0] + p, Scale(p, r) + [0])
  }

  /** Synthetic division by x + r; the remainder is the value at r. */
  function Quotient(p: seq<byte>, r: byte): (q: seq<byte>)
    requires p != []
    ensures |q| == |p| - 1
  {
    if |p| == 1 then [] else [Eval(p[1..], r)] + Quotient(p[1..], r)
  }

  lemma {:induction false} AddLaws(a: byte, b: byte, c: byte)
    ensures Add(a, b) == Add(b, a)
    ensures Add(Add(a, b), c) == Add(a, Add(b, c))
    ensures Add(a, 0) == a && Add(0, a) == a && Add(a, a) == 0
    ensures Add(a, Add(a, b)) == b
  {
    XorComm(a, b);
    XorAssoc(a, b, c);
    XorZero(a);
    XorSelf(a);
    XorCancel(a, b);
  }

  lemma {:induction false} AddZeroMeansEqual(a: byte, b: byte)
    requires Add(a, b) == 0
    ensures a == b
  {
    hide Add;
    AddLaws(a, b, 0);
  }

  lemma {:induction false} EvalScale(p: seq<byte>, c: byte, x: byte)
    ensures Eval(Scale(p, c), x) == Mul(c, Eval(p, x))
  {
    hide Add, Mul;
    MulComm(c, 0);
    MulZero(c);
    if p != [] {
      assert Scale(p, c)[1..] == Scale(p[1..], c);
      EvalScale(p[1..], c, x);
      var e := Eval(p[1..], x);
      MulDistrib(c, p[0], Mul(x, e));
      MulAssoc(c, x, e);
      MulComm(c, x);
      MulAssoc(x, c, e);
    }
  }

  lemma {:induction false} EvalSum(p: seq<byte>, q: seq<byte>, x: byte)
    requires |p| == |q|
    ensures Eval(Sum(p, q), x) == Add(Eval(p, x), Eval(q, x))
  {
    hide Add, Mul;
    if p == [] {
      AddLaws(0, 0, 0);
    } else {
      assert Sum(p, q)[1..] == Sum(p[1..], q[1..]);
      EvalSum(p[1..], q[1..], x);
      MulDistrib(x, Eval(p[1..], x), Eval(q[1..], x));
      AddSwap(p[0], q[0], Mul(x, Eval(p[1..], x)), Mul(x, Eval(q[1..], x)));
    }
  }

  lemma {:induction false} EvalZero(p: seq<byte>, x: byte)
    requires IsZero(p)
    ensures Eval(p, x) == 0
  {
    hide Add, Mul;
    if p != [] {
      EvalZero(p[1..], x);
      MulComm(x, 0);
      MulZero(x);
      AddLaws(0, 0, 0);
    }
  }

  /** Multiplying by x shifts the coefficients up. */
  lemma {:induction false} EvalShift(p: seq<byte>, x: byte)
    ensures Eval([0] + p, x) == Mul(x, Eval(p, x))
  {
    assert ([0] + p)[1..] == p;
    AddLaws(Mul(x, Eval(p, x)), 0, 0);
  }

  lemma {:induction false} EvalPadded(p: seq<byte>, x: byte)
    ensures Eval(p + [0], x) == Eval(p, x)
  {
    hide Add, Mul;
    if p == [] {
      EvalZero([0], x);
    } else {
      assert (p + [0])[1..] == p[1..] + [0];
      EvalPadded(p[1..], x);
    }
  }

  lemma {:induction false} EvalTimesRoot(p: seq<byte>, r: byte, x: byte)
    ensures Eval(TimesRoot(p, r), x) == Mul(Add(x, r), Eval(p, x))
  {
    hide Add, Mul, Eval;
    var up := [0 as byte] + p;
    var scaled := Scale(p, r) + [0];
    EvalSum(up, scaled, x);
    EvalShift(p, x);
    EvalPadded(Scale(p, r), x);
    EvalScale(p, r, x);
    MulComm(Add(x, r), Eval(p, x));
    MulDistrib(Eval(p, x), x, r);
    MulComm(Eval(p, x), x);
    MulComm(Eval(p, x), r);
  }

  /** Division: p(x) + p(r) == (x + r) * q(x). */
  lemma {:induction false} QuotientDivides(p: seq<byte>, r: byte, x: byte)
    requires p != []
    ensures Add(Eval(p, x), Eval(p, r)) == Mul(Add(x, r), Eval(Quotient(p, r), x))
  {
    hide Add, Mul;
    var t := p[1..];
    if t == [] {
      MulComm(x, 0); MulComm(r, 0); MulZero(x); MulZero(r);
      AddLaws(p[0], 0, 0);
      MulComm(Add(x, r), 0); MulZero(Add(x, r));
    } else {
      var q := Quotient(t, r);
      QuotientDivides(t, r, x);
      assert Quotient(p, r)[1..] == q;
      DivisionStep(p[0], Eval(t, x), Eval(t, r), Eval(q, x), r, x);
    }
  }

  lemma {:induction false} DivisionStep(c: byte, tx: byte, tr: byte, q: byte, r: byte, x: byte)
    requires Add(tx, tr) == Mul(Add(x, r), q)
    ensures Add(Add(c, Mul(x, tx)), Add(c, Mul(r, tr))) == Mul(Add(x, r), Add(tr, Mul(x, q)))
  {
    hide Add, Mul;
    var d := Add(x, r);
    // the left side is x*tx + r*tr
    AddSwap(c, Mul(x, tx), c, Mul(r, tr));
    AddLaws(c, c, 0);
    AddLaws(Add(Mul(x, tx), Mul(r, tr)), 0, 0);
    // the right side is d*tr + x*(tx + tr)
    MulDistrib(d, tr, Mul(x, q));
    MulAssoc(d, x, q); MulComm(d, x); MulAssoc(x, d, q);
    MulDistrib(x, tx, tr);
    MulComm(d, tr); MulDistrib(tr, x, r); MulComm(tr, x); MulComm(tr, r);
    Rearrange(Mul(x, tx), Mul(r, tr), Mul(x, tr));
  }

  lemma {:induction false} Rearrange(a: byte, b: byte, c: byte)
    ensures Add(a, b) == Add(Add(c, b), Add(a, c))
  {
    hide Add;
    AddSwap(c, b, a, c);
    AddLaws(c, a, 0);
    AddSwap(a, c, b, c);
    AddLaws(c, c, 0);
    AddLaws(Add(a, b), 0, 0);
    AddLaws(b, c, 0);
    AddSwap(c, a, b, c);
  }

  predicate Distinct(xs: seq<byte>)
  {
    forall i, j :: 0 <= i < j < |xs| ==> xs[i] != xs[j]
  }

  lemma {:induction false} ZeroQuotient(p: seq<byte>, r: byte)
    requires p != [] && Eval(p, r) == 0 && IsZero(Quotient(p, r))
    ensures IsZero(p)
  {
    hide Add, Mul;
    MulComm(r, 0);
    MulZero(r);
    AddLaws(p[0], 0, 0);
    if |p| > 1 {
      assert Quotient(p, r)[0] == Eval(p[1..], r);
      assert Quotient(p, r)[1..] == Quotient(p[1..], r);
      ZeroQuotient(p[1..], r);
      assert p == [p[0]] + p[1..];
    } else {
      assert Eval(p[1..], r) == 0;
    }
  }

  /** A polynomial of degree below k with k distinct roots is zero. */
  lemma {:induction false} TooManyRoots(p: seq<byte>, xs: seq<byte>)
    requires |p| <= |xs| && Distinct(xs)
    requires forall i :: 0 <= i < |xs| ==> Eval(p, xs[i]) == 0
    ensures IsZero(p)
    decreases |p|
  {
    hide Add, Mul;
    if p != [] {
      var r, rest := xs[0], xs[1..];
      var q := Quotient(p, r);
      forall i | 0 <= i < |rest| ensures Eval(q, rest[i]) == 0 {
        QuotientDivides(p, r, rest[i]);
        AddLaws(0, 0, 0);
        if Add(rest[i], r) == 0 {
          AddZeroMeansEqual(rest[i], r);
        }
        NoZeroDivisors(Add(rest[i], r), Eval(q, rest[i]));
      }
      TooManyRoots(q, rest);
      ZeroQuotient(p, r);
    }
  }

  /** Polynomials that agree at as many points as they have coefficients are equal. */
  lemma {:induction false} EqualAtPoints(p: seq<byte>, q: seq<byte>, ps: seq<byte>)
    requires |p| == |q| == |ps| && Distinct(ps)
    requires forall i :: 0 <= i < |ps| ==> Eval(p, ps[i]) == Eval(q, ps[i])
    ensures p == q
  {
    hide Eval, Add;
    var d := Sum(p, q);
    forall i | 0 <= i < |ps| ensures Eval(d, ps[i]) == 0 {
      EvalSum(p, q, ps[i]);
      AddLaws(Eval(p, ps[i]), 0, 0);
    }
    TooManyRoots(d, ps);
    forall i | 0 <= i < |p| ensures p[i] == q[i] {
      assert Add(p[i], q[i]) == d[i];
      AddZeroMeansEqual(p[i], q[i]);
    }
  }
}
