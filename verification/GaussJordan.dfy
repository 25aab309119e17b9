/**
  The in-place Gauss-Jordan inversion of pkg/fec/zfex.go (`invertMatrix`).

  While the algorithm runs, the buffer S is a tableau: it maps the vector that
  holds x at the columns not yet pivoted and z at the pivoted ones to the vector
  with x and z exchanged, exactly when z is A x with the recorded swaps applied.
*/
module GaussJordan {
  import opened Gf256
  import opened Gf256Powers
  import opened Polynomials
  import opened Matrices

  type Swap = (nat, nat)

  predicate InRange(swaps: seq<Swap>, k: nat)
  {
    forall i :: 0 <= i < |swaps| ==> swaps[i].0 < k && swaps[i].1 < k
  }

  /** The recorded swaps, applied in order to the entries of y. */
  function ApplySwaps(y: Vec, swaps: seq<Swap>): (z: Vec)
    requires InRange(swaps, |y|)
    ensures |z| == |y|
  {
    if swaps == [] then y
    else
      var n := |swaps| - 1;
      SwapAt(ApplySwaps(y, swaps[..n]), swaps[n].0, swaps[n].1)
  }

  /** b at the pivoted positions, a elsewhere. */
  function Mix(piv: seq<bool>, a: Vec, b: Vec): (v: Vec)
    requires |piv| == |a| == |b|
    ensures |v| == |a|
  {
    seq(|a|, i requires 0 <= i < |a| => if piv[i] then b[i] else a[i])
  }

  ghost predicate Exchanges(s: Mat, piv: seq<bool>, x: Vec, z: Vec)
    requires IsMat(s, |piv|, |piv|) && |x| == |z| == |piv|
  {
    Apply(s, Mix(piv, x, z)) == Mix(piv, z, x)
  }

  ghost predicate Tableau(s: Mat, a: Mat, piv: seq<bool>, swaps: seq<Swap>)
    requires IsMat(s, |piv|, |piv|) && IsMat(a, |piv|, |piv|) && InRange(swaps, |piv|)
  {
    forall x: Vec, y: Vec :: |x| == |piv| && |y| == |piv| ==>
      (Exchanges(s, piv, x, ApplySwaps(y, swaps)) <==> y == Apply(a, x))
  }

  // ----------------------------------------------------------------- pivoting

  ghost function PivotRow(s: Mat, p: nat): (v: Vec)
    requires IsMat(s, |s|, |s|) && p < |s| && s[p][p] != 0
    ensures |v| == |s|
  {
    var row: Vec := s[p][p := 1];
    Scale(row, Inv(s[p][p]))
  }

  ghost function Eliminated(s: Mat, p: nat, r: nat): (v: Vec)
    requires IsMat(s, |s|, |s|) && p < |s| && s[p][p] != 0 && r < |s|
    ensures |v| == |s|
  {
    var row: Vec := s[r][p := 0];
    AddMul(row, PivotRow(s, p), s[r][p])
  }

  /** One elimination step on row and column p. */
  ghost function Pivot(s: Mat, p: nat): (t: Mat)
    requires IsMat(s, |s|, |s|) && p < |s| && s[p][p] != 0
    ensures IsMat(t, |s|, |s|)
  {
    seq(|s|, r requires 0 <= r < |s| => if r == p then PivotRow(s, p) else Eliminated(s, p, r))
  }

  lemma {:induction false} PivotRowSolves(s: Mat, p: nat, u: Vec, d: byte)
    requires IsMat(s, |s|, |s|) && p < |s| == |u| && s[p][p] != 0
    ensures Dot(s[p], u) == d <==> Dot(PivotRow(s, p), u[p := d]) == u[p]
  {
    hide Add, Mul;
    var a, n := s[p][p], |s|;
    var row: Vec := s[p][p := 1];
    var e := DotN(s[p], u, n);
    DotReplace(s[p], u, p, 1, d, n);
    DotScale(row, Inv(a), u[p := d], n);
    MulByOne(d);
    InvIsInverse(a);
    var t := Add(e, Add(Mul(a, u[p]), d));
    MulAssoc(Inv(a), a, u[p]);
    MulByOne(u[p]);
    AddLaws(Mul(a, u[p]), d, 0);
    AddLaws(e, d, Mul(a, u[p]));
    // t == (e + d) + a * u[p]
    AddLaws(Add(e, d), Mul(a, u[p]), 0);
    AddLaws(Mul(a, u[p]), Add(e, d), 0);
    AddLaws(Mul(a, u[p]), 0, 0);
    AddLaws(e, e, 0);
    AddLaws(Mul(a, u[p]), Mul(a, u[p]), 0);
    MulAssoc(a, Inv(a), t);
    MulByOne(t);
    if Add(e, d) == 0 {
      AddZeroMeansEqual(e, d);
    }
    CancelLeft(Mul(a, u[p]), Add(e, d));
  }

  lemma {:induction false} CancelLeft(a: byte, b: byte)
    ensures Add(b, a) == a ==> b == 0
  {
    hide Add;
    AddLaws(b, a, a);
    AddLaws(a, a, 0);
    AddLaws(b, 0, 0);
  }

  lemma {:induction false} EliminatedSolves(s: Mat, p: nat, r: nat, u: Vec, d: byte)
    requires IsMat(s, |s|, |s|) && p < |s| == |u| && s[p][p] != 0 && r < |s|
    requires Dot(PivotRow(s, p), u[p := d]) == u[p]
    ensures Dot(Eliminated(s, p, r), u[p := d]) == Dot(s[r], u)
  {
    hide Add, Mul, PivotRow;
    var n, c := |s|, s[r][p];
    var row: Vec := s[r][p := 0];
    DotAddMul(row, PivotRow(s, p), c, u[p := d], n);
    DotReplace(s[r], u, p, 0, d, n);
    ZeroProducts(d);
    AddLaws(Mul(c, u[p]), 0, 0);
    AddLaws(DotN(s[r], u, n), Mul(c, u[p]), Mul(c, u[p]));
    AddLaws(Mul(c, u[p]), 0, 0);
    AddLaws(DotN(s[r], u, n), 0, 0);
  }

  /** A pivot exchanges entry p of the argument with entry p of the result. */
  lemma {:induction false} PivotExchanges(s: Mat, p: nat, u: Vec, v: Vec)
    requires IsMat(s, |s|, |s|) && p < |s| == |u| == |v| && s[p][p] != 0
    ensures Apply(s, u) == v <==> Apply(Pivot(s, p), u[p := v[p]]) == v[p := u[p]]
  {
    hide Add, Mul, Dot, PivotRow, Eliminated;
    var u', v' := u[p := v[p]], v[p := u[p]];
    PivotRowSolves(s, p, u, v[p]);
    if Dot(s[p], u) == v[p] {
      forall r | 0 <= r < |s| ensures Apply(s, u)[r] == v[r] <==> Apply(Pivot(s, p), u')[r] == v'[r] {
        EliminatedSolves(s, p, r, u, v[p]);
      }
      assert Apply(s, u) == v <==> forall r :: 0 <= r < |s| ==> Apply(s, u)[r] == v[r];
      assert Apply(Pivot(s, p), u') == v' <==> forall r :: 0 <= r < |s| ==> Apply(Pivot(s, p), u')[r] == v'[r];
    } else {
      assert Apply(s, u)[p] != v[p];
      assert Apply(Pivot(s, p), u')[p] != v'[p];
    }
  }

  lemma {:induction false} PivotKeepsTableau(s: Mat, a: Mat, piv: seq<bool>, swaps: seq<Swap>, p: nat)
    requires IsMat(s, |piv|, |piv|) && IsMat(a, |piv|, |piv|) && InRange(swaps, |piv|)
    requires p < |piv| && !piv[p] && s[p][p] != 0
    requires Tableau(s, a, piv, swaps)
    ensures Tableau(Pivot(s, p), a, piv[p := true], swaps)
  {
    var piv' := piv[p := true];
    forall x: Vec, y: Vec | |x| == |piv| && |y| == |piv|
      ensures Exchanges(Pivot(s, p), piv', x, ApplySwaps(y, swaps)) <==> y == Apply(a, x)
    {
      var z := ApplySwaps(y, swaps);
      var u, v := Mix(piv, x, z), Mix(piv, z, x);
      hide Dot, Apply, Pivot;
      PivotExchanges(s, p, u, v);
      assert Mix(piv', x, z) == u[p := v[p]];
      assert Mix(piv', z, x) == v[p := u[p]];
      assert Exchanges(s, piv, x, z) <==> y == Apply(a, x);
    }
  }

  // ------------------------------------------------------------------- swapping

  lemma {:induction false} ApplySwapsPush(y: Vec, swaps: seq<Swap>, i: nat, j: nat)
    requires InRange(swaps, |y|) && i < |y| && j < |y|
    ensures InRange(swaps + [(i, j)], |y|)
    ensures ApplySwaps(y, swaps + [(i, j)]) == SwapAt(ApplySwaps(y, swaps), i, j)
  {
    assert (swaps + [(i, j)])[..|swaps|] == swaps;
  }

  /** Swapping two rows that are not pivoted is one more swap of the right-hand side. */
  lemma {:induction false} SwapKeepsTableau(s: Mat, a: Mat, piv: seq<bool>, swaps: seq<Swap>, i: nat, j: nat)
    requires IsMat(s, |piv|, |piv|) && IsMat(a, |piv|, |piv|) && InRange(swaps, |piv|)
    requires i < |piv| && j < |piv| && !piv[i] && !piv[j]
    requires Tableau(s, a, piv, swaps)
    ensures InRange(swaps + [(i, j)], |piv|)
    ensures Tableau(SwapAt(s, i, j), a, piv, swaps + [(i, j)])
  {
    var t := SwapAt(s, i, j);
    var more := swaps + [(i, j)];
    assert InRange(more, |piv|);
    forall x: Vec, y: Vec | |x| == |piv| && |y| == |piv|
      ensures Exchanges(t, piv, x, ApplySwaps(y, more)) <==> y == Apply(a, x)
    {
      var z := ApplySwaps(y, swaps);
      ApplySwapsPush(y, swaps, i, j);
      var z' := SwapAt(z, i, j);
      hide Dot;
      assert Mix(piv, x, z') == Mix(piv, x, z);
      assert Mix(piv, z', x) == SwapAt(Mix(piv, z, x), i, j);
      assert Apply(t, Mix(piv, x, z)) == SwapAt(Apply(s, Mix(piv, x, z)), i, j);
      SwapBothSides(Apply(s, Mix(piv, x, z)), Mix(piv, z, x), i, j);
      assert Exchanges(s, piv, x, z) <==> y == Apply(a, x);
    }
  }

  lemma {:induction false} SwapBothSides(u: Vec, v: Vec, i: nat, j: nat)
    requires |u| == |v| && i < |u| && j < |u|
    ensures SwapAt(u, i, j) == SwapAt(v, i, j) <==> u == v
  {
    assert SwapAt(SwapAt(u, i, j), i, j) == u;
    assert SwapAt(SwapAt(v, i, j), i, j) == v;
  }

  // ------------------------------------------------------------ finding a pivot

  /** The matrix itself is a tableau with nothing pivoted. */
  lemma {:induction false} InitialTableau(a: Mat, piv: seq<bool>)
    requires IsMat(a, |piv|, |piv|) && forall i :: 0 <= i < |piv| ==> !piv[i]
    ensures Tableau(a, a, piv, [])
  {
    forall x: Vec, y: Vec | |x| == |piv| && |y| == |piv|
      ensures Exchanges(a, piv, x, ApplySwaps(y, [])) <==> y == Apply(a, x)
    {
      hide Dot, Apply;
      assert Mix(piv, x, y) == x && Mix(piv, y, x) == y;
    }
  }

  lemma {:induction false} ApplySwapsZeros(k: nat, swaps: seq<Swap>)
    requires InRange(swaps, k)
    ensures ApplySwaps(Zeros(k), swaps) == Zeros(k)
  {
    if swaps != [] {
      ApplySwapsZeros(k, swaps[..|swaps| - 1]);
    }
  }

  ghost predicate HasPivotIn(s: Mat, piv: seq<bool>, r: nat)
    requires IsMat(s, |piv|, |piv|) && r < |piv|
  {
    exists j :: 0 <= j < |piv| && !piv[j] && s[r][j] != 0
  }

  /** While some column j is not pivoted, a nonsingular matrix leaves a pivot to choose. */
  lemma {:induction false} PivotExists(s: Mat, a: Mat, piv: seq<bool>, swaps: seq<Swap>, j: nat)
    requires IsMat(s, |piv|, |piv|) && IsMat(a, |piv|, |piv|) && InRange(swaps, |piv|)
    requires Tableau(s, a, piv, swaps) && Nonsingular(a)
    requires j < |piv| && !piv[j]
    ensures exists r :: 0 <= r < |piv| && !piv[r] && HasPivotIn(s, piv, r)
  {
    if forall r :: 0 <= r < |piv| && !piv[r] ==> !HasPivotIn(s, piv, r) {
      var x := StuckVector(s, piv, j);
      KernelVector(s, a, piv, swaps, x, j);
    }
  }

  /** A non-zero vector that the tableau exchanges for zero is mapped to zero by `a`. */
  lemma {:induction false} KernelVector(s: Mat, a: Mat, piv: seq<bool>, swaps: seq<Swap>, x: Vec, j: nat)
    requires IsMat(s, |piv|, |piv|) && IsMat(a, |piv|, |piv|) && InRange(swaps, |piv|)
    requires Tableau(s, a, piv, swaps)
    requires |x| == |piv| && j < |x| && x[j] == 1 && Exchanges(s, piv, x, Zeros(|piv|))
    ensures !Nonsingular(a)
  {
    hide Dot, Apply;
    var y := Zeros(|piv|);
    ApplySwapsZeros(|piv|, swaps);
    assert Exchanges(s, piv, x, ApplySwaps(y, swaps)) <==> y == Apply(a, x);
    assert x[j] != y[j];
  }

  /** Without a pivot in any open row, column j gives a non-zero vector mapped to zero. */
  lemma {:induction false} StuckVector(s: Mat, piv: seq<bool>, j: nat) returns (x: Vec)
    requires IsMat(s, |piv|, |piv|) && j < |piv| && !piv[j]
    requires forall r :: 0 <= r < |piv| && !piv[r] ==> !HasPivotIn(s, piv, r)
    ensures |x| == |piv| && x[j] == 1 && Exchanges(s, piv, x, Zeros(|piv|))
  {
    var k := |piv|;
    var y := Zeros(k);
    var column: Vec := seq(k, r requires 0 <= r < k => s[r][j]);
    x := Mix(piv, Unit(k, j), column);
    assert Mix(piv, x, y) == Unit(k, j);
    hide Dot;
    forall r | 0 <= r < k ensures Dot(s[r], Unit(k, j)) == Mix(piv, y, x)[r] {
      DotUnitAt(s[r], j);
      if !piv[r] {
        assert !HasPivotIn(s, piv, r);
      }
    }
    assert Apply(s, Unit(k, j)) == Mix(piv, y, x);
  }

  lemma {:induction false} DotUnitAt(u: Vec, j: nat)
    requires j < |u|
    ensures Dot(u, Unit(|u|, j)) == u[j]
  {
    DotUnit(u, j, |u|);
  }

  // -------------------------------------------------------------- undoing the swaps

  function SwapColumns(s: Mat, i: nat, j: nat): (t: Mat)
    requires IsMat(s, |s|, |s|) && i < |s| && j < |s|
    ensures IsMat(t, |s|, |s|)
  {
    seq(|s|, r requires 0 <= r < |s| => SwapAt(s[r], i, j))
  }

  lemma {:induction false} SwapColumnsApply(s: Mat, i: nat, j: nat, z: Vec)
    requires IsMat(s, |s|, |s|) && i < |s| && j < |s| == |z|
    ensures Apply(SwapColumns(s, i, j), z) == Apply(s, SwapAt(z, i, j))
  {
    hide Dot;
    forall r | 0 <= r < |s| ensures Dot(SwapAt(s[r], i, j), z) == Dot(s[r], SwapAt(z, i, j)) {
      DotSwap(s[r], SwapAt(z, i, j), i, j);
      assert SwapAt(SwapAt(z, i, j), i, j) == z;
    }
  }

  /** The buffer inverts `a` once the remaining swaps are applied to its argument. */
  ghost predicate InverseAfter(s: Mat, a: Mat, swaps: seq<Swap>)
    requires IsMat(s, |s|, |s|) && IsMat(a, |s|, |s|) && InRange(swaps, |s|)
  {
    forall x: Vec, y: Vec :: |x| == |s| && |y| == |s| ==>
      (Apply(s, ApplySwaps(y, swaps)) == x <==> y == Apply(a, x))
  }

  lemma {:induction false} AllPivoted(s: Mat, a: Mat, piv: seq<bool>, swaps: seq<Swap>)
    requires IsMat(s, |piv|, |piv|) && IsMat(a, |piv|, |piv|) && InRange(swaps, |piv|)
    requires Tableau(s, a, piv, swaps) && forall i :: 0 <= i < |piv| ==> piv[i]
    ensures InverseAfter(s, a, swaps)
  {
    forall x: Vec, y: Vec | |x| == |s| && |y| == |s|
      ensures Apply(s, ApplySwaps(y, swaps)) == x <==> y == Apply(a, x)
    {
      hide Dot, Apply;
      var z := ApplySwaps(y, swaps);
      assert Mix(piv, x, z) == z && Mix(piv, z, x) == x;
      assert Exchanges(s, piv, x, z) <==> y == Apply(a, x);
    }
  }

  lemma {:induction false} UndoSwap(s: Mat, a: Mat, swaps: seq<Swap>)
    requires IsMat(s, |s|, |s|) && IsMat(a, |s|, |s|) && InRange(swaps, |s|)
    requires swaps != [] && InverseAfter(s, a, swaps)
    ensures var n := |swaps| - 1;
      InverseAfter(SwapColumns(s, swaps[n].0, swaps[n].1), a, swaps[..n])
  {
    var n := |swaps| - 1;
    var i, j := swaps[n].0, swaps[n].1;
    forall x: Vec, y: Vec | |x| == |s| && |y| == |s|
      ensures Apply(SwapColumns(s, i, j), ApplySwaps(y, swaps[..n])) == x <==> y == Apply(a, x)
    {
      hide Dot, Apply, SwapColumns;
      SwapColumnsApply(s, i, j, ApplySwaps(y, swaps[..n]));
      assert Apply(s, ApplySwaps(y, swaps)) == x <==> y == Apply(a, x);
    }
  }

  lemma {:induction false} Inverted(s: Mat, a: Mat)
    requires IsMat(s, |s|, |s|) && IsMat(a, |s|, |s|) && InverseAfter(s, a, [])
    ensures LeftInverse(s, a) && LeftInverse(a, s)
  {
    forall v: Vec | |v| == |s| ensures Apply(s, Apply(a, v)) == v && Apply(a, Apply(s, v)) == v {
      hide Dot, Apply;
      var y := Apply(a, v);
      assert ApplySwaps(y, []) == y;
      assert Apply(s, ApplySwaps(y, [])) == v <==> y == Apply(a, v);
      var x := Apply(s, v);
      assert ApplySwaps(v, []) == v;
      assert Apply(s, ApplySwaps(v, [])) == x <==> v == Apply(a, x);
    }
  }
}
