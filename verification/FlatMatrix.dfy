/** The loops of pkg/fec/zfex.go over a flat matrix: `gfAddMul`, `matMul`, `invertMatrix`. */
module FlatMatrix {
  import opened Gf256
  import opened Gf256Powers
  import opened Gf256Tables
  import opened Polynomials
  import opened Matrices
  import opened GaussJordan

  // ------------------------------------------------------------------ slices

  /** s with the |v| entries from lo on replaced by v. */
  function Splice(s: Vec, lo: nat, v: Vec): (t: Vec)
    requires lo + |v| <= |s|
    ensures |t| == |s|
  {
    s[..lo] + v + s[lo + |v|..]
  }

  lemma {:induction false} SpliceSet(s: Vec, lo: nat, v: Vec, i: nat, x: byte)
    requires lo + |v| <= |s| && i < |v|
    ensures Splice(s, lo, v)[lo + i] == v[i]
    ensures Splice(s, lo, v)[lo + i := x] == Splice(s, lo, v[i := x])
  {}

  lemma {:induction false} SpliceSame(s: Vec, lo: nat, n: nat)
    requires lo + n <= |s|
    ensures Splice(s, lo, s[lo..lo + n]) == s
  {}

  /** A loop has replaced the first n elements of `from` by those of `to`. */
  function Part<T>(from: seq<T>, to: seq<T>, n: nat): (t: seq<T>)
    requires n <= |from| == |to|
    ensures |t| == |from|
  {
    to[..n] + from[n..]
  }

  lemma {:induction false} PartEnds<T>(from: seq<T>, to: seq<T>)
    requires |from| == |to|
    ensures Part(from, to, 0) == from && Part(from, to, |from|) == to
  {}

  lemma {:induction false} PartStep<T>(from: seq<T>, to: seq<T>, n: nat)
    requires n < |from| == |to|
    ensures Part(from, to, n)[n] == from[n]
    ensures Part(from, to, n)[n := to[n]] == Part(from, to, n + 1)
  {}

  lemma {:induction false} AddMulByZero(dst: Vec, src: Vec)
    requires |dst| == |src|
    ensures AddMul(dst, src, 0) == dst
  {
    hide Add, Mul;
    forall i | 0 <= i < |dst| ensures Add(dst[i], Mul(0, src[i])) == dst[i] {
      ZeroProducts(src[i]);
      AddLaws(dst[i], 0, 0);
    }
  }

  /**
    `gfAddMul` on the n-byte slices of `dst` from `dlo` and of `src` from `slo`.
    The slices may belong to one array as long as they do not overlap.
  */
  method GfAddMul(gf: Tables, dst: array<byte>, dlo: nat, src: array<byte>, slo: nat, n: nat, c: byte)
    requires gf.Valid() && dlo + n <= dst.Length && slo + n <= src.Length
    requires dst != src || dlo + n <= slo || slo + n <= dlo
    modifies dst
    ensures dst[..] == Splice(old(dst[..]), dlo, AddMul(old(dst[dlo..dlo + n]), old(src[slo..slo + n]), c))
  {
    hide Tables.Valid, Add, Mul, Part, Splice;
    ghost var before := dst[..];
    ghost var d0, s0 := dst[dlo..dlo + n], src[slo..slo + n];
    SpliceSame(before, dlo, n);
    if c == 0 {
      AddMulByZero(d0, s0);
      return;
    }
    ghost var want := AddMul(d0, s0, c);
    PartEnds(d0, want);
    for i := 0 to n
      invariant dst[..] == Splice(before, dlo, Part(d0, want, i))
      invariant src[slo..slo + n] == s0
    {
      PartStep(d0, want, i);
      SpliceSet(before, dlo, Part(d0, want, i), i, want[i]);
      ghost var now := dst[..];
      assert dst[dlo + i] == now[dlo + i] && src[slo + i] == src[slo..slo + n][i];
      dst[dlo + i] := Add(dst[dlo + i], gf.GfMul(c, src[slo + i]));
      assert dst[..] == now[dlo + i := want[i]];
    }
  }

  // ----------------------------------------------------------- rows of a matrix

  lemma {:induction false} SpliceRow(s: Vec, n: nat, k: nat, r: nat, v: Vec)
    requires |s| == n * k && r < n && |v| == k
    ensures r * k + k <= |s|
    ensures Rows(Splice(s, r * k, v), n, k) == Rows(s, n, k)[r := v]
  {
    RowFits(r, n, k);
    var t := Splice(s, r * k, v);
    forall q | 0 <= q < n ensures Rows(t, n, k)[q] == Rows(s, n, k)[r := v][q] {
      RowFits(q, n, k);
      if q < r {
        RowFits(q, r, k);
      } else if r < q {
        RowFits(r, q, k);
      }
    }
  }

  lemma {:induction false} RowsApart(i: nat, j: nat, n: nat, k: nat)
    requires i < n && j < n && i != j
    ensures i * k + k <= n * k && j * k + k <= n * k
    ensures i * k + k <= j * k || j * k + k <= i * k
  {
    RowFits(i, n, k);
    RowFits(j, n, k);
    if i < j {
      RowFits(i, j, k);
    } else {
      RowFits(j, i, k);
    }
  }

  /** Row `dst` gains c times row `src`. */
  method AddMulRow(gf: Tables, a: array<byte>, n: nat, k: nat, dst: nat, src: nat, c: byte)
    requires gf.Valid() && a.Length == n * k && dst < n && src < n && dst != src
    modifies a
    ensures Rows(a[..], n, k) == old(Rows(a[..], n, k))[
        dst := AddMul(old(Rows(a[..], n, k))[dst], old(Rows(a[..], n, k))[src], c)]
  {
    hide Tables.Valid, Splice;
    var d, s := dst * k, src * k;
    RowsApart(dst, src, n, k);
    RowIs(a[..], n, k, dst);
    RowIs(a[..], n, k, src);
    hide Rows;
    ghost var m := Rows(a[..], n, k);
    SpliceRow(a[..], n, k, dst, AddMul(m[dst], m[src], c));
    assert a[d..d + k] == a[..][d..d + k] && a[s..s + k] == a[..][s..s + k];
    GfAddMul(gf, a, d, a, s, k, c);
  }

  lemma {:induction false} RowIs(s: Vec, n: nat, k: nat, r: nat)
    requires |s| == n * k && r < n
    ensures r * k + k <= |s| && Rows(s, n, k)[r] == s[r * k..r * k + k]
  {
    RowFits(r, n, k);
  }

  method WriteAt(a: array<byte>, n: nat, k: nat, r: nat, c: nat, x: byte)
    requires a.Length == n * k && r < n && c < k
    modifies a
    ensures Rows(a[..], n, k) == SetCell(old(Rows(a[..], n, k)), r, c, x)
  {
    WriteCell(a[..], n, k, r, c, x);
    ghost var s := a[..];
    a[r * k + c] := x;
    assert a[..] == s[r * k + c := x];
  }

  method ReadAt(a: array<byte>, n: nat, k: nat, r: nat, c: nat) returns (x: byte)
    requires a.Length == n * k && r < n && c < k
    ensures x == Rows(a[..], n, k)[r][c]
  {
    WriteCell(a[..], n, k, r, c, 0);
    x := a[r * k + c];
  }

  lemma {:induction false} SetRow(m: Mat, r: nat, v: Vec, c: nat, x: byte)
    requires r < |m| && c < |v|
    ensures SetCell(m[r := v], r, c, x) == m[r := v[c := x]]
  {}

  method ScaleRow(gf: Tables, a: array<byte>, n: nat, k: nat, r: nat, c: byte)
    requires gf.Valid() && a.Length == n * k && r < n
    modifies a
    ensures Rows(a[..], n, k) == old(Rows(a[..], n, k))[r := Scale(old(Rows(a[..], n, k))[r], c)]
  {
    hide Tables.Valid, Rows, Mul, Part, SetCell;
    ghost var m := Rows(a[..], n, k);
    ghost var want := Scale(m[r], c);
    PartEnds(m[r], want);
    assert m[r := m[r]] == m;
    for ix := 0 to k
      invariant Rows(a[..], n, k) == m[r := Part(m[r], want, ix)]
    {
      PartStep(m[r], want, ix);
      SetRow(m, r, Part(m[r], want, ix), ix, want[ix]);
      var x := ReadAt(a, n, k, r, ix);
      WriteAt(a, n, k, r, ix, gf.GfMul(c, x));
    }
  }

  lemma {:induction false} SetRowOfTwo(m: Mat, i: nat, j: nat, v: Vec, w: Vec, c: nat, x: byte, y: byte)
    requires i < |m| && j < |m| && i != j && c < |v| && c < |w|
    ensures SetCell(SetCell(m[i := v][j := w], i, c, x), j, c, y) == m[i := v[c := x]][j := w[c := y]]
  {}

  method SwapRows(a: array<byte>, n: nat, k: nat, i: nat, j: nat)
    requires a.Length == n * k && i < n && j < n && i != j
    modifies a
    ensures Rows(a[..], n, k) == SwapAt(old(Rows(a[..], n, k)), i, j)
  {
    hide Rows, Part, SetCell;
    ghost var m := Rows(a[..], n, k);
    PartEnds(m[i], m[j]);
    PartEnds(m[j], m[i]);
    assert m[i := m[i]][j := m[j]] == m;
    for ix := 0 to k
      invariant Rows(a[..], n, k) == m[i := Part(m[i], m[j], ix)][j := Part(m[j], m[i], ix)]
    {
      PartStep(m[i], m[j], ix);
      PartStep(m[j], m[i], ix);
      SetRowOfTwo(m, i, j, Part(m[i], m[j], ix), Part(m[j], m[i], ix), ix, m[j][ix], m[i][ix]);
      var x := ReadAt(a, n, k, i, ix);
      var y := ReadAt(a, n, k, j, ix);
      WriteAt(a, n, k, i, ix, y);
      WriteAt(a, n, k, j, ix, x);
    }
  }

  lemma {:induction false} SetTwoCells(m: Mat, r: nat, i: nat, j: nat)
    requires r < |m| && i < |m[r]| && j < |m[r]|
    ensures SetCell(SetCell(m, r, i, m[r][j]), r, j, m[r][i]) == m[r := SwapAt(m[r], i, j)]
  {}

  method SwapCols(a: array<byte>, k: nat, i: nat, j: nat)
    requires a.Length == k * k && i < k && j < k
    modifies a
    ensures Rows(a[..], k, k) == SwapColumns(old(Rows(a[..], k, k)), i, j)
  {
    hide Rows, Part, SetCell, SwapAt;
    ghost var m := Rows(a[..], k, k);
    ghost var want := SwapColumns(m, i, j);
    PartEnds(m, want);
    for row := 0 to k
      invariant Rows(a[..], k, k) == Part(m, want, row)
    {
      PartStep(m, want, row);
      SetTwoCells(Part(m, want, row), row, i, j);
      var x := ReadAt(a, k, k, row, i);
      var y := ReadAt(a, k, k, row, j);
      WriteAt(a, k, k, row, i, y);
      WriteAt(a, k, k, row, j, x);
    }
  }

  // ------------------------------------------------------------- one pivot step

  lemma {:induction false} PivotRowOfOne(s: Mat, p: nat)
    requires IsMat(s, |s|, |s|) && p < |s| && s[p][p] == 1
    ensures PivotRow(s, p) == s[p]
  {
    hide Mul;
    InvIsInverse(1);
    MulByOne(Inv(1));
    forall i | 0 <= i < |s| ensures PivotRow(s, p)[i] == s[p][i] {
      MulByOne(s[p][i]);
    }
  }

  /** Divide the pivot row by the pivot, which leaves its inverse on the diagonal. */
  method NormalizeRow(gf: Tables, a: array<byte>, k: nat, p: nat)
    requires gf.Valid() && a.Length == k * k && p < k && Rows(a[..], k, k)[p][p] != 0
    modifies a
    ensures Rows(a[..], k, k) == old(Rows(a[..], k, k))[p := PivotRow(old(Rows(a[..], k, k)), p)]
  {
    hide Tables.Valid, Rows, Mul, Inv;
    ghost var m := Rows(a[..], k, k);
    var c := ReadAt(a, k, k, p, p);
    if c != 1 {
      c := gf.GfInv(c);
      WriteAt(a, k, k, p, p, 1);
      ScaleRow(gf, a, k, k, p, c);
    } else {
      PivotRowOfOne(m, p);
    }
  }

  /** `isIdentity`: the row equals the unit row, which `idRow` holds. */
  method RowIsUnit(a: array<byte>, k: nat, p: nat, idRow: array<byte>) returns (isIdentity: bool)
    requires a.Length == k * k && p < k && idRow.Length == k && idRow[..] == Unit(k, p)
    ensures isIdentity <==> Rows(a[..], k, k)[p] == Unit(k, p)
  {
    hide Rows;
    isIdentity := true;
    for ix := 0 to k
      invariant isIdentity
      invariant forall i :: 0 <= i < ix ==> Rows(a[..], k, k)[p][i] == Unit(k, p)[i]
    {
      var x := ReadAt(a, k, k, p, ix);
      assert idRow[ix] == idRow[..][ix];
      if x != idRow[ix] {
        isIdentity := false;
        break;
      }
    }
  }

  /** Eliminating with a unit row changes no other row. */
  lemma {:induction false} UnitRowEliminates(s: Mat, p: nat, r: nat)
    requires IsMat(s, |s|, |s|) && p < |s| && s[p][p] != 0 && r < |s| && r != p
    requires PivotRow(s, p) == Unit(|s|, p)
    ensures Eliminated(s, p, r) == s[r]
  {
    hide Add, Mul, PivotRow;
    var c := s[r][p];
    MulByOne(c);
    ZeroProducts(c);
    forall i | 0 <= i < |s| ensures Eliminated(s, p, r)[i] == s[r][i] {
      AddLaws(s[r][i], 0, 0);
    }
  }

  method EliminateOthers(gf: Tables, a: array<byte>, k: nat, p: nat, ghost m: Mat)
    requires gf.Valid() && a.Length == k * k && p < k
    requires IsMat(m, k, k) && m[p][p] != 0 && Rows(a[..], k, k) == m[p := PivotRow(m, p)]
    modifies a
    ensures Rows(a[..], k, k) == Pivot(m, p)
  {
    hide Tables.Valid, Rows, Mul, Add, PivotRow, Eliminated, Part, SetCell, AddMul;
    ghost var want := Pivot(m, p);
    ghost var start: Mat := m[p := PivotRow(m, p)];
    PartEnds(start, want);
    for ix := 0 to k
      invariant Rows(a[..], k, k) == Part(start, want, ix)
    {
      PartStep(start, want, ix);
      PartAt(start, want, ix, p);
      if ix != p {
        EliminateRow(m, p, ix, Part(start, want, ix));
        var c := ReadAt(a, k, k, ix, p);
        WriteAt(a, k, k, ix, p, 0);
        AddMulRow(gf, a, k, k, ix, p, c);
      }
    }
  }

  lemma {:induction false} PartAt<T>(from: seq<T>, to: seq<T>, n: nat, p: nat)
    requires n <= |from| == |to| && p < |from| && from[p] == to[p]
    ensures Part(from, to, n)[p] == to[p]
    ensures n == p ==> Part(from, to, n + 1) == Part(from, to, n)
  {}

  /** The two statements of the elimination loop turn row r into the eliminated row. */
  lemma {:induction false} EliminateRow(m: Mat, p: nat, r: nat, now: Mat)
    requires IsMat(m, |m|, |m|) && p < |m| && r < |m| && r != p && m[p][p] != 0
    requires IsMat(now, |m|, |m|) && now[r] == m[r] && now[p] == PivotRow(m, p)
    ensures var zeroed := SetCell(now, r, p, 0);
      |zeroed| == |m| && |zeroed[r]| == |zeroed[p]| &&
      zeroed[r := AddMul(zeroed[r], zeroed[p], m[r][p])] == now[r := Eliminated(m, p, r)]
  {
    hide PivotRow, AddMul;
  }

  // -------------------------------------------------------------------- the pivots

  function CountTrue(b: seq<bool>): nat
  {
    if b == [] then 0 else CountTrue(b[..|b| - 1]) + (if b[|b| - 1] then 1 else 0)
  }

  lemma {:induction false} CountSet(b: seq<bool>, i: nat)
    requires i < |b| && !b[i]
    ensures CountTrue(b[i := true]) == CountTrue(b) + 1
  {
    var n := |b| - 1;
    if i == n {
      assert b[i := true][..n] == b[..n];
    } else {
      assert b[i := true][..n] == b[..n][i := true];
      CountSet(b[..n], i);
    }
  }

  lemma {:induction false} CountAll(b: seq<bool>)
    ensures CountTrue(b) <= |b|
    ensures CountTrue(b) == |b| <==> forall i :: 0 <= i < |b| ==> b[i]
    ensures (forall i :: 0 <= i < |b| ==> !b[i]) ==> CountTrue(b) == 0
  {
    if b != [] {
      CountAll(b[..|b| - 1]);
    }
  }

  /** What the pivot arrays of the program record. */
  ghost predicate Records(ipiv: seq<nat>, piv: seq<bool>)
  {
    |ipiv| == |piv| && forall i :: 0 <= i < |piv| ==> ipiv[i] == if piv[i] then 1 else 0
  }

  /** The diagonal if it serves, otherwise the first open row with an entry in an open column. */
  method FindPivot(a: array<byte>, k: nat, ipiv: array<nat>, col: nat, ghost piv: seq<bool>)
    returns (irow: nat, icol: nat)
    requires a.Length == k * k && ipiv.Length == k && col < k && Records(ipiv[..], piv)
    requires exists r :: 0 <= r < k && !piv[r] && HasPivotIn(Rows(a[..], k, k), piv, r)
    ensures irow < k && icol < k && !piv[irow] && !piv[icol] && Rows(a[..], k, k)[irow][icol] != 0
  {
    hide Rows;
    assert forall i :: 0 <= i < k ==> ipiv[i] == ipiv[..][i];
    ghost var m := Rows(a[..], k, k);
    irow, icol := 0, 0;
    var x := ReadAt(a, k, k, col, col);
    if ipiv[col] != 1 && x != 0 {
      irow, icol := col, col;
    } else {
      var found := false;
      var row := 0;
      while row < k && !found
        invariant row <= k
        invariant !found ==> forall r :: 0 <= r < row && !piv[r] ==> !HasPivotIn(m, piv, r)
        invariant found ==> irow < k && icol < k && !piv[irow] && !piv[icol] && m[irow][icol] != 0
      {
        if ipiv[row] != 1 {
          for ix := 0 to k
            invariant !found && forall j :: 0 <= j < ix && !piv[j] ==> m[row][j] == 0
          {
            x := ReadAt(a, k, k, row, ix);
            if ipiv[ix] == 0 && x != 0 {
              irow, icol, found := row, ix, true;
              break;
            }
          }
        }
        row := row + 1;
      }
    }
  }

  /** One round of the elimination: normalise row p and clear column p elsewhere. */
  method PivotAt(gf: Tables, a: array<byte>, k: nat, p: nat, idRow: array<byte>)
    requires gf.Valid() && a.Length == k * k && p < k && Rows(a[..], k, k)[p][p] != 0
    requires idRow != a && idRow[..] == Zeros(k)
    modifies a, idRow
    ensures Rows(a[..], k, k) == Pivot(old(Rows(a[..], k, k)), p)
    ensures idRow[..] == Zeros(k)
  {
    hide Tables.Valid, Rows, PivotRow, Eliminated, Mul, Add;
    ghost var m := Rows(a[..], k, k);
    NormalizeRow(gf, a, k, p);
    idRow[p] := 1;
    assert idRow[..] == Unit(k, p);
    var isIdentity := RowIsUnit(a, k, p, idRow);
    if !isIdentity {
      EliminateOthers(gf, a, k, p, m);
    } else {
      forall r | 0 <= r < k ensures m[p := PivotRow(m, p)][r] == Pivot(m, p)[r] {
        if r != p {
          UnitRowEliminates(m, p, r);
        }
      }
    }
    idRow[p] := 0;
    assert idRow[..] == Zeros(k);
  }

  /** What the elimination loop keeps: the buffer is a tableau of `a` with `n` pivots. */
  ghost predicate Progress(m: Mat, a: Mat, piv: seq<bool>, swaps: seq<Swap>, n: nat)
  {
    && IsMat(m, |piv|, |piv|) && IsMat(a, |piv|, |piv|) && InRange(swaps, |piv|)
    && Tableau(m, a, piv, swaps) && CountTrue(piv) == |swaps| == n
  }

  lemma {:induction false} ProgressStart(a: Mat, piv: seq<bool>)
    requires IsMat(a, |piv|, |piv|) && forall i :: 0 <= i < |piv| ==> !piv[i]
    ensures Progress(a, a, piv, [], 0)
  {
    InitialTableau(a, piv);
    CountAll(piv);
  }

  lemma {:induction false} ProgressFindsPivot(m: Mat, a: Mat, piv: seq<bool>, swaps: seq<Swap>, n: nat)
    requires Progress(m, a, piv, swaps, n) && n < |piv| && Nonsingular(a)
    ensures exists r :: 0 <= r < |piv| && !piv[r] && HasPivotIn(m, piv, r)
  {
    hide Tableau;
    CountAll(piv);
    var j: nat :| j < |piv| && !piv[j];
    PivotExists(m, a, piv, swaps, j);
  }

  lemma {:induction false} ProgressStep(m: Mat, a: Mat, piv: seq<bool>, swaps: seq<Swap>, n: nat, i: nat, j: nat)
    requires Progress(m, a, piv, swaps, n) && i < |piv| && j < |piv| && !piv[i] && !piv[j] && m[i][j] != 0
    ensures var s := SwapAt(m, i, j);
      IsMat(s, |piv|, |piv|) && s[j][j] != 0 &&
      Progress(Pivot(s, j), a, piv[j := true], swaps + [(i, j)], n + 1)
  {
    hide Tableau, Pivot;
    SwapKeepsTableau(m, a, piv, swaps, i, j);
    PivotKeepsTableau(SwapAt(m, i, j), a, piv, swaps + [(i, j)], j);
    CountSet(piv, j);
  }

  lemma {:induction false} ProgressDone(m: Mat, a: Mat, piv: seq<bool>, swaps: seq<Swap>)
    requires Progress(m, a, piv, swaps, |piv|)
    ensures IsMat(m, |piv|, |piv|) && IsMat(a, |piv|, |piv|) && InRange(swaps, |piv|) && |swaps| == |piv|
    ensures InverseAfter(m, a, swaps)
  {
    CountAll(piv);
    AllPivoted(m, a, piv, swaps);
  }

  /** The elimination loop of `invertMatrix`. */
  method Eliminate(gf: Tables, src: array<byte>, k: nat, indxr: array<nat>, indxc: array<nat>)
    returns (ghost swaps: seq<Swap>)
    requires gf.Valid() && src.Length == k * k && indxr.Length == indxc.Length == k && indxr != indxc
    requires Nonsingular(Rows(src[..], k, k))
    modifies src, indxr, indxc
    ensures |swaps| == k && InRange(swaps, k)
    ensures forall c :: 0 <= c < k ==> swaps[c] == (indxr[c], indxc[c])
    ensures InverseAfter(Rows(src[..], k, k), old(Rows(src[..], k, k)), swaps)
  {
    hide Tables.Valid, Rows, Tableau, Pivot, Nonsingular, InverseAfter, SwapAt, Progress, HasPivotIn;
    var ipiv := new nat[k](_ => 0);
    var idRow := new byte[k](_ => 0);
    ghost var a := Rows(src[..], k, k);
    ghost var piv := seq(k, _ => false);
    swaps := [];
    ProgressStart(a, piv);
    assert idRow[..] == Zeros(k);
    for col := 0 to k
      invariant |piv| == k && |swaps| == col && Progress(Rows(src[..], k, k), a, piv, swaps, col)
      invariant Records(ipiv[..], piv)
      invariant idRow[..] == Zeros(k)
      invariant forall c :: 0 <= c < col ==> swaps[c] == (indxr[c], indxc[c])
    {
      ProgressFindsPivot(Rows(src[..], k, k), a, piv, swaps, col);
      var irow, icol := FindPivot(src, k, ipiv, col, piv);
      ProgressStep(Rows(src[..], k, k), a, piv, swaps, col, irow, icol);
      ipiv[icol] := ipiv[icol] + 1;
      if irow != icol {
        SwapRows(src, k, k, irow, icol);
      } else {
        SwapSelf(Rows(src[..], k, k), icol);
      }
      indxr[col] := irow;
      indxc[col] := icol;
      PivotAt(gf, src, k, icol, idRow);
      piv := piv[icol := true];
      swaps := swaps + [(irow, icol)];
    }
    ProgressDone(Rows(src[..], k, k), a, piv, swaps);
  }

  lemma {:induction false} SwapSelf<T>(s: seq<T>, i: nat)
    requires i < |s|
    ensures SwapAt(s, i, i) == s
  {}

  /** `invertMatrix` leaves the two-sided inverse of a nonsingular matrix in the buffer. */
  method InvertMatrix(gf: Tables, src: array<byte>, k: nat)
    requires gf.Valid() && src.Length == k * k
    requires Nonsingular(Rows(src[..], k, k))
    modifies src
    ensures LeftInverse(Rows(src[..], k, k), old(Rows(src[..], k, k)))
    ensures LeftInverse(old(Rows(src[..], k, k)), Rows(src[..], k, k))
  {
    hide Tables.Valid, Rows, Nonsingular, InverseAfter, SwapColumns, LeftInverse;
    var indxc := new nat[k](_ => 0);
    var indxr := new nat[k](_ => 0);
    ghost var a := Rows(src[..], k, k);
    ghost var swaps := Eliminate(gf, src, k, indxr, indxc);
    assert swaps[..k] == swaps;
    var col := k;
    while col > 0
      invariant col <= k && InverseAfter(Rows(src[..], k, k), a, swaps[..col])
      invariant forall c :: 0 <= c < k ==> swaps[c] == (indxr[c], indxc[c])
    {
      col := col - 1;
      UndoSwap(Rows(src[..], k, k), a, swaps[..col + 1]);
      assert swaps[..col + 1][..col] == swaps[..col] && swaps[..col + 1][col] == (indxr[col], indxc[col]);
      if indxr[col] != indxc[col] {
        SwapCols(src, k, indxr[col], indxc[col]);
      } else {
        SwapColumnsSelf(Rows(src[..], k, k), indxc[col]);
      }
    }
    Inverted(Rows(src[..], k, k), a);
  }

  lemma {:induction false} SwapColumnsSelf(m: Mat, i: nat)
    requires IsMat(m, |m|, |m|) && i < |m|
    ensures SwapColumns(m, i, i) == m
  {
    forall r | 0 <= r < |m| ensures SwapAt(m[r], i, i) == m[r] {
      SwapSelf(m[r], i);
    }
  }
}
