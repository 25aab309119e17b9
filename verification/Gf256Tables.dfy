/**
  The lookup tables of the field: powers, logarithms, inverses and products.
  The program fills them once and never changes them, so here they are a value.
*/
module Gf256Tables {
  import opened Gf256
  import opened Gf256Powers

  datatype Tables = Tables(exp: seq<byte>, log: seq<nat>, inverse: seq<byte>, product: seq<seq<byte>>) {

    ghost predicate Valid()
    {
      && |exp| == 510 && ExpHolds(exp, 510)
      && LogHolds(log, 255)
      && InverseHolds(inverse, 256)
      && |product| == 256 && forall a: byte :: ProductRow(product[a], a, 256)
    }

    /** `gfMul`: a table lookup that yields the field product. */
    function GfMul(a: byte, b: byte): (c: byte)
      requires Valid()
      ensures c == Mul(a, b)
    {
      product[a][b]
    }

    function GfExp(i: nat): (c: byte)
      requires Valid() && i < 510
      ensures c == Exp(i)
    {
      exp[i]
    }

    /** `gfInv`: the multiplicative inverse, with 0 for 0. */
    function GfInv(a: byte): (c: byte)
      requires Valid()
      ensures a == 0 ==> c == 0
      ensures a != 0 ==> Mul(a, c) == 1 && Mul(c, a) == 1 && c == Inv(a)
    {
      if a != 0 then InverseIsUnique(a, inverse[a]); inverse[a] else inverse[a]
    }
  }

  lemma {:induction false} InverseIsUnique(a: byte, c: byte)
    requires a != 0 && Mul(a, c) == 1
    ensures c == Inv(a) && Mul(c, a) == 1
  {
    hide Mul, Exp;
    InvIsInverse(a);
    MulAssoc(Inv(a), a, c);
    MulByOne(c);
    MulByOne(Inv(a));
    MulComm(a, c);
  }

  /** `modnn` computes x % 255 without a division. */
  method Modnn(x: nat) returns (r: nat)
    ensures r == x % 255
  {
    r := x;
    while r >= 255
      invariant r % 255 == x % 255
      decreases r
    {
      var y := r - 255;
      r := y / 256 + y % 256;
      FoldModulo(y);
    }
  }

  lemma {:induction false} FoldModulo(y: nat)
    ensures (y / 256 + y % 256) % 255 == (y + 255) % 255
  {
    var q, r := y / 256, y % 256;
    assert y + 255 == (q + r) + 255 * (q + 1);
    AddMultiple(q + r, q + 1);
  }

  lemma {:induction false} AddMultiple(a: nat, m: nat)
    ensures (a + 255 * m) % 255 == a % 255
  {}

  /** The first n powers have their exponents in the log table. */
  ghost predicate LogHolds(log: seq<nat>, n: nat)
  {
    |log| == 256 && forall i: nat :: i < n ==> log[Exp(i)] == i
  }

  ghost predicate ExpHolds(exp: seq<byte>, n: nat)
  {
    n <= |exp| && forall i: nat :: i < n ==> exp[i] == Exp(i)
  }

  /** A further power does not overwrite the entry of an earlier one. */
  lemma {:induction false} LogExtends(log: seq<nat>, n: nat)
    requires n < 255 && LogHolds(log, n)
    ensures LogHolds(log[Exp(n) := n], n + 1)
  {
    forall j: nat | j < n ensures Exp(j) != Exp(n) {
      if Exp(j) == Exp(n) {
        ExpInjective(j, n);
      }
    }
  }

  lemma {:induction false} LogOfZero(log: seq<nat>)
    requires LogHolds(log, 255)
    ensures LogHolds(log[0 := 255], 255)
  {
    forall j: nat | j < 255 ensures Exp(j) != 0 {
      ExpNonzero(j);
    }
  }

  /** Below the eighth, the powers of x are single bits. */
  lemma {:induction false} SmallPower(i: nat)
    requires i < 8
    ensures Exp(i) == Pow2(i)
  {
    if i > 0 {
      SmallPower(i - 1);
      SmallBits(i - 1);
    }
  }

  lemma {:induction false} SmallBits(i: nat)
    requires i < 8
    ensures Pow2(i) <= 128
    ensures i < 7 ==> Pow2(i) < 128
    ensures (2 * Pow2(i)) % 256 == if i < 7 then Pow2(i + 1) else 0
    decreases 8 - i
  {
    if i < 7 {
      SmallBits(i + 1);
    } else {
      assert Pow2(7) == 128;
    }
  }

  /** `initGF`: the powers below the eighth, and the reduction of the eighth. */
  method InitSmallPowers(exp: array<byte>, log: array<nat>)
    requires exp.Length == 510 && log.Length == 256
    modifies exp, log
    ensures ExpHolds(exp[..], 9) && LogHolds(log[..], 8)
  {
    hide Exp, XTime, Xor, Mul;
    var mask: byte := 1;
    exp[8] := 0;
    for i := 0 to 8
      invariant mask == if i < 8 then Pow2(i) else 0
      invariant exp[8] == if i == 0 then 0 else if i <= 2 then 1 else if i == 3 then 5 else if i == 4 then 13 else 29
      invariant ExpHolds(exp[..], i) && LogHolds(log[..], i)
    {
      SmallPower(i);
      SmallBits(i);
      LogExtends(log[..], i);
      exp[i] := mask;
      log[exp[i]] := i;
      // the set bits of x^4 + x^3 + x^2 + 1
      if i in [0, 2, 3, 4] {
        SparseBits(i);
        exp[8] := Add(exp[8], mask);
      }
      mask := (2 * mask) % 256;
    }
    EighthPower();
  }

  /** `initGF` for the power and log tables. */
  method InitExpLog() returns (exp: array<byte>, log: array<nat>)
    ensures fresh(exp) && fresh(log) && exp.Length == 510
    ensures ExpHolds(exp[..], 510) && LogHolds(log[..], 255)
  {
    hide Exp, XTime, Xor, Mul;
    exp := new byte[510](_ => 0);
    log := new nat[256](_ => 0);
    InitSmallPowers(exp, log);
    EighthPower();
    LogExtends(log[..], 8);
    log[exp[8]] := 8;
    var mask: byte := 128;
    for i := 9 to 255
      invariant ExpHolds(exp[..], i) && LogHolds(log[..], i)
    {
      LogExtends(log[..], i);
      NextPower(exp[i - 1], i);
      if exp[i - 1] >= mask {
        exp[i] := Add(exp[8], (2 * Add(exp[i - 1], mask)) % 256);
      } else {
        exp[i] := 2 * exp[i - 1];
      }
      log[exp[i]] := i;
    }
    LogOfZero(log[..]);
    log[0] := 255;
    for i := 0 to 255
      invariant ExpHolds(exp[..], 255 + i) && LogHolds(log[..], 255)
    {
      ExpPeriod(i, 1);
      exp[i + 255] := exp[i];
    }
  }

  lemma {:induction false} SparseBits(i: nat)
    requires i in [0, 2, 3, 4]
    ensures Pow2(i) == [1, 2, 4, 8, 16][i]
    ensures i == 0 ==> Add(0, 1) == 1
    ensures i == 2 ==> Add(1, 4) == 5
    ensures i == 3 ==> Add(5, 8) == 13
    ensures i == 4 ==> Add(13, 16) == 29
  {
    hide Xor;
    XorZero(1);
    assert Pow2(0) == 1 && Pow2(2) == 4 && Pow2(3) == 8 && Pow2(4) == 16 by {
      assert Pow2(1) == 2;
    }
    XorHigh(1, 2); XorComm(1, 4);
    XorHigh(5, 3); XorComm(5, 8);
    XorHigh(13, 4); XorComm(13, 16);
  }

  lemma {:induction false} EighthPower()
    ensures Exp(8) == 29 && Exp(7) == 128
  {
    SmallPower(7);
    assert Pow2(7) == 128;
    XorZero(29);
  }

  /** The next power, as the program computes it from the previous one. */
  lemma {:induction false} NextPower(a: byte, i: nat)
    requires i > 0 && a == Exp(i - 1)
    ensures a < 128 ==> Exp(i) == 2 * a
    ensures 128 <= a ==> Add(a, 128) == a - 128 && Exp(i) == Add(29, 2 * (a - 128))
  {
    if 128 <= a {
      assert Pow2(7) == 128;
      XorHigh(a - 128, 7);
      XorComm(29, 2 * (a - 128));
    }
  }

  ghost predicate InverseHolds(inverse: seq<byte>, n: nat)
  {
    |inverse| == 256 && inverse[0] == 0 && forall a: byte :: 0 < a < n ==> Mul(a, inverse[a]) == 1
  }

  method InitInverse(exp: seq<byte>, log: seq<nat>) returns (inverse: array<byte>)
    requires ExpHolds(exp, 510) && LogHolds(log, 255)
    ensures fresh(inverse) && InverseHolds(inverse[..], 256)
  {
    hide Exp, Mul;
    inverse := new byte[256](_ => 0);
    inverse[0] := 0;
    inverse[1] := 1;
    MulByOne(1);
    for i := 2 to 256
      invariant InverseHolds(inverse[..], i)
    {
      InverseEntry(i, log);
      inverse[i] := exp[255 - log[i]];
    }
  }

  ghost predicate ProductRow(row: seq<byte>, a: byte, n: nat)
  {
    |row| == n && forall b: byte :: b < n ==> row[b] == Mul(a, b)
  }

  method InitProductRow(exp: seq<byte>, log: seq<nat>, i: byte) returns (row: seq<byte>)
    requires ExpHolds(exp, 510) && LogHolds(log, 255)
    ensures ProductRow(row, i, 256)
  {
    hide Exp, Mul;
    row := [];
    for j := 0 to 256
      invariant ProductRow(row, i, j)
    {
      ProductEntry(i, j, log);
      if i == 0 || j == 0 {
        row := row + [0];
      } else {
        var e := Modnn(log[i] + log[j]);
        row := row + [exp[e]];
      }
    }
  }

  /** `initGF`. */
  method InitGF() returns (gf: Tables)
    ensures gf.Valid()
  {
    hide Exp, Mul;
    var expArray, logArray := InitExpLog();
    var exp, log := expArray[..], logArray[..];
    var inverseArray := InitInverse(exp, log);
    var inverse := inverseArray[..];
    var rows: seq<seq<byte>> := [];
    for i := 0 to 256
      invariant |rows| == i
      invariant forall a: byte :: a < i ==> ProductRow(rows[a], a, 256)
    {
      var row := InitProductRow(exp, log, i);
      rows := rows + [row];
    }
    gf := Tables(exp, log, inverse, rows);
  }

  lemma {:induction false} InverseEntry(a: byte, log: seq<nat>)
    requires 2 <= a && LogHolds(log, 255)
    ensures 0 < log[a] < 255 && Mul(a, Exp(255 - log[a])) == 1
  {
    hide Mul, Exp;
    var i := Log(a);
    PowersOfInterest();
    ExpTimes(255, 0);
    ExpAdd(i, 255 - i);
  }

  lemma {:induction false} ProductEntry(a: byte, b: byte, log: seq<nat>)
    requires LogHolds(log, 255)
    ensures a == 0 || b == 0 ==> Mul(a, b) == 0
    ensures a != 0 && b != 0 ==> Exp((log[a] + log[b]) % 255) == Mul(a, b)
  {
    hide Mul, Exp;
    MulZero(a);
    MulZero(b);
    MulComm(a, b);
    if a != 0 && b != 0 {
      var i, j := Log(a), Log(b);
      ExpAdd(i, j);
      ExpModulo(i + j);
    }
  }
}
