/**
  The powers of the primitive element x of GF(2^8): they repeat with period 255
  and no sooner, so every non-zero byte is exactly one power below the 255th.
*/
module Gf256Powers {
  import opened Gf256

  /** The i-th power of the primitive element. */
  function Exp(i: nat): byte
  {
    if i == 0 then 1 else XTime(Exp(i - 1))
  }

  lemma {:induction false} MulExp(i: nat, a: byte)
    ensures i > 0 ==> Mul(Exp(i), a) == XTime(Mul(Exp(i - 1), a))
    ensures i == 0 ==> Mul(Exp(i), a) == a
  {
    if i > 0 {
      MulXTimeLeft(Exp(i - 1), a);
    } else {
      MulByOne(a);
    }
  }

  lemma {:induction false} ExpAdd(i: nat, j: nat)
    ensures Exp(i + j) == Mul(Exp(i), Exp(j))
  {
    hide XTime, Mul;
    MulExp(i, Exp(j));
    if i > 0 {
      ExpAdd(i - 1, j);
    }
  }

  // ------------------------------------------------ evaluating powers bit by bit

  const T := true
  const F := false

  /** A byte as eight bits, lowest first; `X` is `XTime`, `X4` and `X16` its iterates. */
  datatype Bits = Bits(b0: bool, b1: bool, b2: bool, b3: bool, b4: bool, b5: bool, b6: bool, b7: bool) {
    /** The upper bits 4 to 6, and all bits but the top one. */
    function High(): nat { Bit(b4) + 2 * (Bit(b5) + 2 * Bit(b6)) }

    function Low(): nat { Bit(b0) + 2 * (Bit(b1) + 2 * (Bit(b2) + 2 * (Bit(b3) + 2 * High()))) }

    function Val(): nat { Low() + 128 * Bit(b7) }

    function X(): Bits { Bits(b7, b0, b1 != b7, b2 != b7, b3 != b7, b4, b5, b6) }

    function X4(): Bits
    {
      Bits(b4, b5, b4 != b6, (b4 != b5) != b7, ((b0 != b4) != b5) != b6, ((b1 != b5) != b6) != b7,
           (b2 != b6) != b7, b3 != b7)
    }

    function X8(): Bits
    {
      Bits(((b0 != b4) != b5) != b6, ((b1 != b5) != b6) != b7, (((b0 != b2) != b4) != b5) != b7,
           ((b0 != b1) != b3) != b4, ((b0 != b1) != b2) != b6, ((b1 != b2) != b3) != b7,
           (b2 != b3) != b4, (b3 != b4) != b5)
    }
  }

  lemma {:induction false} FlipLow(b: Bits)
    ensures Xor(2 * b.Low(), 0x1D)
         == 1 + 2 * (Bit(b.b0) + 2 * (Bit(!b.b1) + 2 * (Bit(!b.b2) + 2 * (Bit(!b.b3) + 2 * b.High()))))
  {
    hide Xor, Bits.High;
    var r4 := b.High();
    FlipDigits(r4, b.b0, b.b1, b.b2, b.b3);
  }

  lemma {:induction false} FlipDigits(r4: nat, b0: bool, b1: bool, b2: bool, b3: bool)
    ensures Xor(2 * (Bit(b0) + 2 * (Bit(b1) + 2 * (Bit(b2) + 2 * (Bit(b3) + 2 * r4)))), 0x1D)
         == 1 + 2 * (Bit(b0) + 2 * (Bit(!b1) + 2 * (Bit(!b2) + 2 * (Bit(!b3) + 2 * r4))))
  {
    hide Xor;
    var r3 := Bit(b3) + 2 * r4;
    var r2 := Bit(b2) + 2 * r3;
    var r1 := Bit(b1) + 2 * r2;
    XorZero(r4);
    XorDigit(r4, 0, b3, true);
    XorDigit(r3, 1, b2, true);
    XorDigit(r2, 3, b1, true);
    XorDigit(r1, 7, b0, false);
    XorDigit(Bit(b0) + 2 * r1, 14, false, true);
  }

  lemma {:induction false} LowBelow128(b: Bits)
    ensures b.Low() < 128
  {
    assert b.High() < 8;
  }

  lemma {:induction false} Regroup(d0: nat, d1: nat, d2: nat, d3: nat, d4: nat, d5: nat, d6: nat, d7: nat)
    ensures d7 + 2 * (d0 + 2 * (d1 + 2 * (d2 + 2 * (d3 + 2 * (d4 + 2 * d5))))) + 128 * d6
         == d7 + 2 * (d0 + 2 * (d1 + 2 * (d2 + 2 * (d3 + 2 * (d4 + 2 * (d5 + 2 * d6))))))
  {}

  lemma {:induction false} ShiftedHigh(b: Bits)
    ensures b.X().High() == Bit(b.b3 != b.b7) + 2 * (Bit(b.b4) + 2 * Bit(b.b5))
  {
    hide Bit;
  }

  lemma {:induction false} ShiftedLow(b: Bits)
    ensures b.X().Low() == Bit(b.b7)
              + 2 * (Bit(b.b0) + 2 * (Bit(b.b1 != b.b7) + 2 * (Bit(b.b2 != b.b7) + 2 * b.X().High())))
  {
    hide Bit, Bits.High;
  }

  lemma {:induction false} ShiftedVal(b: Bits)
    ensures b.X().Val() == Bit(b.b7) + 2 * (Bit(b.b0)
              + 2 * (Bit(b.b1 != b.b7) + 2 * (Bit(b.b2 != b.b7) + 2 * (Bit(b.b3 != b.b7) + 2 * b.High()))))
  {
    ShiftedHigh(b);
    ShiftedLow(b);
    assert b.X().Val() == b.X().Low() + 128 * Bit(b.b6);
    assert b.High() == Bit(b.b4) + 2 * (Bit(b.b5) + 2 * Bit(b.b6));
    hide *;
    Regroup(Bit(b.b0), Bit(b.b1 != b.b7), Bit(b.b2 != b.b7), Bit(b.b3 != b.b7),
            Bit(b.b4), Bit(b.b5), Bit(b.b6), Bit(b.b7));
  }

  lemma {:induction false} BitsXTime(b: Bits)
    ensures b.Val() < 256 && XTime(b.Val()) == b.X().Val()
  {
    LowBelow128(b);
    FlipLow(b);
    ShiftedVal(b);
    hide Xor, Bits.High, Bits.X;
    assert b.Val() == if b.b7 then b.Low() + 128 else b.Low();
  }

  lemma {:induction false} X4IsFourSteps(b: Bits)
    ensures b.X4() == b.X().X().X().X()
  {}

  lemma {:induction false} X8IsTwoFours(b: Bits)
    ensures b.X8() == b.X4().X4()
  {}

  lemma {:induction false} ExpPlus1(i: nat, b: Bits)
    requires Exp(i) == b.Val()
    ensures Exp(i + 1) == b.X().Val()
  {
    BitsXTime(b);
  }

  lemma {:induction false} ExpPlus4(i: nat, b: Bits)
    requires Exp(i) == b.Val()
    ensures Exp(i + 4) == b.X4().Val()
  {
    hide Exp, Bits.Val, Bits.X, Bits.X4;
    ExpPlus1(i, b);
    ExpPlus1(i + 1, b.X());
    ExpPlus1(i + 2, b.X().X());
    ExpPlus1(i + 3, b.X().X().X());
    X4IsFourSteps(b);
  }

  lemma {:induction false} ExpPlus8(i: nat, b: Bits)
    requires Exp(i) == b.Val()
    ensures Exp(i + 8) == b.X8().Val()
  {
    hide Exp, Bits.Val, Bits.X4, Bits.X8;
    ExpPlus4(i, b);
    ExpPlus4(i + 4, b.X4());
    X8IsTwoFours(b);
  }

  lemma {:induction false} ExpZero()
    ensures Exp(0) == Bits(T, F, F, F, F, F, F, F).Val()
  {}

  lemma {:induction false} ExpTo15()
    requires Exp(0) == Bits(T, F, F, F, F, F, F, F).Val()
    ensures Exp(15) == Bits(F, T, T, F, F, T, F, F).Val()
  {
    hide Exp, Bits.Val;
    ExpPlus8(0, Bits(T, F, F, F, F, F, F, F));
    ExpPlus4(8, Bits(T, F, T, T, T, F, F, F));
    ExpPlus1(12, Bits(T, F, T, T, F, F, T, T));
    ExpPlus1(13, Bits(T, T, T, F, F, F, F, T));
    ExpPlus1(14, Bits(T, T, F, F, T, F, F, F));
  }

  lemma {:induction false} ExpTo48()
    requires Exp(0) == Bits(T, F, F, F, F, F, F, F).Val()
    ensures Exp(48) == Bits(F, T, T, F, F, F, T, F).Val()
  {
    hide Exp, Bits.Val;
    ExpPlus8(0, Bits(T, F, F, F, F, F, F, F));
    ExpPlus8(8, Bits(T, F, T, T, T, F, F, F));
    ExpPlus8(16, Bits(F, F, T, T, F, F, T, F));
    ExpPlus8(24, Bits(T, T, T, T, F, F, F, T));
    ExpPlus8(32, Bits(T, F, T, T, T, F, F, T));
    ExpPlus8(40, Bits(F, T, F, T, F, T, T, F));
  }

  lemma {:induction false} ExpTo51()
    requires Exp(48) == Bits(F, T, T, F, F, F, T, F).Val()
    ensures Exp(51) == Bits(F, T, F, T, F, F, F, F).Val()
  {
    hide Exp, Bits.Val;
    ExpPlus1(48, Bits(F, T, T, F, F, F, T, F));
    ExpPlus1(49, Bits(F, F, T, T, F, F, F, T));
    ExpPlus1(50, Bits(T, F, T, F, F, F, F, F));
  }

  lemma {:induction false} ExpTo80()
    requires Exp(48) == Bits(F, T, T, F, F, F, T, F).Val()
    ensures Exp(80) == Bits(T, F, T, T, T, T, T, T).Val()
  {
    hide Exp, Bits.Val;
    ExpPlus8(48, Bits(F, T, T, F, F, F, T, F));
    ExpPlus8(56, Bits(T, F, T, T, T, F, T, F));
    ExpPlus8(64, Bits(T, T, T, T, T, F, T, F));
    ExpPlus8(72, Bits(T, F, T, F, F, T, T, F));
  }

  lemma {:induction false} ExpTo85()
    requires Exp(80) == Bits(T, F, T, T, T, T, T, T).Val()
    ensures Exp(85) == Bits(F, T, T, F, T, F, T, T).Val()
  {
    hide Exp, Bits.Val;
    ExpPlus4(80, Bits(T, F, T, T, T, T, T, T));
    ExpPlus1(84, Bits(T, T, F, T, F, T, T, F));
  }

  lemma {:induction false} ExpTo128()
    requires Exp(80) == Bits(T, F, T, T, T, T, T, T).Val()
    ensures Exp(128) == Bits(T, F, T, F, F, F, F, T).Val()
  {
    hide Exp, Bits.Val;
    ExpPlus8(80, Bits(T, F, T, T, T, T, T, T));
    ExpPlus8(88, Bits(F, T, T, T, T, T, T, T));
    ExpPlus8(96, Bits(T, F, F, T, T, F, T, T));
    ExpPlus8(104, Bits(T, F, T, T, F, F, F, F));
    ExpPlus8(112, Bits(T, F, F, F, F, F, F, T));
    ExpPlus8(120, Bits(T, T, F, T, T, T, F, F));
  }

  lemma {:induction false} ExpTo168()
    requires Exp(128) == Bits(T, F, T, F, F, F, F, T).Val()
    ensures Exp(168) == Bits(F, F, T, T, T, T, T, T).Val()
  {
    hide Exp, Bits.Val;
    ExpPlus8(128, Bits(T, F, T, F, F, F, F, T));
    ExpPlus8(136, Bits(T, T, T, T, F, F, T, F));
    ExpPlus8(144, Bits(F, F, F, T, F, T, F, T));
    ExpPlus8(152, Bits(T, F, F, T, F, F, T, F));
    ExpPlus8(160, Bits(F, T, T, F, F, T, T, T));
  }

  lemma {:induction false} ExpTo208()
    requires Exp(168) == Bits(F, F, T, T, T, T, T, T).Val()
    ensures Exp(208) == Bits(T, F, F, F, T, F, T, F).Val()
  {
    hide Exp, Bits.Val;
    ExpPlus8(168, Bits(F, F, T, T, T, T, T, T));
    ExpPlus8(176, Bits(T, T, F, F, F, T, T, T));
    ExpPlus8(184, Bits(T, F, T, F, T, F, F, T));
    ExpPlus8(192, Bits(F, T, F, F, F, F, F, T));
    ExpPlus8(200, Bits(F, F, T, T, T, F, F, F));
  }

  lemma {:induction false} ExpTo255()
    requires Exp(208) == Bits(T, F, F, F, T, F, T, F).Val()
    ensures Exp(255) == Bits(T, F, F, F, F, F, F, F).Val()
  {
    hide Exp, Bits.Val;
    ExpPlus8(208, Bits(T, F, F, F, T, F, T, F));
    ExpPlus8(216, Bits(T, T, F, F, F, F, T, T));
    ExpPlus8(224, Bits(F, T, F, F, T, F, F, F));
    ExpPlus8(232, Bits(T, T, T, F, T, T, T, T));
    ExpPlus8(240, Bits(F, F, T, T, F, T, F, F));
    ExpPlus4(248, Bits(T, T, F, T, T, F, F, F));
    ExpPlus1(252, Bits(T, F, T, T, F, T, F, T));
    ExpPlus1(253, Bits(T, T, T, F, F, F, T, F));
    ExpPlus1(254, Bits(F, T, T, T, F, F, F, T));
  }

  /** Three powers that are not 1, and one that is. */
  lemma {:induction false} PowersOfInterest()
    ensures Exp(15) != 1 && Exp(51) != 1 && Exp(85) != 1 && Exp(255) == 1
  {
    hide Exp;
    ExpZero();
    ExpTo15();
    ExpTo48();
    ExpTo51();
    ExpTo80();
    ExpTo85();
    ExpTo128();
    ExpTo168();
    ExpTo208();
    ExpTo255();
  }

  // ------------------------------------------------------------ period and order

  lemma {:induction false} ExpNonzero(i: nat)
    ensures Exp(i) != 0
  {
    if i > 0 {
      ExpNonzero(i - 1);
      XTimeNonzero(Exp(i - 1));
    }
  }

  lemma {:induction false} XTimeNonzero(a: byte)
    requires a != 0
    ensures XTime(a) != 0
  {
    if 128 <= a {
      XorDigit(a - 128, 14, false, true);
    }
  }

  lemma {:induction false} ExpTimes(i: nat, m: nat)
    requires Exp(i) == 1
    ensures Exp(m * i) == 1
  {
    if m == 0 {
    } else {
      hide Mul, XTime;
      ExpTimes(i, m - 1);
      assert m * i == (m - 1) * i + i;
      ExpAdd((m - 1) * i, i);
      MulByOne(1);
    }
  }

  lemma {:induction false} ExpPeriod(i: nat, m: nat)
    ensures Exp(255 * m + i) == Exp(i)
  {
    hide Exp, Mul;
    PowersOfInterest();
    ExpTimes(255, m);
    ExpAdd(255 * m, i);
    MulByOne(Exp(i));
  }

  lemma {:induction false} ExpModulo(i: nat)
    ensures Exp(i % 255) == Exp(i)
  {
    ExpPeriod(i % 255, i / 255);
  }

  /** The order of x is not a proper divisor of 255. */
  lemma {:induction false} NoDivisorIsPeriod(d: nat, q: nat)
    requires 0 < d < 255 && d * q == 255
    ensures Exp(d) != 1
  {
    hide Exp;
    PowersOfInterest();
    if Exp(d) == 1 {
      ProperDivisors(d, q);
      if d == 1 || d == 3 || d == 5 || d == 15 {
        ExpTimes(d, 15 / d);
      } else if d == 17 || d == 51 {
        ExpTimes(d, 51 / d);
      }
    }
  }

  lemma {:induction false} ProperDivisors(d: nat, q: nat)
    requires 0 < d < 255 && d * q == 255
    ensures d in {1, 3, 5, 15, 17, 51, 85}
  {
    if d <= 15 {
      SmallDivisor(d, q);
    } else {
      if 16 <= q {
        ProductAtLeast256(d, q);
      }
      SmallDivisor(q, d);
    }
  }

  lemma {:induction false} ProductAtLeast256(d: nat, q: nat)
    requires 16 <= d && 16 <= q
    ensures 256 <= d * q
  {}

  lemma {:induction false} SmallDivisor(d: nat, q: nat)
    requires 0 < d <= 15 && d * q == 255
    ensures (d == 1 && q == 255) || (d == 3 && q == 85) || (d == 5 && q == 51) || (d == 15 && q == 17)
  {}

  lemma {:induction false} NoShorterPeriod(d: nat)
    requires 0 < d < 255
    ensures Exp(d) != 1
    decreases d
  {
    if Exp(d) == 1 {
      hide Exp, Mul;
      var q, r := Divide255(d);
      if r == 0 {
        NoDivisorIsPeriod(d, q);
      } else {
        ReducePeriod(d, q, r);
        NoShorterPeriod(r);
      }
    }
  }

  lemma {:induction false} Divide255(d: nat) returns (q: nat, r: nat)
    requires 0 < d
    ensures q * d + r == 255 == d * q + r && r < d
  {
    q, r := 255 / d, 255 % d;
  }

  lemma {:induction false} ReducePeriod(d: nat, q: nat, r: nat)
    requires q * d + r == 255 && Exp(d) == 1
    ensures Exp(r) == 1
  {
    hide Exp, Mul;
    PowersOfInterest();
    ExpTimes(d, q);
    ExpAdd(q * d, r);
    MulByOne(Exp(r));
  }

  lemma {:induction false} MulCancel(p: nat, a: byte, b: byte)
    requires Mul(Exp(p), a) == Mul(Exp(p), b) && p <= 255
    ensures a == b
  {
    hide Exp, Mul;
    PowersOfInterest();
    var q: nat := 255 - p;
    ExpAdd(q, p);
    MulAssoc(Exp(q), Exp(p), a);
    MulAssoc(Exp(q), Exp(p), b);
    MulByOne(a);
    MulByOne(b);
  }

  /** The 255 powers x^0 ... x^254 are distinct. */
  lemma {:induction false} ExpInjective(i: nat, j: nat)
    requires i < 255 && j < 255 && Exp(i) == Exp(j)
    ensures i == j
  {
    hide Exp, Mul;
    if i < j {
      ExpAdd(i, j - i);
      MulByOne(Exp(i));
      MulCancel(i, Exp(j - i), 1);
      NoShorterPeriod(j - i);
    } else if j < i {
      ExpInjective(j, i);
    }
  }

  // ------------------------------------------------------------ logarithms, inverses

  ghost function Powers(n: nat): set<nat> { set i: nat | i < n :: Exp(i) as nat }

  lemma {:induction false} PowersCount(n: nat)
    requires n <= 255
    ensures |Powers(n)| == n
  {
    if n == 0 {
      assert Powers(0) == {};
    } else {
      PowersCount(n - 1);
      assert Powers(n) == Powers(n - 1) + {Exp(n - 1) as nat};
      if Exp(n - 1) as nat in Powers(n - 1) {
        var i: nat :| i < n - 1 && Exp(i) == Exp(n - 1);
        ExpInjective(i, n - 1);
      }
    }
  }

  lemma {:induction false} BoundedCount(s: set<nat>, n: nat)
    requires forall x :: x in s ==> x < n
    ensures |s| <= n
    decreases n
  {
    if n == 0 {
      assert s == {};
    } else {
      BoundedCount(s - {n - 1}, n - 1);
    }
  }

  /** Every non-zero byte is a power of the primitive element. */
  lemma {:induction false} EveryByteIsAPower(b: byte)
    requires b != 0
    ensures exists i: nat :: i < 255 && Exp(i) == b
  {
    PowersCount(255);
    var s := Powers(255);
    if b as nat !in s {
      forall x | x in s ensures 0 < x < 256 {
        var i: nat :| i < 255 && Exp(i) as nat == x;
        ExpNonzero(i);
      }
      // moving the top byte into b's place leaves 255 distinct values in 1..254
      MissingByte(s, b);
    }
    assert b as nat in s;
  }

  lemma {:induction false} MissingByte(s: set<nat>, b: nat)
    requires forall x :: x in s ==> 0 < x < 256 && x != b
    requires 0 < b < 256
    ensures |s| < 255
  {
    var t := s + {0, b};
    assert |t| == |s| + 2 by {
      assert |s + {0}| == |s| + 1;
      assert t == s + {0} + {b};
    }
    BoundedCount(t, 256);
  }

  ghost function Log(b: byte): (i: nat)
    requires b != 0
    ensures i < 255 && Exp(i) == b
  {
    EveryByteIsAPower(b);
    var i: nat :| i < 255 && Exp(i) == b;
    i
  }

  /** The inverse of a non-zero byte, as a power of the primitive element. */
  ghost function Inv(b: byte): byte
    requires b != 0
  {
    Exp(255 - Log(b))
  }

  lemma {:induction false} InvIsInverse(b: byte)
    requires b != 0
    ensures Mul(b, Inv(b)) == 1 && Mul(Inv(b), b) == 1
  {
    hide Exp, Mul;
    PowersOfInterest();
    ExpAdd(Log(b), 255 - Log(b));
    MulComm(b, Inv(b));
  }

  lemma {:induction false} NoZeroDivisors(a: byte, b: byte)
    requires Mul(a, b) == 0 && a != 0
    ensures b == 0
  {
    hide Exp, Mul;
    InvIsInverse(a);
    MulAssoc(Inv(a), a, b);
    MulByOne(b);
    MulComm(Inv(a), 0);
    MulZero(Inv(a));
  }
}
