/**
  The field GF(2^8) behind the Reed-Solomon code: bytes, XOR and
  multiplication modulo x^8 + x^4 + x^3 + x^2 + 1 (0x11D).

  Field elements are integers below 256. `Xor` and `Mul` are recursive, so a
  proof that needs only the field laws writes `hide Xor, Mul;` and calls them.
*/
module Gf256 {
  type byte = x: int | 0 <= x < 256

  // ---------------------------------------------------------------- exclusive or

  function Xor(a: nat, b: nat): nat
  {
    if a == 0 then b
    else if b == 0 then a
    else 2 * Xor(a / 2, b / 2) + (if a % 2 == b % 2 then 0 else 1)
  }

  function Bit(b: bool): nat { if b then 1 else 0 }

  lemma {:induction false} HalfOf(h: nat, r: nat)
    requires r < 2
    ensures (2 * h + r) / 2 == h && (2 * h + r) % 2 == r
  {}

  lemma {:induction false} BitsDetermine(a: nat, b: nat)
    requires a / 2 == b / 2 && a % 2 == b % 2
    ensures a == b
  {}

  lemma {:induction false} XorBits(a: nat, b: nat)
    ensures Xor(a, b) % 2 == (if a % 2 == b % 2 then 0 else 1)
    ensures Xor(a, b) / 2 == Xor(a / 2, b / 2)
  {
    if a == 0 || b == 0 {
    } else {
      HalfOf(Xor(a / 2, b / 2), if a % 2 == b % 2 then 0 else 1);
    }
  }

  /** One binary digit of an exclusive or at a time. */
  lemma {:induction false} XorDigit(a: nat, b: nat, p: bool, q: bool)
    ensures Xor(Bit(p) + 2 * a, Bit(q) + 2 * b) == Bit(p != q) + 2 * Xor(a, b)
  {
    HalfOf(a, Bit(p));
    HalfOf(b, Bit(q));
  }

  lemma {:induction false} XorZero(a: nat)
    ensures Xor(a, 0) == a && Xor(0, a) == a
  {}

  lemma {:induction false} XorComm(a: nat, b: nat)
    ensures Xor(a, b) == Xor(b, a)
  {
    if a != 0 && b != 0 {
      XorComm(a / 2, b / 2);
    }
  }

  lemma {:induction false} XorSelf(a: nat)
    ensures Xor(a, a) == 0
  {
    if a != 0 {
      XorSelf(a / 2);
    }
  }

  lemma {:induction false} XorAssoc(a: nat, b: nat, c: nat)
    ensures Xor(Xor(a, b), c) == Xor(a, Xor(b, c))
  {
    if a == 0 || b == 0 || c == 0 {
    } else {
      XorAssoc(a / 2, b / 2, c / 2);
      XorBits(a, b);
      XorBits(b, c);
      XorBits(Xor(a, b), c);
      XorBits(a, Xor(b, c));
      BitsDetermine(Xor(Xor(a, b), c), Xor(a, Xor(b, c)));
    }
  }

  /** The middle two of four summands trade places. */
  lemma {:induction false} XorSwap(a: nat, b: nat, c: nat, d: nat)
    ensures Xor(Xor(a, b), Xor(c, d)) == Xor(Xor(a, c), Xor(b, d))
  {
    hide Xor;
    XorAssoc(a, b, Xor(c, d));
    XorAssoc(b, c, d);
    XorComm(b, c);
    XorAssoc(c, b, d);
    XorAssoc(a, c, Xor(b, d));
  }

  lemma {:induction false} XorCancel(a: nat, b: nat)
    ensures Xor(a, Xor(a, b)) == b
  {
    hide Xor;
    XorAssoc(a, a, b);
    XorSelf(a);
    XorZero(b);
  }

  lemma {:induction false} XorDouble(a: nat, b: nat)
    ensures Xor(2 * a, 2 * b) == 2 * Xor(a, b)
  {
    XorDigit(a, b, false, false);
  }

  function Pow2(n: nat): (p: nat)
    ensures p > 0
  {
    if n == 0 then 1 else 2 * Pow2(n - 1)
  }

  lemma {:induction false} XorBound(a: nat, b: nat, n: nat)
    requires a < Pow2(n) && b < Pow2(n)
    ensures Xor(a, b) < Pow2(n)
  {
    if a != 0 && b != 0 && n > 0 {
      XorBound(a / 2, b / 2, n - 1);
    }
  }

  /** Adding a value below 2^n to 2^n and taking the exclusive or are the same. */
  lemma {:induction false} XorHigh(r: nat, n: nat)
    requires r < Pow2(n)
    ensures Xor(Pow2(n), r) == Pow2(n) + r
    ensures Xor(Pow2(n) + r, Pow2(n)) == r
  {
    hide Xor;
    if n == 0 {
      XorZero(1);
      XorSelf(1);
    } else {
      var h, d := r / 2, r % 2 == 1;
      assert r == Bit(d) + 2 * h;
      XorHigh(h, n - 1);
      XorDigit(Pow2(n - 1), h, false, d);
      XorDigit(Pow2(n - 1) + h, Pow2(n - 1), d, false);
    }
  }

  lemma {:induction false} ByteXor(a: byte, b: byte)
    ensures Xor(a, b) < 256
  {
    assert Pow2(8) == 256;
    XorBound(a, b, 8);
  }

  /** `gfAdd`. */
  function Add(a: byte, b: byte): byte
  {
    ByteXor(a, b);
    Xor(a, b)
  }

  // ---------------------------------------------------------------- multiplication

  /** Multiplication by x: a shift, and a reduction when the top bit falls out. */
  function XTime(a: byte): byte
  {
    if a < 128 then 2 * a else Add(2 * (a - 128), 0x1D)
  }

  lemma {:induction false} SevenBits(a: nat, b: nat)
    requires a < 128 && b < 128
    ensures Xor(a, b) < 128
  {
    assert Pow2(7) == 128;
    XorBound(a, b, 7);
  }

  lemma {:induction false} TopBit(a: byte)
    requires 128 <= a
    ensures a == Xor(128, a - 128)
  {
    assert Pow2(7) == 128;
    XorHigh(a - 128, 7);
  }

  lemma {:induction false} XTimeLinear(a: byte, b: byte)
    ensures XTime(Add(a, b)) == Add(XTime(a), XTime(b))
  {
    hide Xor;
    var la := if a < 128 then a else a - 128;
    var lb := if b < 128 then b else b - 128;
    SevenBits(la, lb);
    XorDouble(la, lb);
    var l := Xor(la, lb);
    assert Pow2(7) == 128;
    XorHigh(l, 7);
    hide Pow2;
    if a < 128 && b < 128 {
    } else if a < 128 {
      TopBit(b);
      XorComm(la, Xor(128, lb)); XorAssoc(128, lb, la); XorComm(lb, la);
      XorAssoc(2 * la, 2 * lb, 0x1D);
    } else if b < 128 {
      TopBit(a);
      XorAssoc(128, la, lb);
      XorAssoc(2 * la, 2 * lb, 0x1D); XorAssoc(2 * la, 0x1D, 2 * lb); XorComm(0x1D, 2 * lb);
    } else {
      TopBit(a); TopBit(b);
      XorSwap(128, la, 128, lb); XorSelf(128); XorZero(l);
      XorSwap(2 * la, 0x1D, 2 * lb, 0x1D); XorSelf(0x1D); XorZero(2 * l);
    }
  }

  /** The product in GF(2^8), one binary digit of `b` at a time. */
  function Mul(a: byte, b: nat): byte
  {
    if b == 0 then 0
    else Add(if b % 2 == 1 then a else 0, XTime(Mul(a, b / 2)))
  }

  lemma {:induction false} AddSwap(a: byte, b: byte, c: byte, d: byte)
    ensures Add(Add(a, b), Add(c, d)) == Add(Add(a, c), Add(b, d))
  {
    XorSwap(a, b, c, d);
  }

  lemma {:induction false} MulZero(b: nat)
    ensures Mul(0, b) == 0
  {
    if b != 0 {
      MulZero(b / 2);
    }
  }

  lemma {:induction false} MulDistribLeft(a: byte, b: byte, c: nat)
    ensures Mul(Add(a, b), c) == Add(Mul(a, c), Mul(b, c))
  {
    if c != 0 {
      hide Xor, XTime;
      MulDistribLeft(a, b, c / 2);
      XTimeLinear(Mul(a, c / 2), Mul(b, c / 2));
      XorZero(0);
      if c % 2 == 1 {
        AddSwap(a, b, XTime(Mul(a, c / 2)), XTime(Mul(b, c / 2)));
      } else {
        AddSwap(0, 0, XTime(Mul(a, c / 2)), XTime(Mul(b, c / 2)));
      }
    } else {
      XorZero(0);
    }
  }

  lemma {:induction false} MulXorRight(a: byte, b: nat, c: nat)
    ensures Mul(a, Xor(b, c)) == Add(Mul(a, b), Mul(a, c))
  {
    if b == 0 || c == 0 {
      XorZero(b);
      XorZero(c);
      XorZero(Mul(a, b));
      XorZero(Mul(a, c));
    } else {
      MulXorRight(a, b / 2, c / 2);
      XorBits(b, c);
      XTimeLinear(Mul(a, b / 2), Mul(a, c / 2));
      var p := if b % 2 == 1 then a else 0;
      var q := if c % 2 == 1 then a else 0;
      AddSwap(p, q, XTime(Mul(a, b / 2)), XTime(Mul(a, c / 2)));
      XorZero(a);
      XorSelf(a);
      MulUnfold(a, Xor(b, c));
      MulUnfold(a, b);
      MulUnfold(a, c);
    }
  }

  lemma {:induction false} MulUnfold(a: byte, b: nat)
    ensures Mul(a, b) == Add(if b % 2 == 1 then a else 0, XTime(Mul(a, b / 2)))
  {}

  lemma {:induction false} MulXTimeLeft(a: byte, b: nat)
    ensures Mul(XTime(a), b) == XTime(Mul(a, b))
  {
    if b != 0 {
      hide Xor, Add;
      MulXTimeLeft(a, b / 2);
      MulUnfold(XTime(a), b);
      MulUnfold(a, b);
      XTimeLinear(if b % 2 == 1 then a else 0, XTime(Mul(a, b / 2)));
      assert XTime(0) == 0;
    }
  }

  lemma {:induction false} MulByOne(a: byte)
    ensures Mul(a, 1) == a && Mul(1, a) == a
  {
    XorZero(a);
    MulUnfold(a, 1);
    OneTimes(a);
  }

  lemma {:induction false} OneTimes(b: byte)
    ensures Mul(1, b) == b
  {
    if b != 0 {
      OneTimes(b / 2);
      XorDigit(0, b / 2, b % 2 == 1, false);
      XorZero(b / 2);
    }
  }

  lemma {:induction false} MulComm(a: byte, b: byte)
    ensures Mul(a, b) == Mul(b, a)
  {
    if a == 0 {
      MulZero(b);
    } else {
      var r := a % 2;
      var h: byte := a / 2;
      MulComm(h, b);
      XorDigit(0, h, r == 1, false);
      XorZero(h);
      assert a == Add(r, XTime(h));
      MulDistribLeft(r, XTime(h), b);
      MulXTimeLeft(h, b);
      MulZero(b);
      OneTimes(b);
      MulUnfold(b, a);
    }
  }

  lemma {:induction false} MulAssoc(a: byte, b: byte, c: byte)
    ensures Mul(Mul(a, b), c) == Mul(a, Mul(b, c))
  {
    if c == 0 {
    } else {
      hide Xor;
      var h: byte := c / 2;
      MulAssoc(a, b, h);
      MulUnfold(Mul(a, b), c);
      MulUnfold(b, c);
      var p: byte := if c % 2 == 1 then b else 0;
      MulXorRight(a, p, XTime(Mul(b, h)));
      MulXTimeRight(a, Mul(b, h));
    }
  }

  lemma {:induction false} MulXTimeRight(a: byte, b: byte)
    ensures Mul(a, XTime(b)) == XTime(Mul(a, b))
  {
    MulComm(a, XTime(b));
    MulXTimeLeft(b, a);
    MulComm(a, b);
  }

  lemma {:induction false} MulDistrib(a: byte, b: byte, c: byte)
    ensures Mul(a, Add(b, c)) == Add(Mul(a, b), Mul(a, c))
  {
    MulXorRight(a, b, c);
  }

  // ------------------------------------------- carry-less multiplication modulo 0x11D

  /** The product of two polynomials over GF(2), bit i being the coefficient of x^i. */
  function Clmul(a: nat, b: nat): nat
  {
    if b == 0 then 0 else Xor(if b % 2 == 1 then a else 0, 2 * Clmul(a, b / 2))
  }

  lemma {:induction false} ClmulXorLeft(a: nat, b: nat, c: nat)
    ensures Clmul(Xor(a, b), c) == Xor(Clmul(a, c), Clmul(b, c))
  {
    if c != 0 {
      hide Xor;
      ClmulXorLeft(a, b, c / 2);
      XorDouble(Clmul(a, c / 2), Clmul(b, c / 2));
      XorZero(0);
      if c % 2 == 1 {
        XorSwap(a, b, 2 * Clmul(a, c / 2), 2 * Clmul(b, c / 2));
      } else {
        XorSwap(0, 0, 2 * Clmul(a, c / 2), 2 * Clmul(b, c / 2));
      }
    } else {
      XorZero(0);
    }
  }

  lemma {:induction false} ClmulDoubleLeft(a: nat, c: nat)
    ensures Clmul(2 * a, c) == 2 * Clmul(a, c)
  {
    if c != 0 {
      hide Xor;
      ClmulDoubleLeft(a, c / 2);
      XorDouble(if c % 2 == 1 then a else 0, 2 * Clmul(a, c / 2));
    }
  }

  lemma {:induction false} ClmulOneLeft(c: nat)
    ensures Clmul(1, c) == c
  {
    if c != 0 {
      ClmulOneLeft(c / 2);
      XorDigit(0, c / 2, c % 2 == 1, false);
      XorZero(c / 2);
    }
  }

  /** Doubling is multiplication by x modulo 0x11D. */
  lemma {:induction false} XTimeReduces(a: byte)
    ensures XTime(a) == if a < 128 then 2 * a else Xor(0x11D, 2 * a)
  {
    if 128 <= a {
      var l := 2 * (a - 128);
      assert Pow2(8) == 256;
      XorHigh(0x1D, 8);
      XorHigh(l, 8);
      XorComm(256, 0x1D);
      XorSwap(0x1D, 256, 256, l);
      XorComm(0x1D, 256);
      XorSwap(256, 0x1D, 256, l);
      XorSelf(256);
      XorComm(0x1D, l);
    }
  }

  /**
    `Mul` is the carry-less product modulo 0x11D: the two differ by a polynomial
    multiple of 0x11D, and `Mul` is below 256.
  */
  lemma {:induction false} MulIsClmulModulo(a: byte, b: nat) returns (q: nat)
    ensures Clmul(a, b) == Xor(Clmul(q, 0x11D), Mul(a, b))
  {
    hide Xor, Mul, XTime, Clmul;
    MulByZero(a);
    if b == 0 {
      q := 0;
      ClmulZeroLeft(0x11D);
    } else {
      var q0 := MulIsClmulModulo(a, b / 2);
      q := Bit(128 <= Mul(a, b / 2)) + 2 * q0;
      MulUnfold(a, b);
      ClmulUnfold(a, b);
      ClmulQuotient(q0, Mul(a, b / 2));
      ClmulStep(if b % 2 == 1 then a else 0, Clmul(q, 0x11D), XTime(Mul(a, b / 2)));
    }
  }

  lemma {:induction false} ClmulUnfold(a: nat, b: nat)
    ensures Clmul(a, b) == Xor(if b % 2 == 1 then a else 0, 2 * Clmul(a, b / 2))
  {
    XorZero(0);
  }

  lemma {:induction false} ClmulStep(p: nat, c: nat, m: nat)
    ensures Xor(p, Xor(c, m)) == Xor(c, Xor(p, m))
  {
    hide Xor;
    XorAssoc(p, c, m);
    XorComm(p, c);
    XorAssoc(c, p, m);
  }

  lemma {:induction false} MulByZero(a: byte)
    ensures Mul(a, 0) == 0 && Clmul(a, 0) == 0 && Xor(0, 0) == 0
  {}

  lemma {:induction false} ClmulZeroLeft(c: nat)
    ensures Clmul(0, c) == 0
  {
    if c != 0 {
      ClmulZeroLeft(c / 2);
    }
  }

  lemma {:induction false} ClmulQuotient(q0: nat, m: byte)
    ensures Xor(Clmul(Bit(128 <= m) + 2 * q0, 0x11D), XTime(m)) == 2 * Xor(Clmul(q0, 0x11D), m)
  {
    hide Xor, Clmul, XTime;
    var c := Clmul(q0, 0x11D);
    ClmulDoubleLeft(q0, 0x11D);
    XorDouble(c, m);
    XTimeReduces(m);
    if 128 <= m {
      XorDigit(0, q0, true, false);
      XorZero(q0);
      ClmulXorLeft(1, 2 * q0, 0x11D);
      ClmulOneLeft(0x11D);
      XorComm(0x11D, 2 * c);
      XorAssoc(2 * c, 0x11D, Xor(0x11D, 2 * m));
      XorCancel(0x11D, 2 * m);
    }
  }
}
