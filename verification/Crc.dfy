/**
  The X.25 checksum of pkg/server/mavlink/mavlink.go: a byte at a time it computes
  what the definition does bit by bit.
*/
module Crc {
  import opened Gf256
  import opened Matrices
  import opened Words

  const U16: nat := 0x1_0000

  /** One bit: shift right, and the reversed polynomial x^16 + x^12 + x^5 + 1 when a 1 falls out. */
  function BitStep(c: nat): nat
  {
    if c % 2 == 1 then Xor(c / 2, 0x8408) else c / 2
  }

  function BitSteps(c: nat, n: nat): nat
    decreases n
  {
    if n == 0 then c else BitSteps(BitStep(c), n - 1)
  }

  /** The program's step, for a byte mixed into the low half already. */
  function Spread(t: byte): (m: byte)
  {
    ByteXor(t, t * 16 % 256);
    Xor(t, t * 16 % 256)
  }

  function FastLow(t: byte): nat
  {
    var m: nat := Spread(t);
    Xor(Xor(m * 256, m * 8), m / 16)
  }

  /** `Accumulate`, for one byte. */
  function FastStep(crc: nat, b: byte): nat
  {
    ByteXor(b, crc % 256);
    Xor(crc / 256, FastLow(Xor(b, crc % 256)))
  }

  // ---------------------------------------------------------------- linear functions

  lemma {:induction false} StepLinear(a: nat, b: nat)
    ensures BitStep(Xor(a, b)) == Xor(BitStep(a), BitStep(b))
  {
    hide Xor;
    XorBits(a, b);
    var x, y := a / 2, b / 2;
    XorAssoc(x, y, 0x8408);
    XorAssoc(x, 0x8408, y);
    XorComm(0x8408, y);
    XorSwap(x, 0x8408, y, 0x8408);
    XorSelf(0x8408);
    XorZero(Xor(x, y));
  }

  lemma {:induction false} StepsLinear(a: nat, b: nat, n: nat)
    ensures BitSteps(Xor(a, b), n) == Xor(BitSteps(a, n), BitSteps(b, n))
    decreases n
  {
    hide Xor, BitStep;
    if n > 0 {
      StepLinear(a, b);
      StepsLinear(BitStep(a), BitStep(b), n - 1);
    }
  }

  function Shifted(h: nat, n: nat): nat
  {
    if n == 0 then h else 2 * Shifted(h, n - 1)
  }

  lemma {:induction false} ShiftedIs(h: nat, n: nat)
    ensures Shifted(h, n) == Pow2(n) * h
  {
    if n > 0 {
      ShiftedIs(h, n - 1);
      Regroup(2, Pow2(n - 1), h);
    }
  }

  lemma {:induction false} StepsOfShifted(h: nat, n: nat)
    ensures BitSteps(Shifted(h, n), n) == h
  {
    if n > 0 {
      StepsOfShifted(h, n - 1);
    }
  }

  /** Bits above and bits below. */
  lemma {:induction false} XorShifted(h: nat, t: nat, n: nat)
    requires t < Pow2(n)
    ensures Xor(Shifted(h, n), t) == Shifted(h, n) + t
  {
    hide Xor;
    if n == 0 {
      XorZero(h);
    } else {
      XorShifted(h, t / 2, n - 1);
      XorDigit(Shifted(h, n - 1), t / 2, false, t % 2 == 1);
    }
  }

  lemma {:induction false} XorLinearShift(a: nat, b: nat, n: nat)
    ensures Xor(Shifted(a, n), Shifted(b, n)) == Shifted(Xor(a, b), n)
  {
    hide Xor;
    if n > 0 {
      XorLinearShift(a, b, n - 1);
      XorDouble(Shifted(a, n - 1), Shifted(b, n - 1));
    }
  }

  lemma {:induction false} XorLinearRemainder(a: nat, b: nat, n: nat)
    ensures Xor(a, b) % Pow2(n) == Xor(a % Pow2(n), b % Pow2(n))
  {
    hide Xor;
    if n == 0 {
      XorZero(0);
    } else {
      var p := Pow2(n - 1);
      XorLinearRemainder(a / 2, b / 2, n - 1);
      Halved(a, p);
      Halved(b, p);
      Halved(Xor(a, b), p);
      XorBits(a, b);
      XorDigit(a / 2 % p, b / 2 % p, a % 2 == 1, b % 2 == 1);
    }
  }

  lemma {:induction false} SmallPowers()
    ensures Pow2(1) == 2 && Pow2(2) == 4 && Pow2(3) == 8 && Pow2(4) == 16 && Pow2(5) == 32 && Pow2(6) == 64
    ensures Pow2(7) == 128 && Pow2(8) == 256 && Pow2(9) == 512 && Pow2(10) == 1024 && Pow2(11) == 2048
    ensures Pow2(12) == 4096 && Pow2(13) == 8192 && Pow2(14) == 16384 && Pow2(15) == 32768
  {
    assert Pow2(4) == 16;
    assert Pow2(8) == 256;
    assert Pow2(12) == 4096;
  }

  /** The same with the power of two written out. */
  lemma {:induction false} XorAbove(p: nat, h: nat, t: nat, n: nat)
    requires p == Pow2(n) && t < p
    ensures Xor(p * h, t) == p * h + t
  {
    ShiftedIs(h, n);
    XorShifted(h, t, n);
  }

  lemma {:induction false} TimesSixteen(t: byte)
    ensures t * 16 % 256 == Shifted(t % 16, 4)
  {
    ShiftedIs(t % 16, 4);
    SmallPowers();
  }

  lemma {:induction false} SpreadLinear(a: byte, b: byte)
    ensures Xor(a, b) < 256 && Spread(Xor(a, b)) == Xor(Spread(a), Spread(b))
  {
    hide Xor;
    ByteXor(a, b);
    SmallPowers();
    TimesSixteen(a);
    TimesSixteen(b);
    TimesSixteen(Xor(a, b));
    XorLinearRemainder(a, b, 4);
    XorLinearShift(a % 16, b % 16, 4);
    XorSwap(a, b, a * 16 % 256, b * 16 % 256);
  }

  lemma {:induction false} SixteenthLinear(a: nat, b: nat)
    ensures Xor(a, b) / 16 == Xor(a / 16, b / 16)
  {
    hide Xor;
    XorBits(a, b);
    XorBits(a / 2, b / 2);
    XorBits(a / 4, b / 4);
    XorBits(a / 8, b / 8);
    assert a / 16 == a / 2 / 2 / 2 / 2 && b / 16 == b / 2 / 2 / 2 / 2;
    assert a / 2 / 2 == a / 4 && b / 2 / 2 == b / 4 && a / 4 / 2 == a / 8 && b / 4 / 2 == b / 8;
    var x := Xor(a, b);
    assert x / 16 == x / 2 / 2 / 2 / 2;
  }

  lemma {:induction false} ShiftedSmall(a: nat)
    ensures Shifted(a, 3) == a * 8 && Shifted(a, 8) == a * 256
  {
    assert Shifted(a, 1) == 2 * a;
    assert Shifted(a, 3) == 8 * a;
    assert Shifted(a, 5) == 32 * a;
    assert Shifted(a, 7) == 128 * a;
  }

  lemma {:induction false} TimesLinear(a: nat, b: nat)
    ensures Xor(a, b) * 8 == Xor(a * 8, b * 8) && Xor(a, b) * 256 == Xor(a * 256, b * 256)
  {
    hide Xor, Shifted;
    XorLinearShift(a, b, 3);
    XorLinearShift(a, b, 8);
    ShiftedSmall(a);
    ShiftedSmall(b);
    ShiftedSmall(Xor(a, b));
  }

  lemma {:induction false} FastLowLinear(a: byte, b: byte)
    ensures Xor(a, b) < 256 && FastLow(Xor(a, b)) == Xor(FastLow(a), FastLow(b))
  {
    hide Xor, Spread;
    ByteXor(a, b);
    SpreadLinear(a, b);
    var m: nat, k: nat := Spread(a), Spread(b);
    TimesLinear(m, k);
    SixteenthLinear(m, k);
    XorSwap(m * 256, k * 256, m * 8, k * 8);
    XorSwap(Xor(m * 256, m * 8), Xor(k * 256, k * 8), m / 16, k / 16);
  }

  // ------------------------------------------------------------------ on single bits

  lemma {:induction false} StepsSplit(c: nat, j: nat, k: nat)
    ensures BitSteps(c, j + k) == BitSteps(BitSteps(c, j), k)
    decreases j
  {
    if j > 0 {
      StepsSplit(BitStep(c), j - 1, k);
    }
  }

  /** What a single 1 becomes in 1 to 8 steps. */
  function OneAfter(k: nat): nat
  {
    match k
    case 1 => 0x8408
    case 2 => 0x4204
    case 3 => 0x2102
    case 4 => 0x1081
    case 5 => 0x8C48
    case 6 => 0x4624
    case 7 => 0x2312
    case _ => 0x1189
  }

  lemma {:induction false} FeedbackBits()
    ensures Xor(0x840, 0x8408) == 0x8C48
  {
    hide Xor;
    SmallPowers();
    // 0x8408 and 0x840 share no bit: split at bits 3, 7, 10 and 12
    XorAbove(0x4000, 2, 0x408, 14);
    XorAbove(0x800, 1, 0x40, 11);
    XorAbove(0x400, 1, 8, 10);
    XorAbove(0x40, 1, 8, 6);
    XorAbove(0x400, 0x22, 0x48, 10);
    XorAbove(0x800, 0x11, 0x448, 11);
    XorComm(0x40, 8);
    XorAssoc(0x800, 0x40, 0x8408);
    XorAssoc(0x8000, 0x400, 8);
    XorAbove(0x8000, 1, 0x408, 15);
    XorAbove(0x8000, 1, 0xC48, 15);
    XorAbove(0x400, 1, 0x48, 10);
    XorAbove(0x800, 1, 0x448, 11);
    XorComm(0x8000, 0x408);
    XorAssoc(0x840, 0x8000, 0x408);
    XorComm(0x840, 0x8000);
    XorAssoc(0x8000, 0x840, 0x408);
    XorAssoc(0x800, 0x40, 0x408);
    XorAssoc(0x400, 8, 0x40);
    XorComm(0x40, 0x408);
  }

  lemma {:induction false} OneSteps(k: nat)
    requires 1 <= k <= 8
    ensures BitSteps(1, k) == OneAfter(k)
  {
    hide Xor;
    XorZero(0x8408);
    FeedbackBits();
    assert BitStep(1) == 0x8408;
    StepsLast(1, k - 1);
    if k == 1 {
      assert BitSteps(1, 0) == 1;
    } else {
      OneSteps(k - 1);
    }
  }

  lemma {:induction false} StepsLast(c: nat, k: nat)
    ensures BitSteps(c, k + 1) == BitStep(BitSteps(c, k))
    decreases k
  {
    if k > 0 {
      StepsLast(BitStep(c), k - 1);
    }
  }

  lemma {:induction false} SingleBit(i: nat, t: byte)
    requires i < 8 && t == Pow2(i)
    ensures BitSteps(t, 8) == FastLow(t)
  {
    hide Xor;
    SmallPowers();
    OneSteps(8 - i);
    StepsOfShifted(1, i);
    ShiftedIs(1, i);
    StepsSplit(t, i, 8 - i);
    BitFast(i, t);
  }

  lemma {:induction false} BitFast(i: nat, t: byte)
    requires i < 8 && t == Pow2(i)
    ensures FastLow(t) == OneAfter(8 - i)
  {
    hide Xor;
    SmallPowers();
    if i < 4 {
      assert Pow2(i + 4) == 16 * t && t * 16 % 256 == t * 16;
      XorAbove(16 * t, 1, t, i + 4);
      XorComm(16 * t, t);
      var m := 17 * t;
      assert Spread(t) == m;
      assert Pow2(i + 8) == 256 * t && Pow2(i + 3) == 8 * t;
      XorAbove(256 * t, 17, 136 * t, i + 8);
      XorAbove(8 * t, 561, t, i + 3);
      assert m * 256 == 256 * t * 17 && m / 16 == t;
    } else {
      assert t * 16 % 256 == 0;
      XorZero(t);
      assert Spread(t) == t;
      assert Pow2(i + 8) == 256 * t && Pow2(i + 3) == 8 * t;
      XorAbove(256 * t, 1, 8 * t, i + 8);
      XorAbove(8 * t, 33, t / 16, i + 3);
    }
  }

  /** On every byte the program's step is eight steps of the definition: both are linear. */
  lemma {:induction false} FastIsBits(t: byte, n: nat)
    requires n <= 8 && t < Pow2(n)
    ensures BitSteps(t, 8) == FastLow(t)
  {
    hide Xor, FastLow, BitSteps;
    if n == 0 {
      ZeroSteps();
    } else {
      var p := Pow2(n - 1);
      if t < p {
        FastIsBits(t, n - 1);
      } else {
        SmallPowers();
        var r: byte := t - p;
        FastIsBits(r, n - 1);
        SingleBit(n - 1, p);
        XorHigh(r, n - 1);
        StepsLinear(p, r, 8);
        FastLowLinear(p, r);
      }
    }
  }

  lemma {:induction false} ZeroSteps()
    ensures BitSteps(0, 8) == 0 && FastLow(0) == 0
  {
    hide Xor, Shifted, BitSteps, Pow2;
    SmallPowers();
    StepsOfShifted(0, 8);
    ShiftedIs(0, 8);
    XorZero(0);
    assert Spread(0) == 0;
  }

  /** One byte of `Accumulate` is eight bits of the definition. */
  lemma {:induction false} FastStepIsBits(crc: nat, b: byte)
    ensures FastStep(crc, b) == BitSteps(Xor(crc, b), 8)
  {
    hide Xor, FastLow, BitSteps;
    SmallPowers();
    var high, low := crc / 256, crc % 256;
    ByteXor(b, low);
    var t: byte := Xor(b, low);
    XorAbove(256, high, low, 8);
    XorAssoc(256 * high, low, b);
    XorComm(low, b);
    ShiftedIs(high, 8);
    StepsLinear(256 * high, t, 8);
    StepsOfShifted(high, 8);
    FastIsBits(t, 8);
  }

  lemma {:induction false} StaysSmall(crc: nat, b: byte)
    requires crc < U16
    ensures FastStep(crc, b) < U16
  {
    hide Xor, Spread;
    SmallPowers();
    assert Pow2(16) == U16;
    ByteXor(b, crc % 256);
    var m: nat := Spread(Xor(b, crc % 256));
    XorBound(m * 256, m * 8, 16);
    XorBound(Xor(m * 256, m * 8), m / 16, 16);
    XorBound(crc / 256, FastLow(Xor(b, crc % 256)), 16);
  }

  // ------------------------------------------------------------------- over a message

  /** The definition: every byte, bit by bit, the lowest first. */
  function Checksum(crc: nat, data: Vec): nat
  {
    if data == [] then crc else BitSteps(Xor(Checksum(crc, data[..|data| - 1]), data[|data| - 1]), 8)
  }

  /** The lowest and the highest bit of one byte. */
  lemma {:induction false} ChecksumOfOneBit()
    ensures Checksum(0, [1]) == 0x1189 && Checksum(0, [128]) == 0x8408
  {
    hide Xor;
    XorZero(1);
    XorZero(128);
    XorZero(0x8408);
    assert [1 as byte][..0] == [] && [128 as byte][..0] == [];
    SixteenDigits();
    assert BitSteps(1, 8) == BitSteps(0x8408, 7) == BitSteps(0x4204, 6) == BitSteps(0x2102, 5) == BitSteps(0x1081, 4);
    assert BitSteps(0x1081, 4) == BitSteps(0x8C48, 3) == BitSteps(0x4624, 2) == BitSteps(0x2312, 1) == 0x1189;
    assert BitSteps(128, 8) == BitSteps(64, 7) == BitSteps(32, 6) == BitSteps(16, 5) == BitSteps(8, 4);
    assert BitSteps(8, 4) == BitSteps(4, 3) == BitSteps(2, 2) == BitSteps(1, 1) == 0x8408;
  }

  lemma {:induction false} SixteenDigits()
    ensures Xor(0x840, 0x8408) == 0x8C48
  {
    XorDouble(0x420, 0x4204);
  }

  lemma {:induction false} ChecksumJoin(crc: nat, a: Vec, b: Vec)
    ensures Checksum(crc, a + b) == Checksum(Checksum(crc, a), b)
  {
    hide BitSteps, Xor;
    if b == [] {
      assert a + b == a;
    } else {
      assert (a + b)[..|a + b| - 1] == a + b[..|b| - 1];
      ChecksumJoin(crc, a, b[..|b| - 1]);
    }
  }

  class Accumulator {
    var crc: nat

    /** `NewCRC` */
    constructor ()
      ensures crc == 0xFFFF
    {
      crc := 0xFFFF;
    }

    /** `Accumulate` */
    method Accumulate(data: Vec)
      requires crc < U16
      modifies this
      ensures crc == Checksum(old(crc), data) && crc < U16
    {
      hide BitSteps, Xor, FastStep;
      for i := 0 to |data|
        invariant crc == Checksum(old(crc), data[..i]) && crc < U16
      {
        assert data[..i + 1][..i] == data[..i];
        FastStepIsBits(crc, data[i]);
        StaysSmall(crc, data[i]);
        crc := FastStep(crc, data[i]);
      }
      assert data[..|data|] == data;
    }
  }
}
