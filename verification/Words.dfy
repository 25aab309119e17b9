/** 64-bit words: the operations of math/bits and the bitwise ones, with wrap-around written out. */
module Words {
  import opened Gf256
  import opened Matrices

  /** Two to the 64, and its square and cube. */
  const W: nat := 0x1_0000_0000_0000_0000
  const W2: nat := 0x1_0000_0000_0000_0000_0000_0000_0000_0000
  const W3: nat := 0x1_0000_0000_0000_0000_0000_0000_0000_0000_0000_0000_0000_0000

  type word = x: int | 0 <= x < 0x1_0000_0000_0000_0000

  /** `bits.Add64` */
  function Add64(x: word, y: word, carry: nat): (r: (word, nat))
    requires carry <= 1
    ensures r.1 <= 1 && x + y + carry == r.0 + W * r.1
  {
    var sum := x + y + carry;
    if sum < W then (sum, 0) else (sum - W, 1)
  }

  /** `bits.Sub64` */
  function Sub64(x: word, y: word, borrow: nat): (r: (word, nat))
    requires borrow <= 1
    ensures r.1 <= 1 && x - y - borrow == r.0 - W * r.1
  {
    var diff := x - y - borrow;
    if diff >= 0 then (diff, 0) else (diff + W, 1)
  }

  datatype Uint128 = Uint128(lo: word, hi: word) {
    function Value(): nat { lo + W * hi }
  }

  /** `mul64` */
  function Mul64(a: word, b: word): (r: Uint128)
    ensures r.Value() == a * b
  {
    ProductFits(a, b);
    Uint128(a * b % W, a * b / W)
  }

  lemma {:induction false} ProductFits(a: word, b: word)
    ensures 0 <= a * b < W2 && 0 <= a * b / W < W && a * b % W + W * (a * b / W) == a * b
  {
    ProductBound(a, b, W - 1, W - 1);
    Quotient(a * b, W, W);
  }

  lemma {:induction false} Quotient(x: nat, d: nat, q: nat)
    requires d > 0 && x < d * q
    ensures x / d < q && x % d + d * (x / d) == x
  {
    var a := x / d;
    assert d * a <= x;
    FactorBelow(d, a, q);
  }

  lemma {:induction false} FactorBelow(d: nat, a: nat, q: nat)
    requires d * a < d * q
    ensures a < q
  {
    if a >= q {
      ProductBound(d, q, d, a);
    }
  }

  lemma {:induction false} ProductBound(a: nat, b: nat, x: nat, y: nat)
    requires a <= x && b <= y
    ensures 0 <= a * b <= x * y
  {
    assert a * b <= x * b;
    assert x * b <= x * y;
  }

  /** `add128`: the high word wraps. */
  function Add128(a: Uint128, b: Uint128): (r: Uint128)
    ensures a.Value() + b.Value() < W2 ==> r.Value() == a.Value() + b.Value()
  {
    var (lo, c) := Add64(a.lo, b.lo, 0);
    var (hi, _) := Add64(a.hi, b.hi, c);
    Uint128(lo, hi)
  }

  // ------------------------------------------------------------------------ bitwise

  function And(a: nat, b: nat): (r: nat)
    ensures r <= a && r <= b
  {
    if a == 0 || b == 0 then 0 else 2 * And(a / 2, b / 2) + (if a % 2 == 1 && b % 2 == 1 then 1 else 0)
  }

  function Or(a: nat, b: nat): nat
    decreases a + b
  {
    if a == 0 then b else if b == 0 then a
    else 2 * Or(a / 2, b / 2) + (if a % 2 == 1 || b % 2 == 1 then 1 else 0)
  }

  lemma {:induction false} AndNothing(a: nat)
    ensures And(a, 0) == 0 && And(0, a) == 0 && Or(a, 0) == a && Or(0, a) == a
  {}

  /** A mask of k ones keeps the last k bits. */
  lemma {:induction false} AndOnes(x: nat, k: nat)
    ensures And(x, Pow2(k) - 1) == x % Pow2(k)
  {
    hide And;
    if k == 0 {
      AndNothing(x);
    } else {
      AndOnes(x / 2, k - 1);
      OnesHalved(Pow2(k - 1));
      AndUnfold(x, Pow2(k) - 1);
      Halved(x, Pow2(k - 1));
    }
  }

  lemma {:induction false} OnesHalved(p: nat)
    requires p > 0
    ensures (2 * p - 1) / 2 == p - 1 && (2 * p - 1) % 2 == 1
  {}

  lemma {:induction false} Halved(x: nat, p: nat)
    requires p > 0
    ensures x % (2 * p) == 2 * (x / 2 % p) + x % 2
  {
    RemainderSplit(x, 2, p);
  }

  /** A remainder digit by digit. */
  lemma {:induction false} RemainderSplit(x: nat, d: nat, p: nat)
    requires d > 0 && p > 0
    ensures d * p > 0 && x % (d * p) == d * (x / d % p) + x % d
  {
    Division(x, d);
    Division(x / d, p);
    DigitsRemainder(x, d, p, x / d / p, x / d % p, x % d);
  }

  lemma {:induction false} DigitsRemainder(x: nat, d: nat, p: nat, q: nat, r: nat, z: nat)
    requires d > 0 && p > 0 && z < d && r < p && x == d * (p * q + r) + z
    ensures d * p > 0 && x % (d * p) == d * r + z
  {
    DigitsJoin(d, p, q, r, z);
    RemainderIs(x, d * p, q, d * r + z);
  }

  lemma {:induction false} Division(x: nat, d: nat)
    requires d > 0
    ensures x == d * (x / d) + x % d && x % d < d
  {}

  lemma {:induction false} DigitsJoin(d: nat, p: nat, q: nat, r: nat, z: nat)
    requires z < d && r < p
    ensures d * (p * q + r) + z == (d * p) * q + (d * r + z) && d * r + z < d * p
  {
    assert d * (p * q + r) == d * (p * q) + d * r && d * (p * q) == (d * p) * q;
    ProductBound(d, r + 1, d, p);
    assert d * (r + 1) == d * r + d;
  }

  lemma {:induction false} RemainderIs(x: nat, d: nat, q: nat, r: nat)
    requires d > 0 && r < d && x == d * q + r
    ensures x % d == r && x / d == q
  {
    var a := x / d;
    assert d * a <= x < d * a + d;
    assert d * (a + 1) == d * a + d && d * (q + 1) == d * q + d;
    FactorBelow(d, a, q + 1);
    FactorBelow(d, q, a + 1);
  }

  /** Words that overlap nowhere: and, or act on the parts. */
  lemma {:induction false} AndSplit(a: nat, b: nat, c: nat, d: nat, k: nat)
    requires a < Pow2(k) && c < Pow2(k)
    ensures And(a + Pow2(k) * b, c + Pow2(k) * d) == And(a, c) + Pow2(k) * And(b, d)
  {
    hide Pow2;
    hide And;
    if k == 0 {
      AndNothing(0);
      Once(k, b);
      Once(k, d);
      Once(k, And(b, d));
    } else {
      Twice(k, b);
      Twice(k, d);
      AndSplit(a / 2, b, c / 2, d, k - 1);
      Twice(k, And(b, d));
      AndSplitStep(a, Pow2(k - 1) * b, c, Pow2(k - 1) * d, Pow2(k - 1) * And(b, d));
    }
  }

  lemma {:induction false} Once(k: nat, x: nat)
    requires k == 0
    ensures Pow2(k) * x == x && Pow2(k) == 1
  {}

  lemma {:induction false} Twice(k: nat, x: nat)
    requires k > 0
    ensures Pow2(k) * x == 2 * (Pow2(k - 1) * x) && Pow2(k) == 2 * Pow2(k - 1)
  {}

  lemma {:induction false} AndSplitStep(a: nat, b: nat, c: nat, d: nat, e: nat)
    requires And(a / 2 + b, c / 2 + d) == And(a / 2, c / 2) + e
    ensures And(a + 2 * b, c + 2 * d) == And(a, c) + 2 * e
  {
    hide And;
    AndUnfold(a + 2 * b, c + 2 * d);
    AndUnfold(a, c);
  }

  lemma {:induction false} AndUnfold(a: nat, b: nat)
    ensures And(a, b) == 2 * And(a / 2, b / 2) + (if a % 2 == 1 && b % 2 == 1 then 1 else 0)
  {
    if a == 0 || b == 0 {
      AndNothing(a / 2);
      AndNothing(b / 2);
    }
  }

  lemma {:induction false} HalfOfSum(a: nat, b: nat, p: nat)
    ensures (a + 2 * p * b) / 2 == a / 2 + p * b && (a + 2 * p * b) % 2 == a % 2
  {
    assert 2 * p * b == 2 * (p * b);
  }

  lemma {:induction false} OrSplit(a: nat, b: nat, k: nat)
    requires a < Pow2(k)
    ensures Or(a, Pow2(k) * b) == a + Pow2(k) * b
  {
    if k > 0 {
      var p := Pow2(k - 1);
      OrSplit(a / 2, b, k - 1);
      HalfOfSum(0, b, p);
      assert Pow2(k) * b == 2 * p * b;
      if a == 0 || b == 0 {
        AndNothing(a);
        AndNothing(Pow2(k) * b);
      }
    }
  }

  lemma {:induction false} Power64()
    ensures Pow2(64) == W && Pow2(62) == 0x4000_0000_0000_0000 && Pow2(2) == 4
  {
    hide Pow2;
    Power14();
    PowerSum(16, 14);
    PowerSum(16, 16);
    PowerSum(32, 30);
    PowerSum(32, 32);
  }

  lemma {:induction false} Power14()
    ensures Pow2(2) == 4 && Pow2(14) == 0x4000 && Pow2(16) == 0x1_0000
  {
    assert Pow2(4) == 16;
    PowerSum(4, 4);
    PowerSum(8, 4);
    PowerSum(12, 2);
    PowerSum(8, 8);
  }

  lemma {:induction false} PowerSum(j: nat, k: nat)
    ensures Pow2(j + k) == Pow2(j) * Pow2(k)
  {
    if j > 0 {
      PowerSum(j - 1, k);
      Regroup(2, Pow2(j - 1), Pow2(k));
    }
  }

  /** All bits of a word. */
  lemma {:induction false} AndAll(x: word)
    ensures And(x, W - 1) == x && And(W - 1, x) == x
  {
    Power64();
    AndOnes(x, 64);
    AndCommutes(x, W - 1);
  }

  lemma {:induction false} AndCommutes(a: nat, b: nat)
    ensures And(a, b) == And(b, a)
  {
    if a != 0 && b != 0 {
      AndCommutes(a / 2, b / 2);
    }
  }

  const LOW2: word := 3
  const NOT_LOW2: word := 0xFFFF_FFFF_FFFF_FFFC

  lemma {:induction false} MaskTwo(x: word)
    ensures And(x, LOW2) == x % 4 && And(x, NOT_LOW2) == x - x % 4
  {
    hide And, Pow2;
    Power64();
    AndOnes(x, 2);
    AndOnes(x / 4, 62);
    AndAboveTwo(x % 4, x / 4, 0x3FFF_FFFF_FFFF_FFFF);
  }

  lemma {:induction false} AndAboveTwo(a: nat, q: nat, m: nat)
    requires a < 4
    ensures And(a + 4 * q, 4 * m) == 4 * And(q, m)
  {
    hide And, Pow2;
    Power64();
    AndSplit(a, q, 0, m, 2);
    AndNothing(a);
  }

  /** `shiftRightBy2` */
  function ShiftRightBy2(a: Uint128): (r: Uint128)
    ensures r.Value() == a.Value() / 4
  {
    MaskTwo(a.hi);
    ShiftJoins(a.lo / 4, a.hi % 4);
    var high := And(a.hi, 3) * 0x4000_0000_0000_0000;
    Uint128(Or(a.lo / 4, high), a.hi / 4)
  }

  lemma {:induction false} ShiftJoins(lo: nat, top: nat)
    requires lo < 0x4000_0000_0000_0000 && top < 4
    ensures Or(lo, top * 0x4000_0000_0000_0000) == lo + top * 0x4000_0000_0000_0000 < W
  {
    Power64();
    OrSplit(lo, top, 62);
  }

  /** `select64`: x if v is 1, y if it is 0. */
  function Select64(v: nat, x: word, y: word): (r: word)
    requires v <= 1
    ensures r == if v == 1 then x else y
  {
    AndAll(x);
    AndAll(y);
    AndNothing(x);
    AndNothing(y);
    var ones: word := Sub64(v, 1, 0).0;
    Or(And(W - 1 - ones, x), And(ones, y))
  }

  // ------------------------------------------------------------------- bytes of words

  function Power256(len: nat): (p: nat)
    ensures p > 0
  {
    if len == 0 then 1 else 256 * Power256(len - 1)
  }

  /** The number with these bytes, the least significant first. */
  function LittleEndian(v: Vec): (x: nat)
    ensures x < Power256(|v|)
  {
    if v == [] then 0
    else
      var first: nat := v[0];
      first + 256 * LittleEndian(v[1..])
  }

  lemma {:induction false} LittleEndianJoin(a: Vec, b: Vec)
    ensures LittleEndian(a + b) == LittleEndian(a) + Power256(|a|) * LittleEndian(b)
  {
    if a == [] {
      assert a + b == b;
    } else {
      LittleEndianJoin(a[1..], b);
      assert (a + b)[1..] == a[1..] + b;
      var x := LittleEndian(b);
      Regroup(256, Power256(|a| - 1), x);
    }
  }

  lemma {:induction false} Regroup(a: nat, b: nat, c: nat)
    ensures a * (b * c) == (a * b) * c
  {}

  /** `PutUint64` and `PutUint32`: the len lowest bytes. */
  function LowBytes(x: nat, len: nat): (v: Vec)
    ensures |v| == len
  {
    if len == 0 then [] else [x % 256] + LowBytes(x / 256, len - 1)
  }

  lemma {:induction false} Power256Eight()
    ensures Power256(8) == W && Power256(16) == W2 && Power256(4) == 0x1_0000_0000
  {
    assert Power256(4) == 0x1_0000_0000;
    Power256Sum(4, 4);
    Power256Sum(8, 8);
  }

  lemma {:induction false} Power256Sum(j: nat, k: nat)
    ensures Power256(j + k) == Power256(j) * Power256(k)
  {
    if j > 0 {
      Power256Sum(j - 1, k);
      Regroup(256, Power256(j - 1), Power256(k));
    }
  }

  /** Byte i of a number has weight 256^i. */
  lemma {:induction false} LowBytesAt(x: nat, len: nat, i: nat)
    requires i < len
    ensures LowBytes(x, len)[i] == x / Power256(i) % 256
  {
    if i > 0 {
      LowBytesAt(x / 256, len - 1, i - 1);
      DivideTwice(x, 256, Power256(i - 1));
    }
  }

  lemma {:induction false} DivideTwice(x: nat, d: nat, p: nat)
    requires d > 0 && p > 0
    ensures d * p > 0 && x / (d * p) == x / d / p
  {
    Division(x, d);
    Division(x / d, p);
    DigitsJoin(d, p, x / d / p, x / d % p, x % d);
    RemainderIs(x, d * p, x / d / p, d * (x / d % p) + x % d);
  }

  /** The bytes of a number give it back, and a number its bytes. */
  lemma {:induction false} LowBytesOfNumber(v: Vec)
    ensures LowBytes(LittleEndian(v), |v|) == v
  {
    if v != [] {
      var first: nat := v[0];
      LowBytesOfNumber(v[1..]);
      assert (first + 256 * LittleEndian(v[1..])) / 256 == LittleEndian(v[1..]);
      assert v == [v[0]] + v[1..];
    }
  }

  /** An and of bytes is an and of the numbers. */
  lemma {:induction false} AndOfBytes(v: Vec, m: Vec, i: nat)
    requires |v| == |m| && i < |v|
    ensures LowBytes(And(LittleEndian(v), LittleEndian(m)), |v|)[i] == And(v[i], m[i])
  {
    hide And;
    var a, b := LittleEndian(v[1..]), LittleEndian(m[1..]);
    var x: nat, y: nat := v[0], m[0];
    AndSplitByte(x, a, y, b);
    if i > 0 {
      AndOfBytes(v[1..], m[1..], i - 1);
    }
  }

  lemma {:induction false} AndSplitByte(x: nat, a: nat, y: nat, b: nat)
    requires x < 256 && y < 256
    ensures And(x + 256 * a, y + 256 * b) % 256 == And(x, y)
    ensures And(x + 256 * a, y + 256 * b) / 256 == And(a, b)
  {
    hide And;
    assert Pow2(8) == 256;
    AndSplit(x, a, y, b, 8);
  }

  lemma {:induction false} FourBytes(a: byte, b: byte, c: byte, d: byte)
    ensures LittleEndian([a, b, c, d]) == a + 256 * b + 0x1_0000 * c + 0x100_0000 * d
  {
    assert [a, b, c, d][1..] == [b, c, d] && [b, c, d][1..] == [c, d] && [c, d][1..] == [d] && [d][1..] == [];
    assert LittleEndian([d]) == d;
    assert LittleEndian([c, d]) == c + 256 * d;
    assert LittleEndian([b, c, d]) == b + 256 * c + 0x1_0000 * d;
  }

  lemma {:induction false} NumberOfLowBytes(x: nat, len: nat)
    ensures LittleEndian(LowBytes(x, len)) == x % Power256(len)
  {
    if len > 0 {
      NumberOfLowBytes(x / 256, len - 1);
      assert LowBytes(x, len)[1..] == LowBytes(x / 256, len - 1);
      RemainderSplit(x, 256, Power256(len - 1));
    }
  }

  /** The lowest byte, and the others. */
  lemma {:induction false} LowBytesIs(x: nat, t: nat, len: nat)
    requires len > 0
    ensures LowBytes(x + 256 * t, len) == [x % 256] + LowBytes(x / 256 + t, len - 1)
  {
    LastDigit(x, t);
  }

  lemma {:induction false} LastDigit(x: nat, t: nat)
    ensures (x + 256 * t) % 256 == x % 256 && (x + 256 * t) / 256 == x / 256 + t
  {}

  lemma {:induction false} PowerTimes(len: nat, y: nat)
    requires len > 0
    ensures Power256(len) * y == 256 * (Power256(len - 1) * y)
  {
    Regroup(256, Power256(len - 1), y);
  }

  lemma {:induction false} LowBytesSplit(x: nat, y: nat, len: nat, more: nat)
    requires x < Power256(len)
    ensures LowBytes(x + Power256(len) * y, len + more) == LowBytes(x, len) + LowBytes(y, more)
  {
    hide LowBytes;
    if len == 0 {
      LowBytesNone(x, y, more);
    } else {
      PowerTimes(len, y);
      LowBytesIs(x, 0, len);
      LowBytesIs(x, Power256(len - 1) * y, len + more);
      LowBytesSplit(x / 256, y, len - 1, more);
    }
  }

  lemma {:induction false} LowBytesNone(x: nat, y: nat, more: nat)
    requires x < Power256(0)
    ensures LowBytes(x + Power256(0) * y, more) == LowBytes(x, 0) + LowBytes(y, more)
  {
    assert Power256(0) == 1;
    assert LowBytes(y, more) == [] + LowBytes(y, more);
  }
}
