/**
  The one-time authenticator of pkg/crypto/poly1305.go, in 64-bit limbs with lazy
  reduction, against the definition in section 2.5 of RFC 8439.
*/
module Poly1305 {
  import opened Gf256
  import opened Matrices
  import opened Words

  const P: nat := 0x3_FFFF_FFFF_FFFF_FFFF_FFFF_FFFF_FFFF_FFFB
  const RMASK0: nat := 0x0FFF_FFFC_0FFF_FFFF
  const RMASK1: nat := 0x0FFF_FFFC_0FFF_FFFC

  // --------------------------------------------------------------- the definition

  /** A block as a number: its bytes and a 1 beyond them. */
  function BlockValue(block: Vec): nat
  {
    LittleEndian(block) + Power256(|block|)
  }

  /** A block added, and the sum multiplied by r. */
  function Absorb(a: nat, b: nat, r: nat): nat
  {
    Times(a + b, r)
  }

  function Times(a: nat, b: nat): nat { a * b }

  /** The accumulator after the whole blocks of a message. */
  function Accumulated(r: nat, m: Vec): (a: nat)
    ensures a < P
  {
    if |m| < 16 then 0
    else Absorb(Accumulated(r, m[..|m| - 16]), BlockValue(m[|m| - 16..]), r) % P
  }

  /** The whole blocks of a message. */
  function Whole(m: Vec): (w: Vec)
    ensures |w| <= |m| && |m| - |w| < 16
  {
    m[..|m| - |m| % 16]
  }

  /** The rest after the whole blocks. */
  function Rest(m: Vec): (w: Vec)
    ensures |w| == |m| % 16
  {
    m[|m| - |m| % 16..]
  }

  /** The tag as a number. */
  function Tag(r: nat, s: nat, m: Vec): nat
  {
    var a := Accumulated(r, Whole(m));
    var last := if Rest(m) == [] then a else Absorb(a, BlockValue(Rest(m)), r) % P;
    (last + s) % W2
  }

  /** The key halves: r with some bits cleared, and s. */
  function KeyR(key: Vec): nat
    requires |key| == 32
  {
    And(LittleEndian(key[..16]), RMASK0 + W * RMASK1)
  }

  function KeyS(key: Vec): nat
    requires |key| == 32
  {
    LittleEndian(key[16..])
  }

  // ------------------------------------------------------------------- congruences

  /** Equal modulo P. */
  predicate Same(a: nat, b: nat)
  {
    a % P == b % P
  }

  lemma {:induction false} SameDifference(a: nat, b: nat, q: nat)
    requires a == b + P * q
    ensures Same(a, b) && Same(b, a)
  {
    var d, m := b / P, b % P;
    assert b == P * d + m;
    assert P * (d + q) == P * d + P * q;
    RemainderIs(a, P, d + q, m);
  }

  lemma {:induction false} SameSum(a: nat, b: nat, n: nat)
    requires Same(a, b)
    ensures Same(a + n, b + n)
  {
    var m := a % P;
    assert a == P * (a / P) + m && b == P * (b / P) + m;
    SameDifference(a + n, m + n, a / P);
    SameDifference(b + n, m + n, b / P);
  }

  lemma {:induction false} SameProduct(a: nat, b: nat, r: nat)
    requires Same(a, b)
    ensures Same(a * r, b * r)
  {
    var m := a % P;
    assert a == P * (a / P) + m && b == P * (b / P) + m;
    Distribute(P, a / P, m, r);
    Distribute(P, b / P, m, r);
    SameDifference(a * r, m * r, (a / P) * r);
    SameDifference(b * r, m * r, (b / P) * r);
  }

  lemma {:induction false} Distribute(p: nat, q: nat, m: nat, r: nat)
    ensures (p * q + m) * r == m * r + p * (q * r)
  {}

  lemma {:induction false} AbsorbIs(a: nat, b: nat, r: nat)
    ensures Absorb(a, b, r) == Times(a + b, r)
  {}

  lemma {:induction false} SameAbsorbed(a: nat, b: nat, n: nat, r: nat)
    requires Same(a, b)
    ensures Same(Absorb(a, n, r), Absorb(b, n, r))
  {
    hide Same;
    SameSum(a, b, n);
    SameProduct(a + n, b + n, r);
  }

  lemma {:induction false} AbsorbReduced(a: nat, b: nat, r: nat)
    ensures Absorb(a % P, b, r) % P == Absorb(a, b, r) % P
  {
    hide Absorb;
    SameReduced(a);
    SameAbsorbed(a % P, a, b, r);
  }

  lemma {:induction false} SameChain(a: nat, b: nat, c: nat, d: nat)
    requires Same(a, b) && Same(b, c) && Same(d, c)
    ensures Same(a, d)
  {}

  lemma {:induction false} SameReduced(a: nat)
    ensures Same(a % P, a)
  {}

  // ------------------------------------------------------------------ limb arithmetic

  /** A clamped half of r is below this. */
  const R_LIMIT: nat := 0x1000_0000_0000_0000

  function Number(h0: nat, h1: nat, h2: nat): nat { h0 + W * h1 + W2 * h2 }

  /** Adding a block of two words and the bit above it. */
  method AddBlock(h0: word, h1: word, h2: word, b0: word, b1: word, hibit: nat) returns (g0: word, g1: word, g2: word)
    requires h2 <= 4 && hibit <= 1
    ensures Number(g0, g1, g2) == Number(h0, h1, h2) + b0 + W * b1 + W2 * hibit && g2 <= 6
  {
    var (x, c) := Add64(h0, b0, 0);
    var (y, d) := Add64(h1, b1, c);
    g0, g1, g2 := x, y, h2 + d + hibit;
  }

  lemma {:induction false} ProductsExpand(h0: nat, h1: nat, h2: nat, r0: nat, r1: nat)
    ensures Number(h0, h1, h2) * (r0 + W * r1)
         == h0 * r0 + W * (h1 * r0 + h0 * r1) + W2 * (h2 * r0 + h1 * r1) + W3 * (h2 * r1)
  {
    var a, b := W * h1, W2 * h2;
    Distribute3(h0, a, b, r0 + W * r1);
    Split2(h0, r0, W, r1);
    Split2(a, r0, W, r1);
    Split2(b, r0, W, r1);
    Regroup(W, h1, r0);
    Regroup(W, h1, r1);
    Regroup(W2, h2, r0);
    Regroup(W2, h2, r1);
  }

  lemma {:induction false} Distribute3(a: nat, b: nat, c: nat, x: nat)
    ensures (a + b + c) * x == a * x + b * x + c * x
  {}

  lemma {:induction false} Split2(a: nat, r0: nat, w: nat, r1: nat)
    ensures a * (r0 + w * r1) == a * r0 + w * (a * r1)
  {
    assert a * (w * r1) == w * (a * r1);
  }

  /** The product of the accumulator and r in four words: nothing is lost. */
  method Multiply(h0: word, h1: word, h2: word, r0: word, r1: word) returns (t0: word, t1: word, t2: word, t3: word)
    requires h2 <= 6 && r0 < R_LIMIT && r1 < R_LIMIT
    ensures t0 + W * t1 + W2 * t2 + W3 * t3 == Times(Number(h0, h1, h2), r0 + W * r1)
  {
    ProductBound(h0, r1, W, R_LIMIT);
    ProductBound(h1, r0, W, R_LIMIT);
    ProductBound(h1, r1, W, R_LIMIT);
    ProductBound(h2, r0, 6, R_LIMIT);
    ProductBound(h2, r1, 6, R_LIMIT);
    ProductsExpand(h0, h1, h2, r0, r1);
    var h0r0 := Mul64(h0, r0);
    var h1r0 := Mul64(h1, r0);
    var h2r0 := Mul64(h2, r0);
    var h0r1 := Mul64(h0, r1);
    var h1r1 := Mul64(h1, r1);
    var h2r1 := Mul64(h2, r1);
    var m0, m1, m2, m3 := h0r0, Add128(h1r0, h0r1), Add128(h2r0, h1r1), h2r1;
    t0, t1, t2, t3 := Carry(m0, m1, m2, m3);
  }

  /** The carry chain over four partial products. */
  method Carry(m0: Uint128, m1: Uint128, m2: Uint128, m3: Uint128) returns (t0: word, t1: word, t2: word, t3: word)
    requires m3.Value() < W / 2 && m2.Value() < W2 / 2
    ensures t0 + W * t1 + W2 * t2 + W3 * t3 == m0.Value() + W * m1.Value() + W2 * m2.Value() + W3 * m3.Value()
  {
    t0 := m0.lo;
    var (x, c) := Add64(m1.lo, m0.hi, 0);
    var (y, d) := Add64(m2.lo, m1.hi, c);
    var (z, e) := Add64(m3.lo, m2.hi, d);
    assert m3.hi == 0 && m2.hi < W / 2;
    t1, t2, t3 := x, y, z;
  }

  /** Folding everything from bit 130 up onto the bottom: five times a quarter of it, in two additions. */
  method Reduce(t0: word, t1: word, t2: word, t3: word) returns (h0: word, h1: word, h2: word, ghost q: nat)
    requires t3 < 7 * R_LIMIT
    ensures Number(h0, h1, h2) < 5 * W2
    ensures t0 + W * t1 + W2 * t2 + W3 * t3 == Number(h0, h1, h2) + P * q
  {
    hide And, Or, Pow2;
    MaskTwo(t2);
    var low := And(t2, LOW2);
    var cc := Uint128(And(t2, NOT_LOW2), t3);
    ghost var quarter := t2 / 4;
    q := quarter + 0x4000_0000_0000_0000 * t3;
    assert t2 == 4 * quarter + low;
    assert cc.Value() == 4 * q;
    var a0, a1, a2 := AddTo(t0, t1, low, cc);
    cc := ShiftRightBy2(cc);
    assert cc.Value() == q;
    h0, h1, h2 := AddTo(a0, a1, a2, cc);
    FoldedSmall(t0, t1, low, t3, quarter);
  }

  lemma {:induction false} FoldedSmall(t0: word, t1: word, low: nat, t3: nat, quarter: nat)
    requires low < 4 && t3 < 7 * R_LIMIT && 4 * quarter < W
    ensures Number(t0, t1, low) + 5 * (quarter + 0x4000_0000_0000_0000 * t3) < 5 * W2
  {}

  /** Adding a 128-bit number to the accumulator. */
  method AddTo(h0: word, h1: word, h2: word, cc: Uint128) returns (g0: word, g1: word, g2: word)
    requires h2 <= 4
    ensures Number(g0, g1, g2) == Number(h0, h1, h2) + cc.Value() && g2 <= h2 + 1
  {
    var (x, c) := Add64(h0, cc.lo, 0);
    var (y, d) := Add64(h1, cc.hi, c);
    g0, g1, g2 := x, y, h2 + d;
  }

  lemma {:induction false} TopWordSmall(h0: word, h1: word, h2: word, r: nat, t0: word, t1: word, t2: word, t3: word)
    requires Number(h0, h1, h2) < 7 * W2 && r < W * R_LIMIT
    requires t0 + W * t1 + W2 * t2 + W3 * t3 == Times(Number(h0, h1, h2), r)
    ensures t3 < 7 * R_LIMIT
  {
    ProductBound(Number(h0, h1, h2), r, 7 * W2 - 1, W * R_LIMIT - 1);
  }

  // ----------------------------------------------------------------- blocks as words

  lemma {:induction false} TwoWords(b: Vec)
    requires |b| == 16
    ensures LittleEndian(b[..8]) < W && LittleEndian(b[8..]) < W
    ensures LittleEndian(b[..8]) + W * LittleEndian(b[8..]) == LittleEndian(b) < W2
  {
    Power256Eight();
    LittleEndianJoin(b[..8], b[8..]);
    assert b == b[..8] + b[8..];
  }

  /** A short block with a 1 and zeros behind it is its value. */
  lemma {:induction false} PaddedValue(block: Vec)
    requires |block| < 16
    ensures LittleEndian(block + [1] + Zeros(15 - |block|)) == BlockValue(block)
  {
    var zeros := Zeros(15 - |block|);
    ZerosAreZero(15 - |block|);
    assert ([1] + zeros)[1..] == zeros;
    LittleEndianJoin(block, [1] + zeros);
    assert block + ([1] + zeros) == block + [1] + zeros;
  }

  lemma {:induction false} ZerosAreZero(n: nat)
    ensures LittleEndian(Zeros(n)) == 0
  {
    if n > 0 {
      ZerosAreZero(n - 1);
      assert Zeros(n)[1..] == Zeros(n - 1);
    }
  }

  // ---------------------------------------------------------------------- the program

  /** The four words of a key; the first two are clamped. */
  method KeyWords(key: Vec) returns (a: word, b: word, c: word, d: word)
    requires |key| == 32
    ensures a + W * b == KeyR(key) && c + W * d == KeyS(key) && a < R_LIMIT && b < R_LIMIT
  {
    hide And, LittleEndian, Power256;
    ClampByHalves(key);
    TwoWords(key[..16]);
    TwoWords(key[16..]);
    assert key[..16][..8] == key[..8] && key[..16][8..] == key[8..16];
    assert key[16..][..8] == key[16..24] && key[16..][8..] == key[24..];
    a, b := And(LittleEndian(key[..8]), RMASK0), And(LittleEndian(key[8..16]), RMASK1);
    c, d := LittleEndian(key[16..24]), LittleEndian(key[24..]);
  }

  lemma {:induction false} NothingYet(r: nat)
    ensures Same(Number(0, 0, 0), Accumulated(r, Whole([]))) && Rest([]) == [] && Number(0, 0, 0) == 0
  {
    NoBlocks(r);
    assert Whole([]) == [];
  }

  class Mac {
    const r0: word
    const r1: word
    const s0: word
    const s1: word
    var h0: word
    var h1: word
    var h2: word
    const buffer: array<byte>
    var offset: nat
    /** Everything authenticated so far. */
    ghost var fed: Vec

    ghost function R(): nat { r0 + W * r1 }

    ghost function S(): nat { s0 + W * s1 }

    ghost function H(): nat
      reads this
    {
      Number(h0, h1, h2)
    }

    /** The limbs stay in range: no carry is ever lost. */
    ghost predicate Bounded()
      reads this
    {
      r0 < R_LIMIT && r1 < R_LIMIT && H() < 5 * W2
    }

    /** The accumulator is that of the whole blocks, and the buffer has the rest. */
    ghost predicate Valid()
      reads this, buffer
    {
      Absorbed() && buffer.Length == 16 && offset == |fed| % 16 && buffer[..offset] == Rest(fed)
    }

    /** The accumulator has taken in the whole blocks. */
    ghost predicate Absorbed()
      reads this
    {
      Bounded() && Same(H(), Accumulated(R(), Whole(fed)))
    }

    /** `newPoly1305` */
    constructor (key: Vec)
      requires |key| == 32
      ensures Valid() && fed == [] && fresh(buffer) && R() == KeyR(key) && S() == KeyS(key)
    {
      hide KeyR, KeyS, And, LittleEndian, Power256, Accumulated, Same, Number, Rest, Whole;
      var a, b, c, d := KeyWords(key);
      r0, r1, s0, s1 := a, b, c, d;
      h0, h1, h2 := 0, 0, 0;
      buffer := new byte[16](_ => 0);
      offset, fed := 0, [];
      NothingYet(a + W * b);
    }

    /** `processBlock` */
    method ProcessBlock(block: Vec, fullBlock: bool)
      requires Bounded() && (if fullBlock then |block| == 16 else |block| < 16)
      modifies `h0, `h1, `h2
      ensures Bounded() && Same(H(), Absorb(old(H()), BlockValue(block), R()))
    {
      hide Number, LittleEndian, Power256, Same, BlockValue, Times, Absorb;
      BoundedFacts();
      BlockSmall(block);
      var g0, g1, g2 := AddWords(block, fullBlock);
      var t0, t1, t2, t3 := Multiply(g0, g1, g2, r0, r1);
      TopWordSmall(g0, g1, g2, R(), t0, t1, t2, t3);
      ghost var q;
      h0, h1, h2, q := Reduce(t0, t1, t2, t3);
      AbsorbIs(old(H()), BlockValue(block), R());
      SameDifference(Absorb(old(H()), BlockValue(block), R()), H(), q);
      BoundedFacts();
      BoundedNow();
    }

    lemma {:induction false} BoundedNow()
      requires r0 < R_LIMIT && r1 < R_LIMIT && H() < 5 * W2
      ensures Bounded()
    {}

    lemma {:induction false} BoundedFacts()
      ensures H() == Number(h0, h1, h2) && R() == r0 + W * r1
      ensures Bounded() ==> r0 < R_LIMIT && r1 < R_LIMIT && H() < 5 * W2 && R() < W * R_LIMIT && h2 <= 4
    {}

    /** The block as two words and the bit above it, added to the accumulator. */
    method AddWords(block: Vec, fullBlock: bool) returns (g0: word, g1: word, g2: word)
      requires h2 <= 4 && (if fullBlock then |block| == 16 else |block| < 16)
      ensures Number(g0, g1, g2) == H() + BlockValue(block) && g2 <= 6
    {
      hide LittleEndian, Power256, LowBytes;
      Power256Eight();
      if fullBlock {
        TwoWords(block);
        g0, g1, g2 := AddBlock(h0, h1, h2, LittleEndian(block[..8]), LittleEndian(block[8..]), 1);
      } else {
        var buf := block + [1] + Zeros(15 - |block|);
        PaddedValue(block);
        TwoWords(buf);
        g0, g1, g2 := AddBlock(h0, h1, h2, LittleEndian(buf[..8]), LittleEndian(buf[8..]), 0);
      }
    }

    /** A block that completes what is in the buffer. */
    method TakeBlock(block: Vec, ghost more: Vec)
      requires Absorbed() && |block| == 16 && block == Rest(fed) + more
      modifies `h0, `h1, `h2, `fed
      ensures Absorbed() && fed == old(fed) + more && Rest(fed) == []
    {
      hide Accumulated, Same, Number, Whole, Rest, BlockValue, Absorb;
      ghost var was := H();
      BlockDone(R(), fed, more);
      ProcessBlock(block, true);
      Advance(R(), was, H(), fed, more);
      fed := fed + more;
    }

    /** As much of the message as the buffer takes. */
    method CopyIn(msg: Vec) returns (n: nat)
      requires Valid()
      modifies buffer
      ensures n == (if 16 - offset <= |msg| then 16 - offset else |msg|)
      ensures offset + n <= 16 == buffer.Length && buffer[..offset + n] == Rest(fed) + msg[..n]
    {
      hide Accumulated, Same, Number, Whole, Rest, Bounded;
      n := if 16 - offset <= |msg| then 16 - offset else |msg|;
      for i := 0 to n
        invariant buffer[..offset + i] == Rest(fed) + msg[..i]
      {
        buffer[offset + i] := msg[i];
      }
    }

    /** The whole blocks of a message, when the buffer is empty. */
    method TakeBlocks(msg: Vec) returns (rest: Vec)
      requires Absorbed() && Rest(fed) == []
      modifies `h0, `h1, `h2, `fed
      ensures Absorbed() && Rest(fed) == [] && |rest| < 16 && fed + rest == old(fed) + msg
    {
      hide Accumulated, Same, Rest, Number;
      rest := msg;
      while |rest| >= 16
        invariant Absorbed() && Rest(fed) == [] && fed + rest == old(fed) + msg
      {
        assert [] + rest[..16] == rest[..16] && (fed + rest[..16]) + rest[16..] == fed + rest;
        TakeBlock(rest[..16], rest[..16]);
        rest := rest[16..];
      }
    }

    /** What is left over is kept for the next call. */
    method KeepRest(m: Vec)
      requires Absorbed() && Rest(fed) == [] && |m| < 16 && buffer.Length == 16 && offset == 0
      modifies `offset, `fed, buffer
      ensures Valid() && fed == old(fed) + m
    {
      hide Accumulated, Same, Rest, Whole, Number;
      RestGrows(fed, m);
      assert [] + m == m;
      if |m| > 0 {
        for i := 0 to |m|
          modifies buffer
          invariant buffer[..i] == m[..i]
        {
          buffer[i] := m[i];
        }
        offset := |m|;
      }
      fed := fed + m;
    }

    /** `update`: however a message is cut into pieces, the state depends on the whole only. */
    method Update(msg: Vec)
      requires Valid()
      modifies this, buffer
      ensures Valid() && fed == old(fed) + msg
    {
      hide Accumulated, Same, Rest, Whole, Number;
      var m := msg;
      RestFacts(fed);
      if offset > 0 {
        var n := CopyIn(m);
        if offset + n < 16 {
          RestGrows(fed, m);
          offset, fed := offset + n, fed + m;
          assert msg[..n] == msg;
          return;
        }
        m := m[n..];
        offset := 0;
        assert buffer[..] == buffer[..16] && msg == msg[..n] + m;
        TakeBlock(buffer[..], msg[..n]);
      }
      assert fed + m == old(fed) + msg;
      m := TakeBlocks(m);
      KeepRest(m);
    }

    /** `finish`: the tag of everything authenticated, by the definition. */
    method Finish() returns (tag: Vec)
      requires Valid()
      modifies `h0, `h1, `h2
      ensures tag == LowBytes(Tag(R(), S(), fed), 16)
    {
      hide Accumulated, Same, Number, BlockValue, Absorb;
      ghost var a := Accumulated(R(), Whole(fed));
      if offset > 0 {
        ghost var was := H();
        ProcessBlock(buffer[..offset], false);
        a := Absorb(a, BlockValue(Rest(fed)), R()) % P;
        LastBlock(H(), was, Accumulated(R(), Whole(fed)), BlockValue(Rest(fed)), R());
      }
      assert Tag(R(), S(), fed) == (a + S()) % W2;
      var x, y := FinalWords();
      FinalValue(H(), a, S());
      TagBytes(x, y, (a + S()) % W2);
      tag := LowBytes(x, 8) + LowBytes(y, 8);
    }

    /** The final reduction, and the addition of s, in two words. */
    method FinalWords() returns (x: word, y: word)
      requires Bounded()
      ensures x + W * y == ((if H() < P then H() else H() - P) + S()) % W2
    {
      hide And, Or;
      var (hMinusP0, b0) := Sub64(h0, 0xFFFF_FFFF_FFFF_FFFB, 0);
      var (hMinusP1, b1) := Sub64(h1, 0xFFFF_FFFF_FFFF_FFFF, b0);
      var (hMinusP2, b2) := Sub64(h2, 3, b1);
      var g0 := Select64(b2, h0, hMinusP0);
      var g1 := Select64(b2, h1, hMinusP1);
      var (u, c) := Add64(g0, s0, 0);
      var (v, d) := Add64(g1, s1, c);
      x, y := u, v;
      ghost var h := if H() < P then H() else H() - P;
      ghost var top: nat := if H() < P then h2 else hMinusP2;
      assert h == g0 + W * g1 + W2 * top;
      RemainderIs(h + S(), W2, top + d, x + W * y);
    }
  }

  /** One final subtraction is enough. */
  lemma {:induction false} FinalValue(h: nat, a: nat, s: nat)
    requires h < 5 * W2 && Same(h, a) && a < P
    ensures a == if h < P then h else h - P
  {}

  lemma {:induction false} LastBlock(now: nat, was: nat, a: nat, b: nat, r: nat)
    requires Same(was, a) && Same(now, Absorb(was, b, r))
    ensures Same(now, Absorb(a, b, r) % P)
  {
    hide Same, Absorb;
    SameAbsorbed(was, a, b, r);
    SameReduced(Absorb(a, b, r));
    SameChain(now, Absorb(was, b, r), Absorb(a, b, r), Absorb(a, b, r) % P);
  }

  lemma {:induction false} TagBytes(x: word, y: word, t: nat)
    requires t == x + W * y
    ensures LowBytes(x, 8) + LowBytes(y, 8) == LowBytes(t, 16)
  {
    Power256Eight();
    LowBytesSplit(x, y, 8, 8);
  }

  lemma {:induction false} ClampByHalves(key: Vec)
    requires |key| == 32
    ensures And(LittleEndian(key[..8]), RMASK0) + W * And(LittleEndian(key[8..16]), RMASK1) == KeyR(key)
    ensures And(LittleEndian(key[..8]), RMASK0) < R_LIMIT && And(LittleEndian(key[8..16]), RMASK1) < R_LIMIT
  {
    hide And;
    assert key[..16][..8] == key[..8] && key[..16][8..] == key[8..16];
    TwoWords(key[..16]);
    Power64();
    AndSplit(LittleEndian(key[..8]), LittleEndian(key[8..16]), RMASK0, RMASK1, 64);
  }

  lemma {:induction false} BlockSmall(block: Vec)
    requires |block| <= 16
    ensures BlockValue(block) < 2 * W2
  {
    Power256Eight();
    if |block| < 16 {
      Power256Sum(|block|, 16 - |block|);
      ProductBound(Power256(|block|), 1, Power256(|block|), Power256(16 - |block|));
    }
  }

  lemma {:induction false} RestFacts(m: Vec)
    ensures Rest(m) == m[|m| - |m| % 16..] && |Rest(m)| == |m| % 16 && Whole(m) == m[..|m| - |m| % 16]
    ensures |m| % 16 == 0 ==> Rest(m) == [] && Whole(m) == m
  {}

  /** Less than a block more only goes to the rest. */
  lemma {:induction false} RestGrows(m: Vec, more: Vec)
    requires |Rest(m)| + |more| < 16
    ensures Rest(m + more) == Rest(m) + more && Whole(m + more) == Whole(m) && |m + more| % 16 == |m| % 16 + |more|
  {
    assert m == Whole(m) + Rest(m);
  }

  /** Filling up a block makes it the next one. */
  lemma {:induction false} BlockDone(r: nat, m: Vec, more: Vec)
    requires |Rest(m)| + |more| == 16
    ensures Whole(m + more) == m + more && Rest(m + more) == [] && |m + more| % 16 == 0
    ensures Accumulated(r, m + more) == Absorb(Accumulated(r, Whole(m)), BlockValue(Rest(m) + more), r) % P
  {
    hide BlockValue, Absorb;
    assert (m + more)[..|m + more| - 16] == Whole(m);
    assert (m + more)[|m + more| - 16..] == Rest(m) + more;
  }

  lemma {:induction false} Advance(r: nat, was: nat, now: nat, m: Vec, more: Vec)
    requires |Rest(m)| + |more| == 16 && Same(was, Accumulated(r, Whole(m)))
    requires Same(now, Absorb(was, BlockValue(Rest(m) + more), r))
    ensures Same(now, Accumulated(r, Whole(m + more)))
  {
    hide Same, Absorb, Accumulated, Whole, Rest, BlockValue;
    BlockDone(r, m, more);
    SameAbsorbed(was, Accumulated(r, Whole(m)), BlockValue(Rest(m) + more), r);
    SameReduced(Absorb(Accumulated(r, Whole(m)), BlockValue(Rest(m) + more), r));
    SameChain(now, Absorb(was, BlockValue(Rest(m) + more), r),
              Absorb(Accumulated(r, Whole(m)), BlockValue(Rest(m) + more), r), Accumulated(r, Whole(m + more)));
  }

  // -------------------------------------------------------------- as a polynomial in r

  function Power(r: nat, e: nat): nat
  {
    if e == 0 then 1 else Times(r, Power(r, e - 1))
  }

  /** The values of the blocks of a message; the last one may be short. */
  function BlocksOf(m: Vec): seq<nat>
  {
    if m == [] then []
    else if |m| <= 16 then [BlockValue(m)]
    else [BlockValue(m[..16])] + BlocksOf(m[16..])
  }

  /** The first block times the highest power of r, and so on down to the last times r. */
  function Polynomial(r: nat, blocks: seq<nat>): nat
  {
    if blocks == [] then 0 else Times(blocks[0], Power(r, |blocks|)) + Polynomial(r, blocks[1..])
  }

  /** Horner's rule. */
  lemma {:induction false} PolynomialLast(r: nat, blocks: seq<nat>, b: nat)
    ensures Polynomial(r, blocks + [b]) == Absorb(Polynomial(r, blocks), b, r)
  {
    hide Times;
    if blocks == [] {
      assert [b][1..] == [];
      PowerOne(r);
      TimesLaws(b, 0, r, 0);
      assert blocks + [b] == [b] && Polynomial(r, [b]) == Times(b, Power(r, 1)) + Polynomial(r, []);
    } else {
      PolynomialLast(r, blocks[1..], b);
      assert (blocks + [b])[1..] == blocks[1..] + [b];
      TimesLaws(Times(blocks[0], Power(r, |blocks|)), Polynomial(r, blocks[1..]) + b, r, 0);
      TimesLaws(blocks[0], 0, r, Power(r, |blocks|));
    }
  }

  lemma {:induction false} PowerOne(r: nat)
    ensures Power(r, 1) == r
  {
    assert Power(r, 0) == 1;
  }

  lemma {:induction false} TimesLaws(a: nat, b: nat, r: nat, p: nat)
    ensures Times(a + b, r) == Times(a, r) + Times(b, r) && Times(0, r) == 0
    ensures Times(a, Times(r, p)) == Times(Times(a, p), r)
  {
    assert a * (r * p) == (a * p) * r;
  }

  lemma {:induction false} BlocksAppend(m: Vec, b: Vec)
    requires |m| % 16 == 0 && 0 < |b| <= 16
    ensures BlocksOf(m + b) == BlocksOf(m) + [BlockValue(b)]
  {
    hide BlockValue;
    if m == [] {
      assert m + b == b;
    } else {
      BlocksAppend(m[16..], b);
      assert (m + b)[..16] == m[..16] && (m + b)[16..] == m[16..] + b;
      assert m[16..] == [] ==> m[..16] == m;
    }
  }

  lemma {:induction false} AccumulatedIsPolynomial(r: nat, m: Vec)
    requires |m| % 16 == 0
    ensures Accumulated(r, m) == Polynomial(r, BlocksOf(m)) % P
  {
    hide BlockValue, Absorb, Polynomial, BlocksOf, Accumulated;
    if m == [] {
      NoBlocks(r);
    } else {
      AccumulatedIs(r, m);
      var k := |m| - 16;
      AccumulatedIsPolynomial(r, m[..k]);
      var a, b := Polynomial(r, BlocksOf(m[..k])), BlockValue(m[k..]);
      AbsorbReduced(a, b, r);
      BlocksAppend(m[..k], m[k..]);
      assert m == m[..k] + m[k..];
      PolynomialLast(r, BlocksOf(m[..k]), b);
    }
  }

  lemma {:induction false} NoBlocks(r: nat)
    ensures Polynomial(r, BlocksOf([])) == 0 && Accumulated(r, []) == 0
  {}

  lemma {:induction false} AccumulatedIs(r: nat, m: Vec)
    requires |m| % 16 == 0 && m != []
    ensures |m| >= 16 && (|m| - 16) % 16 == 0
    ensures Accumulated(r, m) == Absorb(Accumulated(r, m[..|m| - 16]), BlockValue(m[|m| - 16..]), r) % P
  {
    hide BlockValue, Absorb;
  }

  /** Section 2.5 of RFC 8439: the polynomial modulo 2^130 - 5, plus s, modulo 2^128. */
  lemma {:induction false} TagIsPolynomial(r: nat, s: nat, m: Vec)
    ensures Tag(r, s, m) == (Polynomial(r, BlocksOf(m)) % P + s) % W2
  {
    hide BlockValue, Absorb, Polynomial, BlocksOf, Accumulated;
    AccumulatedIsPolynomial(r, Whole(m));
    assert m == Whole(m) + Rest(m);
    if Rest(m) != [] {
      var a, b := Polynomial(r, BlocksOf(Whole(m))), BlockValue(Rest(m));
      AbsorbReduced(a, b, r);
      BlocksAppend(Whole(m), Rest(m));
      PolynomialLast(r, BlocksOf(Whole(m)), b);
    } else {
      assert m == Whole(m);
    }
  }

  // ------------------------------------------- the definition byte by byte

  /** The modulus is 2^130 - 5. */
  lemma {:induction false} ModulusIs()
    ensures P == Pow2(130) - 5
  {
    hide Pow2;
    Power64();
    PowerSum(64, 64);
    PowerSum(128, 2);
  }

  const MASK_WORD: Vec := [0xFC, 0xFF, 0xFF, 0x0F]

  /** The masks as bytes. */
  function ClampBytes(): (m: Vec)
    ensures |m| == 16
  {
    [0xFF, 0xFF, 0xFF, 0x0F] + MASK_WORD + MASK_WORD + MASK_WORD
  }

  lemma {:induction false} ClampBytesAreMasks()
    ensures LittleEndian(ClampBytes()) == RMASK0 + W * RMASK1
  {
    hide LittleEndian, Power256;
    Power256Eight();
    FourBytes(0xFF, 0xFF, 0xFF, 0x0F);
    FourBytes(0xFC, 0xFF, 0xFF, 0x0F);
    LittleEndianJoin([0xFF, 0xFF, 0xFF, 0x0F], MASK_WORD);
    LittleEndianJoin(MASK_WORD, MASK_WORD);
    var low, high := [0xFF as byte, 0xFF, 0xFF, 0x0F] + MASK_WORD, MASK_WORD + MASK_WORD;
    LittleEndianJoin(low, high);
    assert ClampBytes() == low + high;
  }

  lemma {:induction false} MaskedByte(x: byte)
    ensures And(x, 0xFF) == x && And(x, 0x0F) == x % 16 && And(x, 0xFC) == x - x % 4
  {
    hide And;
    assert Pow2(8) == 256 && Pow2(4) == 16 && Pow2(6) == 64;
    AndOnes(x, 8);
    AndOnes(x, 4);
    AndOnes(x / 4, 6);
    AndAboveTwo(x % 4, x / 4, 63);
  }

  /**
    Section 2.5 of RFC 8439: r is the first half of the key without the top four
    bits of bytes 3, 7, 11 and 15 and the bottom two bits of bytes 4, 8 and 12.
  */
  lemma {:induction false} ClampedBytes(key: Vec, i: nat)
    requires |key| == 32 && i < 16
    ensures KeyR(key) < W2
    ensures LowBytes(KeyR(key), 16)[i] ==
      if i in {3, 7, 11, 15} then key[i] % 16
      else if i in {4, 8, 12} then key[i] - key[i] % 4
      else key[i]
  {
    hide And, LittleEndian, LowBytes;
    Power256Eight();
    ClampBytesAreMasks();
    AndOfBytes(key[..16], ClampBytes(), i);
    MaskedByte(key[i]);
  }

  /** s is the second half of the key, and a block's value its bytes and a 1. */
  lemma {:induction false} BytesOfValues(key: Vec, block: Vec)
    requires |key| == 32
    ensures LowBytes(KeyS(key), 16) == key[16..]
    ensures LowBytes(BlockValue(block), |block| + 1) == block + [1] && BlockValue(block) < Power256(|block| + 1)
  {
    hide LowBytes;
    LowBytesOfNumber(key[16..]);
    LittleEndianJoin(block, [1]);
    assert [1 as byte][1..] == [];
    LowBytesOfNumber(block + [1]);
  }

  /** The blocks of a message are its stretches of sixteen bytes, the last one as long as the rest. */
  lemma {:induction false} BlocksAt(m: Vec, i: nat)
    requires 16 * i < |m|
    ensures |BlocksOf(m)| == (|m| + 15) / 16
    ensures i < |BlocksOf(m)|
    ensures BlocksOf(m)[i] == BlockValue(m[16 * i..if 16 * i + 16 <= |m| then 16 * i + 16 else |m|])
  {
    hide BlockValue;
    if |m| > 16 {
      if i == 0 {
        BlocksAt(m[16..], 0);
      } else {
        BlocksAt(m[16..], i - 1);
        var hi := if 16 * i + 16 <= |m| then 16 * i + 16 else |m|;
        assert m[16 * i..hi] == m[16..][16 * (i - 1)..hi - 16];
      }
    } else {
      assert m[0..|m|] == m;
    }
  }

  /** The tag of a message of two blocks, written out. */
  lemma {:induction false} TagOfTwoBlocks(r: nat, s: nat, m: Vec)
    requires 16 < |m| <= 32
    ensures Tag(r, s, m) ==
      ((BlockValue(m[..16]) * r * r + BlockValue(m[16..]) * r) % (Pow2(130) - 5) + s) % Pow2(128)
  {
    hide BlockValue, Pow2, Tag;
    ModulusIs();
    Power64();
    PowerSum(64, 64);
    TagIsPolynomial(r, s, m);
    var a, b := BlockValue(m[..16]), BlockValue(m[16..]);
    assert BlocksOf(m) == [a, b];
    PolynomialOfTwo(r, a, b);
  }

  lemma {:induction false} PolynomialOfTwo(r: nat, a: nat, b: nat)
    ensures Polynomial(r, [a, b]) == a * r * r + b * r
  {
    assert [a, b][1..] == [b] && [b][1..] == [];
    PowerOne(r);
    assert Power(r, 2) == r * r;
    assert Polynomial(r, []) == 0;
    assert Polynomial(r, [b]) == b * r;
    assert a * (r * r) == a * r * r;
  }

  /** `poly1305Sum` */
  method Sum(msg: Vec, key: Vec) returns (tag: Vec)
    requires |key| == 32
    ensures tag == LowBytes(Tag(KeyR(key), KeyS(key), msg), 16)
  {
    var mac := new Mac(key);
    mac.Update(msg);
    assert [] + msg == msg;
    tag := mac.Finish();
  }
}
