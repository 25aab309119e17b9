/**
  The block function of the stream cipher, bit by bit and word by word: what its
  quarter round computes, and where each word and byte of a block comes from.
*/
module ChaChaBlocks {
  import opened Gf256
  import opened Gf256Powers
  import opened Matrices
  import opened Words
  import opened ChaCha20

  // ----------------------------------------------------------------- rotations

  /** Bit i of a word moves to bit i + k, and around from the top to the bottom. */
  lemma {:induction false} RotateMovesBits(x: word32, k: nat, i: nat)
    requires k <= 32 && i < 32
    ensures Pow2(k) * Pow2(32 - k) == U32
    ensures Rotate(x, Pow2(k), Pow2(32 - k)) / Pow2((i + k) % 32) % 2 == x / Pow2(i) % 2
  {
    hide Pow2;
    PowersFit(k);
    Quotient(x, Pow2(32 - k), Pow2(k));
    if i + k < 32 {
      LowerBitMoves(x, k, i);
    } else {
      assert (i + k) % 32 == i + k - 32;
      UpperBitMoves(x, k, i + k - 32);
    }
  }

  /** A bit of the lower part moves up by k. */
  lemma {:induction false} LowerBitMoves(x: nat, k: nat, i: nat)
    requires i + k < 32 && x / Pow2(32 - k) < Pow2(k)
    ensures (x % Pow2(32 - k) * Pow2(k) + x / Pow2(32 - k)) / Pow2(i + k) % 2 == x / Pow2(i) % 2
  {
    hide Pow2;
    PowerSum(k, i);
    ShiftedQuotient(x % Pow2(32 - k), x / Pow2(32 - k), Pow2(k), Pow2(i));
    BitOfRemainder(x, i, 32 - k);
  }

  lemma {:induction false} ShiftedQuotient(low: nat, high: nat, p: nat, d: nat)
    requires high < p && d > 0
    ensures p * d > 0 && (low * p + high) / (p * d) == low / d
  {
    DivideTwice(low * p + high, p, d);
    assert low * p == p * low;
    RemainderIs(low * p + high, p, low, high);
  }

  /** A bit of the upper part moves to the bottom. */
  lemma {:induction false} UpperBitMoves(x: nat, k: nat, j: nat)
    requires j < k <= 32 && x / Pow2(32 - k) < Pow2(k)
    ensures (x % Pow2(32 - k) * Pow2(k) + x / Pow2(32 - k)) / Pow2(j) % 2 == x / Pow2(32 - k + j) % 2
  {
    hide Pow2;
    PowerSum(32 - k, j);
    DivideTwice(x, Pow2(32 - k), Pow2(j));
    LowBitStays(x / Pow2(32 - k), x % Pow2(32 - k), j, k);
  }

  lemma {:induction false} PowersFit(k: nat)
    requires k <= 32
    ensures Pow2(k) * Pow2(32 - k) == U32
  {
    hide Pow2;
    PowerSum(k, 32 - k);
    PowerSum(16, 16);
    Power14();
  }

  lemma {:induction false} DigitQuotient(x: nat, d: nat, q: nat)
    requires d > 0 && q > 0
    ensures d * q > 0 && x % (d * q) / d == x / d % q
  {
    RemainderSplit(x, d, q);
    var r, y := x % (d * q), x / d;
    assert r == d * (y % q) + x % d;
    RemainderIs(r, d, y % q, x % d);
  }

  lemma {:induction false} LowestDigit(y: nat, p: nat)
    requires p > 0
    ensures y % (2 * p) % 2 == y % 2
  {
    Halved(y, p);
  }

  /** Bit i of a number is bit i of its lowest m bits. */
  lemma {:induction false} BitOfRemainder(x: nat, i: nat, m: nat)
    requires i < m
    ensures x % Pow2(m) / Pow2(i) % 2 == x / Pow2(i) % 2
  {
    hide Pow2;
    PowerSum(i, m - i);
    Twice(m - i, 1);
    DigitQuotient(x, Pow2(i), Pow2(m - i));
    LowestDigit(x / Pow2(i), Pow2(m - i - 1));
  }

  /** A part above bit k does not change bit j below it. */
  lemma {:induction false} LowBitStays(high: nat, low: nat, j: nat, k: nat)
    requires j < k && high < Pow2(k)
    ensures (low * Pow2(k) + high) / Pow2(j) % 2 == high / Pow2(j) % 2
  {
    hide Pow2;
    BitOfRemainder(low * Pow2(k) + high, j, k);
    assert low * Pow2(k) == Pow2(k) * low;
    RemainderIs(low * Pow2(k) + high, Pow2(k), low, high);
  }

  // ------------------------------------------------------ one quarter round by hand

  /** Four binary digits more. */
  lemma {:induction false} FourDigits(a: nat, b: nat, x0: bool, x1: bool, x2: bool, x3: bool,
                                      y0: bool, y1: bool, y2: bool, y3: bool)
    ensures Xor(16 * a + (if x3 then 8 else 0) + (if x2 then 4 else 0) + (if x1 then 2 else 0) + (if x0 then 1 else 0),
                16 * b + (if y3 then 8 else 0) + (if y2 then 4 else 0) + (if y1 then 2 else 0) + (if y0 then 1 else 0))
         == 16 * Xor(a, b) + (if x3 != y3 then 8 else 0)
           + (if x2 != y2 then 4 else 0) + (if x1 != y1 then 2 else 0) + (if x0 != y0 then 1 else 0)
  {
    hide Xor;
    XorDigit(a, b, x3, y3);
    XorDigit(Bit(x3) + 2 * a, Bit(y3) + 2 * b, x2, y2);
    XorDigit(Bit(x2) + 2 * (Bit(x3) + 2 * a), Bit(y2) + 2 * (Bit(y3) + 2 * b), x1, y1);
    XorDigit(Bit(x1) + 2 * (Bit(x2) + 2 * (Bit(x3) + 2 * a)), Bit(y1) + 2 * (Bit(y2) + 2 * (Bit(y3) + 2 * b)), x0, y0);
  }

  lemma {:induction false} FirstMix()
    ensures Xor(0x01234567, 0x12131415) == 0x13305172
  {
    hide Xor;
    XorZero(0);
    FourDigits(0x0, 0x0, F, F, F, F, T, F, F, F);
    FourDigits(0x0, 0x1, T, F, F, F, F, T, F, F);
    FourDigits(0x1, 0x12, F, T, F, F, T, F, F, F);
    FourDigits(0x12, 0x121, T, T, F, F, T, T, F, F);
    FourDigits(0x123, 0x1213, F, F, T, F, T, F, F, F);
    FourDigits(0x1234, 0x12131, T, F, T, F, F, F, T, F);
    FourDigits(0x12345, 0x121314, F, T, T, F, T, F, F, F);
    FourDigits(0x123456, 0x1213141, T, T, T, F, T, F, T, F);
  }

  lemma {:induction false} SecondMix()
    ensures Xor(0x01020304, 0xecff8273) == 0xedfd8177
  {
    hide Xor;
    XorZero(0);
    FourDigits(0x0, 0x0, F, F, F, F, F, T, T, T);
    FourDigits(0x0, 0xe, T, F, F, F, F, F, T, T);
    FourDigits(0x1, 0xec, F, F, F, F, T, T, T, T);
    FourDigits(0x10, 0xecf, F, T, F, F, T, T, T, T);
    FourDigits(0x102, 0xecff, F, F, F, F, F, F, F, T);
    FourDigits(0x1020, 0xecff8, T, T, F, F, F, T, F, F);
    FourDigits(0x10203, 0xecff82, F, F, F, F, T, T, T, F);
    FourDigits(0x102030, 0xecff827, F, F, T, F, T, T, F, F);
  }

  lemma {:induction false} ThirdMix()
    ensures Xor(0x51721330, 0xea2a92f4) == 0xbb5881c4
  {
    hide Xor;
    XorZero(0);
    FourDigits(0x0, 0x0, T, F, T, F, F, T, T, T);
    FourDigits(0x5, 0xe, T, F, F, F, F, T, F, T);
    FourDigits(0x51, 0xea, T, T, T, F, F, T, F, F);
    FourDigits(0x517, 0xea2, F, T, F, F, F, T, F, T);
    FourDigits(0x5172, 0xea2a, T, F, F, F, T, F, F, T);
    FourDigits(0x51721, 0xea2a9, T, T, F, F, F, T, F, F);
    FourDigits(0x517213, 0xea2a92, T, T, F, F, T, T, T, T);
    FourDigits(0x5172133, 0xea2a92f, F, F, F, F, F, F, T, F);
  }

  lemma {:induction false} FourthMix()
    ensures Xor(0xd8177edf, 0x4581472e) == 0x9d9639f1
  {
    hide Xor;
    XorZero(0);
    FourDigits(0x0, 0x0, T, F, T, T, F, F, T, F);
    FourDigits(0xd, 0x4, F, F, F, T, T, F, T, F);
    FourDigits(0xd8, 0x45, T, F, F, F, F, F, F, T);
    FourDigits(0xd81, 0x458, T, T, T, F, T, F, F, F);
    FourDigits(0xd817, 0x4581, T, T, T, F, F, F, T, F);
    FourDigits(0xd8177, 0x45814, F, T, T, T, T, T, T, F);
    FourDigits(0xd8177e, 0x458147, T, F, T, T, F, T, F, F);
    FourDigits(0xd8177ed, 0x4581472, T, T, T, T, F, T, T, T);
  }

  lemma {:induction false} FirstHalfKnown()
    ensures Plus(0x11111111, 0x01020304) == 0x12131415
    ensures Rotate(Mix(0x01234567, 0x12131415), 0x1_0000, 0x1_0000) == 0x51721330
    ensures Plus(0x9b8d6f43, 0x51721330) == 0xecff8273
    ensures Rotate(Mix(0x01020304, 0xecff8273), 0x1000, 0x10_0000) == 0xd8177edf
  {
    hide Xor;
    FirstMix();
    SecondMix();
  }

  lemma {:induction false} SecondHalfKnown()
    ensures Plus(0x12131415, 0xd8177edf) == 0xea2a92f4
    ensures Rotate(Mix(0x51721330, 0xea2a92f4), 0x100, 0x100_0000) == 0x5881c4bb
    ensures Plus(0xecff8273, 0x5881c4bb) == 0x4581472e
    ensures Rotate(Mix(0xd8177edf, 0x4581472e), 0x80, 0x200_0000) == 0xcb1cf8ce
  {
    hide Xor;
    ThirdMix();
    FourthMix();
  }

  /** The quarter round of section 2.1.1 of RFC 8439. */
  lemma {:induction false} QuarterRoundKnown()
    ensures QuarterRound(0x11111111, 0x01020304, 0x9b8d6f43, 0x01234567)
         == (0xea2a92f4, 0xcb1cf8ce, 0x4581472e, 0x5881c4bb)
  {
    hide Plus, Mix, Rotate;
    FirstHalfKnown();
    SecondHalfKnown();
  }

  // --------------------------------------------------------- the words of a block

  lemma {:induction false} QuarterAtIs(s: State, a: nat, b: nat, c: nat, d: nat)
    requires a < b < 16 && c < 16 && d < 16 && a != c && a != d && b != c && b != d && c != d
    ensures var t := QuarterAt(s, a, b, c, d);
      && (t[a], t[b], t[c], t[d]) == QuarterRound(s[a], s[b], s[c], s[d])
      && forall i :: 0 <= i < 16 && i != a && i != b && i != c && i != d ==> t[i] == s[i]
  {
    hide QuarterRound;
  }

  /** Column i of t is the quarter round of that column of s. */
  predicate ColumnMixed(s: State, t: State, i: nat)
    requires i < 4
  {
    (t[i], t[4 + i], t[8 + i], t[12 + i]) == QuarterRound(s[i], s[4 + i], s[8 + i], s[12 + i])
  }

  /** The same for the diagonal from column i, which goes one column on, around the edge, with every row. */
  predicate DiagonalMixed(s: State, t: State, i: nat)
    requires i < 4
  {
    var j, k, l := (i + 1) % 4, (i + 2) % 4, (i + 3) % 4;
    (t[i], t[4 + j], t[8 + k], t[12 + l]) == QuarterRound(s[i], s[4 + j], s[8 + k], s[12 + l])
  }

  lemma {:induction false} FourColumns(s: State, i: nat)
    requires i < 4
    ensures ColumnMixed(s, Columns(s), i)
  {
    hide QuarterRound, QuarterAt;
    var s1 := QuarterAt(s, 0, 4, 8, 12);
    var s2 := QuarterAt(s1, 1, 5, 9, 13);
    var s3 := QuarterAt(s2, 2, 6, 10, 14);
    QuarterAtIs(s, 0, 4, 8, 12);
    QuarterAtIs(s1, 1, 5, 9, 13);
    QuarterAtIs(s2, 2, 6, 10, 14);
    QuarterAtIs(s3, 3, 7, 11, 15);
  }

  lemma {:induction false} FourDiagonals(c: State, i: nat)
    requires i < 4
    ensures DiagonalMixed(c, Diagonals(c), i)
  {
    hide QuarterRound, QuarterAt;
    var s1 := QuarterAt(c, 0, 5, 10, 15);
    var s2 := QuarterAt(s1, 1, 6, 11, 12);
    var s3 := QuarterAt(s2, 2, 7, 8, 13);
    QuarterAtIs(c, 0, 5, 10, 15);
    QuarterAtIs(s1, 1, 6, 11, 12);
    QuarterAtIs(s2, 2, 7, 8, 13);
    QuarterAtIs(s3, 3, 4, 9, 14);
  }

  /** A double round is a quarter round of each column and then of each diagonal. */
  lemma {:induction false} ColumnsThenDiagonals(s: State) returns (c: State)
    ensures forall i :: 0 <= i < 4 ==> ColumnMixed(s, c, i)
    ensures forall i :: 0 <= i < 4 ==> DiagonalMixed(c, DoubleRound(s), i)
  {
    hide QuarterAt, ColumnMixed, DiagonalMixed;
    c := Columns(s);
    assert DoubleRound(s) == Diagonals(c);
    forall i | 0 <= i < 4 ensures ColumnMixed(s, c, i) && DiagonalMixed(c, DoubleRound(s), i) {
      FourColumns(s, i);
      FourDiagonals(c, i);
    }
  }

  /** Byte j of word i of a block is byte j of the sum of the mixed word and the original one. */
  lemma {:induction false} BlockBytes(s: State, i: nat, j: nat)
    requires i < 16 && j < 4
    ensures BlockOf(s)[4 * i + j]
         == (DoubleRound(DoubleRound(DoubleRound(DoubleRound(DoubleRound(
             DoubleRound(DoubleRound(DoubleRound(DoubleRound(DoubleRound(s))))))))))[i] + s[i]) % 0x1_0000_0000
            / Power256(j) % 256
  {
    hide DoubleRound, Serialised;
    TenRounds(s);
    SerialisedAt(PlusAll(Rounds(s, 10), s), i, j);
  }

  lemma {:induction false} TenRounds(s: State)
    ensures Rounds(s, 10) == DoubleRound(DoubleRound(DoubleRound(DoubleRound(DoubleRound(
      DoubleRound(DoubleRound(DoubleRound(DoubleRound(DoubleRound(s))))))))))
  {
    hide DoubleRound;
    NextRound(s, 0);
    NextRound(s, 1);
    NextRound(s, 2);
    NextRound(s, 3);
    NextRound(s, 4);
    NextRound(s, 5);
    NextRound(s, 6);
    NextRound(s, 7);
    NextRound(s, 8);
    NextRound(s, 9);
  }

  lemma {:induction false} SerialisedAt(words: seq<word32>, i: nat, j: nat)
    requires i < |words| && j < 4
    ensures Serialised(words)[4 * i + j] == words[i] / Power256(j) % 256
  {
    hide LowBytes;
    if i == |words| - 1 {
      LowBytesAt(words[i], 4, j);
    } else {
      SerialisedAt(words[..|words| - 1], i, j);
    }
  }

  // ------------------------------------------------------------- the initial state

  const EXPAND := "expand 32-byte k"

  /** The sixteen characters above as bytes. */
  function Expand(): (v: Vec)
    ensures |v| == 16
  {
    assert |EXPAND| == 16;
    assert forall i :: 0 <= i < 16 ==> EXPAND[i] as int < 256;
    seq(16, i requires 0 <= i < 16 => EXPAND[i] as int)
  }

  lemma {:induction false} WordsJoin(a: Vec, b: Vec)
    requires |a| % 4 == 0 && |b| % 4 == 0
    ensures Words32(a + b) == Words32(a) + Words32(b)
  {
    hide LittleEndian;
    if a == [] {
      assert a + b == b;
    } else {
      WordsJoin(a[4..], b);
      assert (a + b)[..4] == a[..4] && (a + b)[4..] == a[4..] + b;
    }
  }

  lemma {:induction false} WordOf(v: Vec)
    requires |v| == 4
    ensures LittleEndian(v) == v[0] + 256 * v[1] + 0x1_0000 * v[2] + 0x100_0000 * v[3] < U32
    ensures Words32(v) == [LittleEndian(v)]
  {
    FourBytes(v[0], v[1], v[2], v[3]);
    assert v == [v[0], v[1], v[2], v[3]] && v[..4] == v && v[4..] == [];
  }

  lemma {:induction false} ExpandWords()
    ensures Words32(Expand()) == [0x61707865, 0x3320646e, 0x79622d32, 0x6b206574]
  {
    hide LittleEndian, Words32;
    var v := Expand();
    WordOf(v[..4]);
    WordOf(v[4..8]);
    WordOf(v[8..12]);
    WordOf(v[12..]);
    WordsJoin(v[..4], v[4..8]);
    WordsJoin(v[8..12], v[12..]);
    WordsJoin(v[..4] + v[4..8], v[8..12] + v[12..]);
    assert v == (v[..4] + v[4..8]) + (v[8..12] + v[12..]);
  }

  lemma {:induction false} CounterWords(c: nat)
    ensures Words32(LowBytes(c, 8)) == [c % U32, c / U32 % U32]
  {
    hide LittleEndian, LowBytes, Words32;
    Power256Eight();
    var low, high := c % U32, c / U32;
    LowBytesSplit(low, high, 4, 4);
    NumberOfLowBytes(low, 4);
    NumberOfLowBytes(high, 4);
    WordOf(LowBytes(low, 4));
    WordOf(LowBytes(high, 4));
    WordsJoin(LowBytes(low, 4), LowBytes(high, 4));
  }

  /** Words read from bytes give the bytes. */
  lemma {:induction false} SerialisedWords(v: Vec)
    requires |v| % 4 == 0
    ensures Serialised(Words32(v)) == v
  {
    hide LowBytes;
    if v != [] {
      var n := |v| - 4;
      WordsJoin(v[..n], v[n..]);
      WordOf(v[n..]);
      assert v == v[..n] + v[n..];
      SerialisedWords(v[..n]);
      LowBytesOfNumber(v[n..]);
    }
  }

  /** The first state as bytes: the sixteen characters, the key, the counter and the nonce. */
  lemma {:induction false} InitialBytes(key: Vec, nonce: Vec, counter: nat)
    requires |key| == 32 && |nonce| == 8
    ensures Serialised(InitialState(key, nonce, counter)) == Expand() + key + LowBytes(counter, 8) + nonce
  {
    ExpandWords();
    CounterWords(counter);
    var c := LowBytes(counter, 8);
    WordsJoin(Expand(), key);
    WordsJoin(Expand() + key, c);
    WordsJoin(Expand() + key + c, nonce);
    SerialisedWords(Expand() + key + c + nonce);
    assert InitialState(key, nonce, counter) == Words32(Expand() + key + c + nonce);
  }
}
