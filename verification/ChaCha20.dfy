/** The stream cipher of pkg/crypto/chacha20.go: 64-bit counter, 64-bit nonce. */
module ChaCha20 {
  import opened Gf256
  import opened Matrices
  import opened Words

  const U32: nat := 0x1_0000_0000
  const U64: nat := 0x1_0000_0000_0000_0000

  type word32 = x: int | 0 <= x < 0x1_0000_0000

  // ------------------------------------------------------------------ 32-bit words

  function Plus(a: word32, b: word32): word32 { (a + b) % U32 }

  lemma {:induction false} WordXor(a: word32, b: word32)
    ensures Xor(a, b) < U32
  {
    Power64();
    PowerSum(16, 16);
    Power14();
    XorBound(a, b, 32);
  }

  function Mix(a: word32, b: word32): word32
  {
    WordXor(a, b);
    Xor(a, b)
  }

  /** `bits.RotateLeft32` by k, where p is two to the k: the top k bits move to the bottom. */
  function Rotate(x: word32, p: nat, q: nat): word32
    requires p > 0 && q > 0 && p * q == U32
  {
    Quotient(x, q, p);
    RotateFits(x % q, p, x / q, q);
    x % q * p + x / q
  }

  lemma {:induction false} RotateFits(low: nat, p: nat, high: nat, q: nat)
    requires low < q && high < p && p * q == U32
    ensures low * p + high < U32
  {
    ProductBound(low + 1, p, q, p);
    assert (low + 1) * p == low * p + p && q * p == p * q;
  }

  type State = s: seq<word32> | |s| == 16 witness seq(16, _ => 0)

  /** `quarterRound` */
  function QuarterRound(a: word32, b: word32, c: word32, d: word32): (word32, word32, word32, word32)
  {
    var a1 := Plus(a, b);
    var d1 := Rotate(Mix(d, a1), 0x1_0000, 0x1_0000);
    var c1 := Plus(c, d1);
    var b1 := Rotate(Mix(b, c1), 0x1000, 0x10_0000);
    var a2 := Plus(a1, b1);
    var d2 := Rotate(Mix(d1, a2), 0x100, 0x100_0000);
    var c2 := Plus(c1, d2);
    var b2 := Rotate(Mix(b1, c2), 0x80, 0x200_0000);
    (a2, b2, c2, d2)
  }

  /** A quarter round on four words of the state. */
  function QuarterAt(s: State, a: nat, b: nat, c: nat, d: nat): State
    requires a < 16 && b < 16 && c < 16 && d < 16
  {
    var (x, y, z, w) := QuarterRound(s[a], s[b], s[c], s[d]);
    s[a := x][b := y][c := z][d := w]
  }

  /** Four columns, then four diagonals. */
  function DoubleRound(s: State): State
  {
    Diagonals(Columns(s))
  }

  function Columns(s: State): State
  {
    QuarterAt(QuarterAt(QuarterAt(QuarterAt(s, 0, 4, 8, 12), 1, 5, 9, 13), 2, 6, 10, 14), 3, 7, 11, 15)
  }

  function Diagonals(s: State): State
  {
    QuarterAt(QuarterAt(QuarterAt(QuarterAt(s, 0, 5, 10, 15), 1, 6, 11, 12), 2, 7, 8, 13), 3, 4, 9, 14)
  }

  function Rounds(s: State, n: nat): State
  {
    if n == 0 then s else DoubleRound(Rounds(s, n - 1))
  }

  function PlusAll(a: seq<word32>, b: seq<word32>): (c: seq<word32>)
    requires |a| == |b|
    ensures |c| == |a|
  {
    seq(|a|, i requires 0 <= i < |a| => Plus(a[i], b[i]))
  }

  /** The words, four bytes each. */
  function Serialised(words: seq<word32>): (v: Vec)
    ensures |v| == 4 * |words|
  {
    if words == [] then [] else Serialised(words[..|words| - 1]) + LowBytes(words[|words| - 1], 4)
  }

  /** The block of key stream of a state. */
  function BlockOf(s: State): (v: Vec)
    ensures |v| == 64
  {
    Serialised(PlusAll(Rounds(s, 10), s))
  }

  // ------------------------------------------------------------------- the counter

  /** The counter is in words 12 and 13. */
  function Counter(s: State): nat { s[12] + U32 * s[13] }

  function WithCounter(s: State, c: nat): State
  {
    s[12 := c % U32][13 := c / U32 % U32]
  }

  /** Counting up the low word, and the high word when the low one wraps, counts modulo 2^64. */
  function Incremented(s: State): State
  {
    var low := Plus(s[12], 1);
    if low == 0 then s[12 := low][13 := Plus(s[13], 1)] else s[12 := low]
  }

  lemma {:induction false} CounterCarries(s: State)
    ensures Counter(Incremented(s)) == (Counter(s) + 1) % U64
    ensures Incremented(s) == WithCounter(s, (Counter(s) + 1) % U64)
  {
    var low, high := s[12], s[13];
    NextWords(low, high);
    assert s == s[13 := high];
  }

  lemma {:induction false} NextWords(low: word32, high: word32)
    ensures var c := (low + U32 * high + 1) % U64;
      && c % U32 == (if low < U32 - 1 then low + 1 else 0)
      && c / U32 % U32 == (if low < U32 - 1 then high else if high < U32 - 1 then high + 1 else 0)
  {
    var c := low + U32 * high + 1;
    if low < U32 - 1 {
      assert c < U64;
      RemainderIs(c, U32, high, low + 1);
    } else if high < U32 - 1 {
      assert c < U64;
      RemainderIs(c, U32, high + 1, 0);
    } else {
      assert c == U64;
    }
  }

  lemma {:induction false} CounterReplaced(s: State, c: nat, d: nat)
    ensures WithCounter(WithCounter(s, c), d) == WithCounter(s, d)
    ensures c < U64 ==> Counter(WithCounter(s, c)) == c
    ensures WithCounter(s, Counter(s)) == s
  {}

  // ------------------------------------------------------------------ the key stream

  /** Byte i of the key stream that starts with counter c. */
  function StreamByte(s: State, c: nat, i: nat): byte
  {
    BlockOf(WithCounter(s, (c + i / 64) % U64))[i % 64]
  }

  function Stream(s: State, c: nat, n: nat): (v: Vec)
    ensures |v| == n
  {
    seq(n, i requires 0 <= i < n => StreamByte(s, c, i))
  }

  /** The text combined with the key stream. */
  function Ciphered(s: State, c: nat, text: Vec): (v: Vec)
    ensures |v| == |text|
  {
    seq(|text|, i requires 0 <= i < |text| => Add(text[i], StreamByte(s, c, i)))
  }

  /** The cipher undoes itself. */
  lemma {:induction false} CipheredTwice(s: State, c: nat, text: Vec)
    ensures Ciphered(s, c, Ciphered(s, c, text)) == text
  {
    hide StreamByte, Xor;
    forall i | 0 <= i < |text| ensures Ciphered(s, c, Ciphered(s, c, text))[i] == text[i] {
      var k := StreamByte(s, c, i);
      XorComm(text[i], k);
      XorCancel(k, text[i]);
      XorComm(Xor(text[i], k), k);
    }
  }

  /** The state `newChaCha20` sets up. */
  function InitialState(key: Vec, nonce: Vec, counter: nat): State
    requires |key| == 32 && |nonce| == 8
  {
    var k := Words32(key);
    var n := Words32(nonce);
    [0x61707865, 0x3320646e, 0x79622d32, 0x6b206574] + k + [counter % U32, counter / U32 % U32] + n
  }

  function Words32(v: Vec): (w: seq<word32>)
    requires |v| % 4 == 0
    ensures |w| == |v| / 4
  {
    if v == [] then []
    else
      Power256Eight();
      [LittleEndian(v[..4])] + Words32(v[4..])
  }

  lemma {:induction false} InitialCounter(key: Vec, nonce: Vec, c: nat, d: nat)
    requires |key| == 32 && |nonce| == 8
    ensures InitialState(key, nonce, d) == WithCounter(InitialState(key, nonce, c), d)
    ensures c < U64 ==> Counter(InitialState(key, nonce, c)) == c
  {
    hide Words32;
  }

  class Cipher {
    const state: array<word32>

    ghost predicate Valid() { state.Length == 16 }

    /** `newChaCha20` */
    constructor (key: Vec, nonce: Vec, counter: nat)
      requires |key| == 32 && |nonce| == 8
      ensures Valid() && fresh(state) && state[..] == InitialState(key, nonce, counter)
    {
      hide Words32;
      var init := InitialState(key, nonce, counter);
      state := new word32[16](i requires 0 <= i < 16 => init[i]);
    }

    static method QuarterStep(x: array<word32>, a: nat, b: nat, c: nat, d: nat)
      requires x.Length == 16 && a < 16 && b < 16 && c < 16 && d < 16
      requires a != b && a != c && a != d && b != c && b != d && c != d
      modifies x
      ensures x[..] == QuarterAt(old(x[..]), a, b, c, d)
    {
      hide QuarterRound;
      var (p, q, r, s) := QuarterRound(x[a], x[b], x[c], x[d]);
      x[a], x[b], x[c], x[d] := p, q, r, s;
    }

    static method Columns(x: array<word32>)
      requires x.Length == 16
      modifies x
      ensures x[..] == DoubleRound(old(x[..]))
    {
      hide QuarterAt;
      QuarterStep(x, 0, 4, 8, 12);
      QuarterStep(x, 1, 5, 9, 13);
      QuarterStep(x, 2, 6, 10, 14);
      QuarterStep(x, 3, 7, 11, 15);
      QuarterStep(x, 0, 5, 10, 15);
      QuarterStep(x, 1, 6, 11, 12);
      QuarterStep(x, 2, 7, 8, 13);
      QuarterStep(x, 3, 4, 9, 14);
    }

    /** The original state is added to the mixed one. */
    method AddState(x: array<word32>)
      requires Valid() && x.Length == 16 && x != state
      modifies x
      ensures x[..] == PlusAll(old(x[..]), state[..])
    {
      for i := 0 to 16
        invariant forall j :: 0 <= j < i ==> x[j] == Plus(old(x[j]), state[j])
        invariant forall j :: i <= j < 16 ==> x[j] == old(x[j])
      {
        x[i] := Plus(x[i], state[i]);
      }
      assert x[..] == PlusAll(old(x[..]), state[..]);
    }

    static method Serialise(x: array<word32>) returns (out: array<byte>)
      requires x.Length == 16
      ensures fresh(out) && out[..] == Serialised(x[..])
    {
      hide LowBytes;
      ghost var words := x[..];
      out := new byte[64](_ => 0);
      for i := 0 to 16
        invariant out[..4 * i] == Serialised(words[..i])
      {
        var b := LowBytes(x[i], 4);
        assert words[..i + 1][..i] == words[..i] && words[..i + 1][i] == x[i];
        out[4 * i], out[4 * i + 1], out[4 * i + 2], out[4 * i + 3] := b[0], b[1], b[2], b[3];
        assert out[..4 * (i + 1)] == out[..4 * i] + b;
      }
      assert words[..16] == words && out[..64] == out[..];
    }

    /** `block`: the next block of key stream; the counter goes up by one. */
    method Block() returns (out: array<byte>)
      requires Valid()
      modifies state
      ensures fresh(out) && out[..] == BlockOf(old(state[..]))
      ensures state[..] == WithCounter(old(state[..]), (Counter(old(state[..])) + 1) % U64)
    {
      hide DoubleRound, WithCounter, Counter, PlusAll, Serialised;
      ghost var s: State := state[..];
      var x := new word32[16](i requires 0 <= i < 16 && state.Length == 16 reads state => state[i]);
      assert x[..] == s == Rounds(s, 0);
      for i := 0 to 10
        modifies x
        invariant x[..] == Rounds(s, i)
      {
        Columns(x);
        NextRound(s, i);
      }
      assert state[..] == s;
      AddState(x);
      assert x[..] == PlusAll(Rounds(s, 10), s);
      out := Serialise(x);
      BlockIs(s);
      ghost var bytes := out[..];
      state[12] := Plus(state[12], 1);
      if state[12] == 0 {
        state[13] := Plus(state[13], 1);
      }
      assert state[..] == Incremented(s);
      assert out[..] == bytes;
      CounterCarries(s);
    }

    /** One block of text, combined with the next block of key stream. */
    method XorBlock(dst: array<byte>, src: Vec, pos: nat, n: nat, ghost s: State, ghost c: nat, ghost b: nat)
      requires Valid() && pos == 64 * b && n <= 64 && pos + n <= |src| <= dst.Length
      requires state[..] == WithCounter(s, (c + b) % U64)
      modifies state, dst
      ensures state[..] == WithCounter(s, (c + (b + 1)) % U64)
      ensures dst[..pos] == old(dst[..pos]) && dst[pos + n..] == old(dst[pos + n..])
      ensures dst[pos..pos + n] == Ciphered(s, c, src)[pos..pos + n]
    {
      hide WithCounter, Counter, BlockOf, StreamByte, Xor;
      NextCounter(s, c, b);
      var block := Block();
      for i := 0 to n
        modifies dst
        invariant dst[..pos] == old(dst[..pos]) && dst[pos + n..] == old(dst[pos + n..])
        invariant dst[pos..pos + i] == Ciphered(s, c, src)[pos..pos + i]
      {
        StreamOfBlock(s, c, b, i);
        dst[pos + i] := Add(src[pos + i], block[i]);
      }
    }

    /** `xorKeyStream`, over the text in blocks of 64 bytes. */
    method XorKeyStream(dst: array<byte>, src: Vec)
      requires Valid() && |src| <= dst.Length
      modifies state, dst
      ensures dst[..|src|] == Ciphered(old(state[..]), Counter(old(state[..])), src)
      ensures dst[|src|..] == old(dst[|src|..])
      ensures state[..] == WithCounter(old(state[..]), (Counter(old(state[..])) + BlocksFor(|src|)) % U64)
    {
      hide WithCounter, Counter, StreamByte;
      ghost var s: State := state[..];
      ghost var c, b := Counter(s), 0;
      CounterReplaced(s, c, c);
      CounterSmall(s);
      var pos := 0;
      while pos < |src|
        invariant pos == (if 64 * b <= |src| then 64 * b else |src|) && 64 * b < |src| + 64
        invariant state[..] == WithCounter(s, (c + b) % U64)
        invariant dst[..pos] == Ciphered(s, c, src)[..pos] && dst[|src|..] == old(dst[|src|..])
      {
        var n := if |src| - pos > 64 then 64 else |src| - pos;
        XorBlock(dst, src, pos, n, s, c, b);
        assert dst[..pos + n] == dst[..pos] + dst[pos..pos + n];
        pos, b := pos + n, b + 1;
      }
    }

    /** `keyStream`: the first n bytes from here on. */
    method KeyStream(n: nat) returns (out: Vec)
      requires Valid()
      modifies state
      ensures out == Stream(old(state[..]), Counter(old(state[..])), n)
    {
      hide WithCounter, Counter, StreamByte, BlockOf;
      ghost var s: State := state[..];
      ghost var c, b := Counter(s), 0;
      CounterReplaced(s, c, c);
      CounterSmall(s);
      out := [];
      while |out| < n
        invariant |out| == (if 64 * b <= n then 64 * b else n) && 64 * b < n + 64
        invariant state[..] == WithCounter(s, (c + b) % U64)
        invariant out == Stream(s, c, |out|)
      {
        NextCounter(s, c, b);
        var block := Block();
        var copied := if n - |out| > 64 then 64 else n - |out|;
        forall i | 0 <= i < copied ensures block[i] == StreamByte(s, c, |out| + i) {
          StreamOfBlock(s, c, b, i);
        }
        assert out + block[..copied] == Stream(s, c, |out| + copied);
        out := out + block[..copied];
        b := b + 1;
      }
    }
  }

  lemma {:induction false} CounterSmall(s: State)
    ensures Counter(s) < U64
  {}

  /** How many blocks n bytes take. */
  function BlocksFor(n: nat): nat { (n + 63) / 64 }

  lemma {:induction false} StreamOfBlock(s: State, c: nat, b: nat, i: nat)
    requires i < 64
    ensures StreamByte(s, c, 64 * b + i) == BlockOf(WithCounter(s, (c + b) % U64))[i]
  {
    hide BlockOf, WithCounter;
    assert (64 * b + i) / 64 == b && (64 * b + i) % 64 == i;
  }

  lemma {:induction false} NextCounter(s: State, c: nat, b: nat)
    ensures var t := WithCounter(s, (c + b) % U64);
      WithCounter(t, (Counter(t) + 1) % U64) == WithCounter(s, (c + (b + 1)) % U64)
  {
    hide WithCounter, Counter;
    CounterReplaced(s, (c + b) % U64, (c + (b + 1)) % U64);
    assert ((c + b) % U64 + 1) % U64 == (c + b + 1) % U64;
  }

  lemma {:induction false} BlockIs(s: State)
    ensures BlockOf(s) == Serialised(PlusAll(Rounds(s, 10), s))
  {}

  lemma {:induction false} NextRound(s: State, i: nat)
    ensures Rounds(s, i + 1) == DoubleRound(Rounds(s, i))
  {}
}
