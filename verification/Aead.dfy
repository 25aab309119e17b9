/**
  The authenticated cipher of pkg/crypto/aead.go: ChaCha20 and Poly1305 put together
  as in the original construction, with an 8-byte nonce.
*/
module Aead {
  import opened Gf256
  import opened Matrices
  import opened Packets
  import opened Words
  import opened Poly1305
  import opened ChaCha20

  const TAG_BYTES := 16

  /** The one-time key: the first 32 bytes of the block with counter 0. */
  function MacKey(key: Vec, nonce: Vec): (k: Vec)
    requires |key| == 32 && |nonce| == 8
    ensures |k| == 32
  {
    Stream(InitialState(key, nonce, 0), 0, 32)
  }

  /** What is authenticated: both texts, each followed by its length in 8 bytes. */
  function MacData(ad: Vec, ciphertext: Vec): Vec
  {
    ad + LowBytes(|ad|, 8) + ciphertext + LowBytes(|ciphertext|, 8)
  }

  function TagOf(key: Vec, nonce: Vec, ciphertext: Vec, ad: Vec): (t: Vec)
    requires |key| == 32 && |nonce| == 8
    ensures |t| == TAG_BYTES
  {
    var k := MacKey(key, nonce);
    LowBytes(Tag(KeyR(k), KeyS(k), MacData(ad, ciphertext)), TAG_BYTES)
  }

  /** The text under the key stream from counter 1 on. */
  function Encrypted(key: Vec, nonce: Vec, text: Vec): (c: Vec)
    requires |key| == 32 && |nonce| == 8
    ensures |c| == |text|
  {
    Ciphered(InitialState(key, nonce, 1), 1, text)
  }

  function Sealed(key: Vec, nonce: Vec, plaintext: Vec, ad: Vec): (c: Vec)
    requires |key| == 32 && |nonce| == 8
    ensures |c| == |plaintext| + TAG_BYTES
  {
    var ciphertext := Encrypted(key, nonce, plaintext);
    ciphertext + TagOf(key, nonce, ciphertext, ad)
  }

  function Opened(key: Vec, nonce: Vec, sealed: Vec, ad: Vec): Option<Vec>
    requires |key| == 32 && |nonce| == 8
  {
    if |sealed| < TAG_BYTES then None
    else
      var n := |sealed| - TAG_BYTES;
      if sealed[n..] != TagOf(key, nonce, sealed[..n], ad) then None
      else Some(Encrypted(key, nonce, sealed[..n]))
  }

  /**
    For every key, nonce and associated data: what opens to a plaintext is its sealing,
    and nothing else. In particular opening a sealed text gives it back.
  */
  lemma {:induction false} OpensExactlyWhatWasSealed(key: Vec, nonce: Vec, sealed: Vec, ad: Vec, plaintext: Vec)
    requires |key| == 32 && |nonce| == 8
    ensures Opened(key, nonce, sealed, ad) == Some(plaintext) <==> sealed == Sealed(key, nonce, plaintext, ad)
  {
    hide TagOf, Ciphered, InitialState;
    if sealed == Sealed(key, nonce, plaintext, ad) {
      var n := |plaintext|;
      assert sealed[..n] == Encrypted(key, nonce, plaintext);
      CipheredTwice(InitialState(key, nonce, 1), 1, plaintext);
    }
    if Opened(key, nonce, sealed, ad) == Some(plaintext) {
      var n := |sealed| - TAG_BYTES;
      CipheredTwice(InitialState(key, nonce, 1), 1, sealed[..n]);
      assert sealed == sealed[..n] + sealed[n..];
    }
  }

  /** A sealed text starts with the text combined with blocks 1, 2, ... of the key stream. */
  lemma {:induction false} SealedTextAt(key: Vec, nonce: Vec, text: Vec, ad: Vec, i: nat)
    requires |key| == 32 && |nonce| == 8 && i < |text|
    ensures Sealed(key, nonce, text, ad)[i]
         == Xor(text[i], BlockOf(InitialState(key, nonce, (1 + i / 64) % 0x1_0000_0000_0000_0000))[i % 64])
  {
    hide InitialState, BlockOf, WithCounter, Xor, TagOf;
    InitialCounter(key, nonce, 1, (1 + i / 64) % U64);
  }

  /** It ends with the tag of the ciphertext c, under a key k from block 0. */
  lemma {:induction false} SealedTag(key: Vec, nonce: Vec, text: Vec, ad: Vec, k: Vec, c: Vec)
    requires |key| == 32 && |nonce| == 8 && |k| == 32 && |c| == |text|
    requires k == BlockOf(InitialState(key, nonce, 0))[..32] && c <= Sealed(key, nonce, text, ad)
    ensures Sealed(key, nonce, text, ad) == c + LowBytes(Tag(KeyR(k), KeyS(k), MacData(ad, c)), 16)
  {
    hide InitialState, BlockOf, WithCounter, Tag, KeyR, KeyS, LowBytes, MacData, Encrypted;
    InitialCounter(key, nonce, 0, 0);
    assert MacKey(key, nonce) == k;
    var sealed := Sealed(key, nonce, text, ad);
    assert sealed[..|c|] == c;
    assert sealed[..|c|] == Encrypted(key, nonce, text);
  }

  /** What is authenticated, byte by byte. */
  lemma {:induction false} MacDataAt(ad: Vec, c: Vec, i: nat)
    requires i < |ad| + 8 + |c| + 8
    ensures |MacData(ad, c)| == |ad| + 8 + |c| + 8
    ensures MacData(ad, c)[i] ==
      if i < |ad| then ad[i]
      else if i < |ad| + 8 then |ad| / Power256(i - |ad|) % 256
      else if i < |ad| + 8 + |c| then c[i - |ad| - 8]
      else |c| / Power256(i - |ad| - 8 - |c|) % 256
  {
    hide LowBytes;
    if |ad| <= i < |ad| + 8 {
      LowBytesAt(|ad|, 8, i - |ad|);
    } else if |ad| + 8 + |c| <= i {
      LowBytesAt(|c|, 8, i - |ad| - 8 - |c|);
    }
  }

  /** Different texts are never authenticated as the same bytes. */
  lemma {:induction false} MacDataTellsApart(ad: Vec, c: Vec, ad2: Vec, c2: Vec)
    requires |ad| < W && |c| < W && |ad2| < W && |c2| < W
    requires MacData(ad, c) == MacData(ad2, c2)
    ensures ad == ad2 && c == c2
  {
    hide LowBytes, LittleEndian;
    Power256Eight();
    NumberOfLowBytes(|c|, 8);
    NumberOfLowBytes(|c2|, 8);
    var m := MacData(ad, c);
    assert m[|m| - 8..] == LowBytes(|c|, 8) == LowBytes(|c2|, 8);
    var n := |ad|;
    assert m[..n] == ad && m[..n] == ad2;
    assert m[n + 8..|m| - 8] == c && m[n + 8..|m| - 8] == c2;
  }

  /** The tag over associated data, length, ciphertext and length, fed piece by piece. */
  method ComputeTag(key: Vec, nonce: Vec, ciphertext: Vec, ad: Vec) returns (tag: Vec)
    requires |key| == 32 && |nonce| == 8
    ensures tag == TagOf(key, nonce, ciphertext, ad)
  {
    hide Stream, InitialState, Tag, KeyR, KeyS, LowBytes, Counter, Mac.Valid;
    InitialCounter(key, nonce, 0, 0);
    var chacha := new Cipher(key, nonce, 0);
    var polyKey := chacha.KeyStream(32);
    var p := new Mac(polyKey);
    p.Update(ad);
    p.Update(LowBytes(|ad|, 8));
    p.Update(ciphertext);
    p.Update(LowBytes(|ciphertext|, 8));
    assert p.fed == MacData(ad, ciphertext) by {
      assert [] + ad == ad;
    }
    tag := p.Finish();
  }

  /** `Seal` */
  method Seal(key: Vec, nonce: Vec, plaintext: Vec, ad: Vec) returns (ret: array<byte>)
    requires |key| == 32 && |nonce| == 8
    ensures fresh(ret) && ret[..] == Sealed(key, nonce, plaintext, ad)
  {
    hide Ciphered, InitialState, TagOf, Counter;
    ret := new byte[|plaintext| + TAG_BYTES](_ => 0);
    InitialCounter(key, nonce, 1, 1);
    var chacha := new Cipher(key, nonce, 1);
    chacha.XorKeyStream(ret, plaintext);
    var ciphertext := ret[..|plaintext|];
    var computedTag := ComputeTag(key, nonce, ciphertext, ad);
    CopyTag(ret, computedTag);
  }

  /** The tag goes to the end of the buffer. */
  method CopyTag(ret: array<byte>, tag: Vec)
    requires |tag| == TAG_BYTES <= ret.Length
    modifies ret
    ensures ret[..] == old(ret[..ret.Length - TAG_BYTES]) + tag
  {
    var at := ret.Length - TAG_BYTES;
    for i := 0 to TAG_BYTES
      invariant ret[..at + i] == old(ret[..at]) + tag[..i]
    {
      ret[at + i] := tag[i];
    }
    assert ret[..at + TAG_BYTES] == ret[..] && tag[..TAG_BYTES] == tag;
  }

  /** `Open` */
  method Open(key: Vec, nonce: Vec, sealed: Vec, ad: Vec) returns (r: Option<Vec>)
    requires |key| == 32 && |nonce| == 8
    ensures r == Opened(key, nonce, sealed, ad)
  {
    hide Ciphered, InitialState, TagOf, Counter;
    if |sealed| < TAG_BYTES {
      return None;
    }
    var n := |sealed| - TAG_BYTES;
    var tag, ciphertext := sealed[n..], sealed[..n];
    var expectedTag := ComputeTag(key, nonce, ciphertext, ad);
    if tag != expectedTag {
      return None;
    }
    var plaintext := new byte[n](_ => 0);
    InitialCounter(key, nonce, 1, 1);
    var chacha := new Cipher(key, nonce, 1);
    chacha.XorKeyStream(plaintext, ciphertext);
    r := Some(plaintext[..n]);
  }
}
