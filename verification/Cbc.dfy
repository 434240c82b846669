// Triple-DES in CBC mode (crypto/cipher NewCBCEncrypter and NewCBCDecrypter).
module Cbc {
  import opened Bytes
  import opened Primitives

  function Encrypt(p: Crypto, key: bytes, iv: bytes, plain: bytes): (c: bytes)
    requires |key| == 24 && |iv| == 8 && |plain| % 8 == 0
    ensures |c| == |plain|
    decreases |plain|
  {
    if plain == [] then []
    else
      var block := Des3Encrypt(p, key, XorBytes(plain[..8], iv));
      block + Encrypt(p, key, block, plain[8..])
  }

  function Decrypt(p: Crypto, key: bytes, iv: bytes, c: bytes): (plain: bytes)
    requires |key| == 24 && |iv| == 8 && |c| % 8 == 0
    ensures |plain| == |c|
    decreases |c|
  {
    if c == [] then []
    else XorBytes(Des3Decrypt(p, key, c[..8]), iv) + Decrypt(p, key, c[..8], c[8..])
  }

  /** The IV the next CBC call starts from when ciphertext c is chained on. */
  function NextIV(iv: bytes, c: bytes): (next: bytes)
    requires |iv| == 8 && |c| % 8 == 0
    ensures |next| == 8
  {
    if c == [] then iv else c[|c| - 8..]
  }

  lemma {:induction false} DecryptEncrypt(p: Crypto, key: bytes, iv: bytes, plain: bytes)
    requires |key| == 24 && |iv| == 8 && |plain| % 8 == 0
    ensures Decrypt(p, key, iv, Encrypt(p, key, iv, plain)) == plain
    decreases |plain|
  {
    if plain != [] {
      var block := Des3Encrypt(p, key, XorBytes(plain[..8], iv));
      var c := Encrypt(p, key, iv, plain);
      assert c[..8] == block && c[8..] == Encrypt(p, key, block, plain[8..]);
      Des3Inverse(p, key, XorBytes(plain[..8], iv));
      XorBytesCancels(plain[..8], iv);
      DecryptEncrypt(p, key, block, plain[8..]);
    }
  }

  lemma {:induction false} EncryptDecrypt(p: Crypto, key: bytes, iv: bytes, c: bytes)
    requires |key| == 24 && |iv| == 8 && |c| % 8 == 0
    ensures Encrypt(p, key, iv, Decrypt(p, key, iv, c)) == c
    decreases |c|
  {
    if c != [] {
      var plain := Decrypt(p, key, iv, c);
      assert plain[..8] == XorBytes(Des3Decrypt(p, key, c[..8]), iv);
      assert plain[8..] == Decrypt(p, key, c[..8], c[8..]);
      XorBytesCancels(Des3Decrypt(p, key, c[..8]), iv);
      Des3Inverse(p, key, c[..8]);
      EncryptDecrypt(p, key, c[..8], c[8..]);
    }
  }

  /** Encryption is causal: what follows in the plaintext does not change the
      ciphertext so far, and chaining continues from its last block. */
  lemma {:induction false} EncryptAppend(p: Crypto, key: bytes, iv: bytes, a: bytes, b: bytes)
    requires |key| == 24 && |iv| == 8 && |a| % 8 == 0 && |b| % 8 == 0
    ensures var ca := Encrypt(p, key, iv, a);
      Encrypt(p, key, iv, a + b) == ca + Encrypt(p, key, NextIV(iv, ca), b)
    decreases |a|
  {
    hide XorBytes, Des3Encrypt;
    if a == [] {
      assert a + b == b;
    } else {
      var block := Des3Encrypt(p, key, XorBytes(a[..8], iv));
      assert (a + b)[..8] == a[..8] && (a + b)[8..] == a[8..] + b;
      EncryptAppend(p, key, block, a[8..], b);
      var ca, rest := Encrypt(p, key, iv, a), Encrypt(p, key, block, a[8..]);
      assert NextIV(iv, ca) == NextIV(block, rest);
    }
  }

  /** The equations of CBC mode: each block of ciphertext is the encryption of
      the plaintext block combined with the ciphertext block before it. */
  lemma {:induction false} EncryptBlock(p: Crypto, key: bytes, iv: bytes, plain: bytes, i: nat)
    requires |key| == 24 && |iv| == 8 && |plain| % 8 == 0 && i + 8 <= |plain| && i % 8 == 0
    ensures var c := Encrypt(p, key, iv, plain);
      c[i..i + 8] == Des3Encrypt(p, key, XorBytes(plain[i..i + 8], if i == 0 then iv else c[i - 8..i]))
  {
    hide XorBytes, Des3Encrypt, Encrypt;
    var c, a, b := Encrypt(p, key, iv, plain), plain[..i], plain[i..];
    assert plain == a + b;
    EncryptAppend(p, key, iv, a, b);
    var ca := Encrypt(p, key, iv, a);
    var next := NextIV(iv, ca);
    FirstBlock(p, key, next, b);
    assert b[..8] == plain[i..i + 8];
    assert c[i..i + 8] == Encrypt(p, key, next, b)[..8];
    assert i > 0 ==> c[i - 8..i] == ca[i - 8..];
  }

  lemma FirstBlock(p: Crypto, key: bytes, iv: bytes, plain: bytes)
    requires |key| == 24 && |iv| == 8 && |plain| % 8 == 0 && |plain| >= 8
    ensures Encrypt(p, key, iv, plain)[..8] == Des3Encrypt(p, key, XorBytes(plain[..8], iv))
  {
  }
}
