// 3DES-CBC over a region of a packet, in place (dnas.go:16-43), and the
// block-by-block loop it stands for (dnas_test.go:15-38).
module RegionCipher {
  import opened Bytes
  import opened Results
  import opened Primitives
  import Cbc

  predicate Region(data: bytes, offset: nat, length: nat) {
    offset + length <= |data| && length % 8 == 0
  }

  function EncryptRegion(p: Crypto, data: bytes, offset: nat, length: nat, key: bytes, iv: bytes): (out: bytes)
    requires Region(data, offset, length) && |key| == 24 && |iv| == 8
    ensures |out| == |data|
  {
    data[..offset] + Cbc.Encrypt(p, key, iv, data[offset..offset + length]) + data[offset + length..]
  }

  function DecryptRegion(p: Crypto, data: bytes, offset: nat, length: nat, key: bytes, iv: bytes): (out: bytes)
    requires Region(data, offset, length) && |key| == 24 && |iv| == 8
    ensures |out| == |data|
  {
    data[..offset] + Cbc.Decrypt(p, key, iv, data[offset..offset + length]) + data[offset + length..]
  }

  /** Decrypting the region restores the data. */
  lemma RegionInverse(p: Crypto, data: bytes, offset: nat, length: nat, key: bytes, iv: bytes)
    requires Region(data, offset, length) && |key| == 24 && |iv| == 8
    ensures DecryptRegion(p, EncryptRegion(p, data, offset, length, key, iv), offset, length, key, iv) == data
  {
    hide Cbc.Encrypt, Cbc.Decrypt;
    var out := EncryptRegion(p, data, offset, length, key, iv);
    RegionParts(p, data, offset, length, key, iv);
    Cbc.DecryptEncrypt(p, key, iv, data[offset..offset + length]);
    assert data == data[..offset] + data[offset..offset + length] + data[offset + length..];
  }

  /** Nothing outside the region changes. */
  lemma RegionParts(p: Crypto, data: bytes, offset: nat, length: nat, key: bytes, iv: bytes)
    requires Region(data, offset, length) && |key| == 24 && |iv| == 8
    ensures var out := EncryptRegion(p, data, offset, length, key, iv);
      && out[..offset] == data[..offset] && out[offset + length..] == data[offset + length..]
      && out[offset..offset + length] == Cbc.Encrypt(p, key, iv, data[offset..offset + length])
  {
    hide Cbc.Encrypt;
  }

  /** Data that agree up to a block boundary in the region still do afterwards. */
  lemma RegionCausal(p: Crypto, a: bytes, b: bytes, offset: nat, length: nat, n: nat, key: bytes, iv: bytes)
    requires Region(a, offset, length) && Region(b, offset, length) && |key| == 24 && |iv| == 8
    requires n <= length && n % 8 == 0 && a[..offset + n] == b[..offset + n]
    ensures EncryptRegion(p, a, offset, length, key, iv)[..offset + n]
      == EncryptRegion(p, b, offset, length, key, iv)[..offset + n]
  {
    hide EncryptRegion, Cbc.Encrypt;
    Subslice(a, 0, offset + n, offset, offset + n);
    Subslice(b, 0, offset + n, offset, offset + n);
    Subslice(a, 0, offset + n, 0, offset);
    Subslice(b, 0, offset + n, 0, offset);
    RegionStart(p, a, offset, length, n, key, iv);
    RegionStart(p, b, offset, length, n, key, iv);
  }

  lemma RegionStart(p: Crypto, data: bytes, offset: nat, length: nat, n: nat, key: bytes, iv: bytes)
    requires Region(data, offset, length) && |key| == 24 && |iv| == 8 && n <= length && n % 8 == 0
    ensures EncryptRegion(p, data, offset, length, key, iv)[..offset + n]
      == data[..offset] + Cbc.Encrypt(p, key, iv, data[offset..offset + n])
  {
    var region := data[offset..offset + length];
    Subslice(data, offset, offset + length, offset, offset + n);
    CausalPrefix(p, key, iv, region, n);
    hide Cbc.Encrypt;
    TakeMiddle(data[..offset], Cbc.Encrypt(p, key, iv, region), data[offset + length..], n);
  }

  lemma CausalPrefix(p: Crypto, key: bytes, iv: bytes, plain: bytes, n: nat)
    requires |key| == 24 && |iv| == 8 && |plain| % 8 == 0 && n <= |plain| && n % 8 == 0
    ensures Cbc.Encrypt(p, key, iv, plain)[..n] == Cbc.Encrypt(p, key, iv, plain[..n])
  {
    hide Cbc.Encrypt;
    assert plain == plain[..n] + plain[n..];
    Cbc.EncryptAppend(p, key, iv, plain[..n], plain[n..]);
  }

  lemma TakeMiddle(x: bytes, y: bytes, z: bytes, n: nat)
    requires n <= |y|
    ensures (x + y + z)[..|x| + n] == x + y[..n]
  {
  }

  // ---- one more block ----

  /** The region encrypted up to i, and what the loop does to the next block. */
  function Upto(p: Crypto, data: bytes, offset: nat, length: nat, i: nat, key: bytes, iv: bytes): bytes
    requires Region(data, offset, length) && |key| == 24 && |iv| == 8 && i <= length && i % 8 == 0
  {
    data[..offset] + Cbc.Encrypt(p, key, iv, data[offset..offset + i]) + data[offset + i..]
  }

  function Previous(p: Crypto, data: bytes, offset: nat, length: nat, i: nat, key: bytes, iv: bytes): (prev: bytes)
    requires Region(data, offset, length) && |key| == 24 && |iv| == 8 && i <= length && i % 8 == 0
    ensures |prev| == 8
  {
    Cbc.NextIV(iv, Cbc.Encrypt(p, key, iv, data[offset..offset + i]))
  }

  lemma OneMoreBlock(p: Crypto, data: bytes, offset: nat, length: nat, i: nat, key: bytes, iv: bytes)
    requires Region(data, offset, length) && |key| == 24 && |iv| == 8 && i + 8 <= length && i % 8 == 0
    ensures var was := Upto(p, data, offset, length, i, key, iv);
      var prev := Previous(p, data, offset, length, i, key, iv);
      var block := Des3Encrypt(p, key, XorBytes(data[offset + i..offset + i + 8], prev));
      && |was| == |data| && was[offset + i..offset + i + 8] == data[offset + i..offset + i + 8]
      && Upto(p, data, offset, length, i + 8, key, iv) == was[..offset + i] + block + was[offset + i + 8..]
      && Previous(p, data, offset, length, i + 8, key, iv) == block
  {
    hide Des3Encrypt, XorBytes, Cbc.Encrypt;
    var done, next := data[offset..offset + i], data[offset + i..offset + i + 8];
    var prev := Previous(p, data, offset, length, i, key, iv);
    assert data[offset..offset + i + 8] == done + next;
    Cbc.EncryptAppend(p, key, iv, done, next);
    OneBlock(p, key, prev, next);
    var c, block := Cbc.Encrypt(p, key, iv, done), Des3Encrypt(p, key, XorBytes(next, prev));
    assert (c + block)[i..] == block;
    Replaced(data, offset, i, c, block);
  }

  /** The block after i in data whose region starts with ciphertext c. */
  lemma Replaced(data: bytes, offset: nat, i: nat, c: bytes, block: bytes)
    requires offset + i + 8 <= |data| && |c| == i && |block| == 8
    ensures var was := data[..offset] + c + data[offset + i..];
      && |was| == |data| && was[offset + i..offset + i + 8] == data[offset + i..offset + i + 8]
      && data[..offset] + (c + block) + data[offset + i + 8..] == was[..offset + i] + block + was[offset + i + 8..]
  {
    var was := data[..offset] + c + data[offset + i..];
    assert was[..offset + i] == data[..offset] + c;
    assert was[offset + i + 8..] == data[offset + i + 8..];
    assert was[offset + i..offset + i + 8] == data[offset + i..offset + i + 8];
  }

  lemma OneBlock(p: Crypto, key: bytes, iv: bytes, block: bytes)
    requires |key| == 24 && |iv| == 8 && |block| == 8
    ensures Cbc.Encrypt(p, key, iv, block) == Des3Encrypt(p, key, XorBytes(block, iv))
  {
    assert block[..8] == block && block[8..] == [];
    assert Cbc.Encrypt(p, key, Des3Encrypt(p, key, XorBytes(block, iv)), []) == [];
  }

  lemma Start(p: Crypto, data: bytes, offset: nat, length: nat, key: bytes, iv: bytes)
    requires Region(data, offset, length) && |key| == 24 && |iv| == 8
    ensures Upto(p, data, offset, length, 0, key, iv) == data
    ensures Previous(p, data, offset, length, 0, key, iv) == iv
  {
    assert data[offset..offset] == [];
    assert data == data[..offset] + [] + data[offset..];
  }

  // ---- the two loops ----

  datatype Fault = RegionExceedsBuffer | BadLength | BadKeySize

  /** encrypt3n. The source panics unless the seed has 8 bytes. */
  method Encrypt3n(p: Crypto, data: array<byte>, offset: nat, length: nat,
                   k1: bytes, k2: bytes, k3: bytes, xorSeed: bytes)
    returns (fault: Option<Fault>)
    requires |xorSeed| == 8
    modifies data
    ensures fault.None? <==> Region(old(data[..]), offset, length) && |k1 + k2 + k3| == 24
    ensures fault.None? ==> data[..] == EncryptRegion(p, old(data[..]), offset, length, k1 + k2 + k3, xorSeed)
    ensures fault.Some? ==> data[..] == old(data[..])
  {
    if offset + length > data.Length {
      return Some(RegionExceedsBuffer);
    }
    if length % 8 != 0 {
      return Some(BadLength);
    }
    var key := k1 + k2 + k3;
    if |key| != 24 {
      return Some(BadKeySize);
    }
    CryptBlocks(p, data, offset, length, key, xorSeed);
    return None;
  }

  /** crypto/cipher's CBC encrypter with source and destination the same slice. */
  method CryptBlocks(p: Crypto, data: array<byte>, offset: nat, length: nat, key: bytes, iv: bytes)
    requires offset + length <= data.Length && length % 8 == 0 && |key| == 24 && |iv| == 8
    modifies data
    ensures data[..] == EncryptRegion(p, old(data[..]), offset, length, key, iv)
  {
    hide EncryptRegion, Upto, Previous, Des3Encrypt, XorBytes;
    ghost var before := data[..];
    var prev := iv;
    var i := 0;
    Start(p, before, offset, length, key, iv);
    while i < length
      invariant 0 <= i <= length && i % 8 == 0
      invariant data[..] == Upto(p, before, offset, length, i, key, iv)
      invariant prev == Previous(p, before, offset, length, i, key, iv)
    {
      OneMoreBlock(p, before, offset, length, i, key, iv);
      ghost var was := data[..];
      var block := Des3Encrypt(p, key, XorBytes(data[offset + i..offset + i + 8], prev));
      forall t | 0 <= t < 8 {
        data[offset + i + t] := block[t];
      }
      assert data[..] == was[..offset + i] + block + was[offset + i + 8..];
      prev := block;
      i := i + 8;
    }
    WholeRegion(p, before, offset, length, key, iv);
  }

  lemma WholeRegion(p: Crypto, data: bytes, offset: nat, length: nat, key: bytes, iv: bytes)
    requires Region(data, offset, length) && |key| == 24 && |iv| == 8
    ensures Upto(p, data, offset, length, length, key, iv) == EncryptRegion(p, data, offset, length, key, iv)
  {
  }

  /** The reference loop: single DES, encrypt with k1, decrypt with k2, encrypt
      with k3, each block first combined with the ciphertext before it. */
  method Encrypt3nManual(p: Crypto, data: bytes, offset: nat, length: nat, k1: bytes, k2: bytes, k3: bytes, seed: bytes)
    returns (out: bytes)
    requires Region(data, offset, length) && |k1| == |k2| == |k3| == |seed| == 8
    ensures out == EncryptRegion(p, data, offset, length, k1 + k2 + k3, seed)
  {
    hide EncryptRegion, Upto, Previous, Des3Encrypt;
    ghost var key3 := k1 + k2 + k3;
    var key := seed;
    out := data;
    var i := 0;
    Start(p, data, offset, length, key3, seed);
    while i < length
      invariant 0 <= i <= length && i % 8 == 0
      invariant out == Upto(p, data, offset, length, i, key3, seed)
      invariant key == Previous(p, data, offset, length, i, key3, seed)
    {
      OneMoreBlock(p, data, offset, length, i, key3, seed);
      var dat := new byte[8];
      var t := 0;
      while t < 8
        invariant 0 <= t <= 8
        invariant forall u :: 0 <= u < t ==> dat[u] == Xor(data[offset + i + u], key[u])
      {
        assert out[offset + i + t] == out[offset + i..offset + i + 8][t] == data[offset + i..offset + i + 8][t];
        dat[t] := Xor(out[offset + i + t], key[t]);
        t := t + 1;
      }
      assert dat[..] == XorBytes(data[offset + i..offset + i + 8], key);
      var enc := DesEncrypt(p, k1, dat[..]);
      enc := DesDecrypt(p, k2, enc);
      enc := DesEncrypt(p, k3, enc);
      ThreeKeys(p, k1, k2, k3, dat[..]);
      out := out[..offset + i] + enc + out[offset + i + 8..];
      key := enc;
      i := i + 8;
    }
    WholeRegion(p, data, offset, length, key3, seed);
  }

  lemma ThreeKeys(p: Crypto, k1: bytes, k2: bytes, k3: bytes, block: bytes)
    requires |k1| == |k2| == |k3| == |block| == 8
    ensures Des3Encrypt(p, k1 + k2 + k3, block) == DesEncrypt(p, k3, DesDecrypt(p, k2, DesEncrypt(p, k1, block)))
    ensures Des3Encrypt(p, k1 + k2 + k3, block) == p.desEncrypt(k3, p.desDecrypt(k2, p.desEncrypt(k1, block)))
  {
    var key := k1 + k2 + k3;
    assert key[..8] == k1 && key[8..16] == k2 && key[16..] == k3;
  }
}
