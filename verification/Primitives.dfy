// The cryptographic library calls, kept opaque: any functions will do as long
// as digests have their lengths, DES is a permutation of 8-byte blocks, and RSA
// decryption undoes RSA encryption of a 48-byte premaster secret. Nothing is assumed about collisions.
module Primitives {
  import opened Bytes
  import opened Results

  datatype Suite = Suite(
    md5: bytes -> bytes,
    sha1: bytes -> bytes,
    hmacMd5: (bytes, bytes) -> bytes,
    hmacSha1: (bytes, bytes) -> bytes,
    desEncrypt: (bytes, bytes) -> bytes,
    desDecrypt: (bytes, bytes) -> bytes,
    // message and randomness; the key pair is the server's
    rsaEncrypt: (bytes, bytes) -> bytes,
    rsaDecrypt: bytes -> Option<bytes>)
  {
    /** Under an 8-byte key, each direction maps blocks to blocks and undoes the other. */
    ghost predicate DesPermutes(k: bytes, b: bytes) {
      |k| == 8 && |b| == 8 ==>
        && |desEncrypt(k, b)| == 8 && desDecrypt(k, desEncrypt(k, b)) == b
        && |desDecrypt(k, b)| == 8 && desEncrypt(k, desDecrypt(k, b)) == b
    }

    ghost predicate Lawful() {
      && (forall m :: |md5(m)| == 16)
      && (forall m :: |sha1(m)| == 20)
      && (forall k, m :: |hmacMd5(k, m)| == 16)
      && (forall k, m :: |hmacSha1(k, m)| == 20)
      && (forall k, b :: DesPermutes(k, b))
      && (forall m, r :: |m| == 48 ==> rsaDecrypt(rsaEncrypt(m, r)) == Some(m))
    }
  }

  // The witness shows that the laws can be met.
  type Crypto = s: Suite | s.Lawful()
    ghost witness Suite(
      m => Zeros(16), m => Zeros(20), (k, m) => Zeros(16), (k, m) => Zeros(20),
      (k, b) => b, (k, b) => b, (m, r) => m, c => Some(c))

  function DesEncrypt(p: Crypto, key: bytes, block: bytes): (out: bytes)
    requires |key| == 8 && |block| == 8
    ensures |out| == 8
  {
    assert p.DesPermutes(key, block);
    p.desEncrypt(key, block)
  }

  function DesDecrypt(p: Crypto, key: bytes, block: bytes): (out: bytes)
    requires |key| == 8 && |block| == 8
    ensures |out| == 8
  {
    assert p.DesPermutes(key, block);
    p.desDecrypt(key, block)
  }

  lemma DesInverse(p: Crypto, key: bytes, block: bytes)
    requires |key| == 8 && |block| == 8
    ensures DesDecrypt(p, key, DesEncrypt(p, key, block)) == block
    ensures DesEncrypt(p, key, DesDecrypt(p, key, block)) == block
  {
    assert p.DesPermutes(key, block);
  }

  /** One block of crypto/des NewTripleDESCipher(key): EDE with three keys. */
  function Des3Encrypt(p: Crypto, key: bytes, block: bytes): (out: bytes)
    requires |key| == 24 && |block| == 8
    ensures |out| == 8
  {
    DesEncrypt(p, key[16..], DesDecrypt(p, key[8..16], DesEncrypt(p, key[..8], block)))
  }

  function Des3Decrypt(p: Crypto, key: bytes, block: bytes): (out: bytes)
    requires |key| == 24 && |block| == 8
    ensures |out| == 8
  {
    DesDecrypt(p, key[..8], DesEncrypt(p, key[8..16], DesDecrypt(p, key[16..], block)))
  }

  lemma Des3Inverse(p: Crypto, key: bytes, block: bytes)
    requires |key| == 24 && |block| == 8
    ensures Des3Decrypt(p, key, Des3Encrypt(p, key, block)) == block
    ensures Des3Encrypt(p, key, Des3Decrypt(p, key, block)) == block
  {
    var e1 := DesEncrypt(p, key[..8], block);
    var e2 := DesDecrypt(p, key[8..16], e1);
    DesInverse(p, key[..8], block);
    DesInverse(p, key[8..16], e1);
    DesInverse(p, key[16..], e2);
    var d1 := DesDecrypt(p, key[16..], block);
    var d2 := DesEncrypt(p, key[8..16], d1);
    DesInverse(p, key[16..], block);
    DesInverse(p, key[8..16], d1);
    DesInverse(p, key[..8], d2);
  }
}
