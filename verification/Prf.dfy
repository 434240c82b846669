// The TLS 1.0 pseudo-random function (tls10.go:68-99; RFC 2246 section 5).
module Prf {
  import opened Bytes
  import opened Primitives

  type Mac = (bytes, bytes) -> bytes

  ghost predicate Digests(h: Mac, size: nat) {
    size > 0 && forall k, m :: |h(k, m)| == size
  }

  /** A(i) of RFC 2246: A(0) = seed, A(i) = HMAC(secret, A(i-1)). */
  function A(h: Mac, secret: bytes, seed: bytes, i: nat): bytes {
    if i == 0 then seed else h(secret, A(h, secret, seed, i - 1))
  }

  /** The first k digests of P_hash, concatenated. */
  function Stream(h: Mac, secret: bytes, seed: bytes, k: nat): bytes {
    if k == 0 then [] else Stream(h, secret, seed, k - 1) + h(secret, A(h, secret, seed, k) + seed)
  }

  lemma {:induction false} StreamLength(h: Mac, size: nat, secret: bytes, seed: bytes, k: nat)
    requires Digests(h, size)
    ensures |Stream(h, secret, seed, k)| == k * size
  {
    if k > 0 {
      StreamLength(h, size, secret, seed, k - 1);
    }
  }

  lemma {:induction false} StreamGrows(h: Mac, secret: bytes, seed: bytes, j: nat, k: nat)
    requires j <= k
    ensures Stream(h, secret, seed, j) <= Stream(h, secret, seed, k)
  {
    if j < k {
      StreamGrows(h, secret, seed, j, k - 1);
    }
  }

  /** n digests always hold n bytes. */
  lemma EnoughDigests(h: Mac, size: nat, secret: bytes, seed: bytes, n: nat)
    requires Digests(h, size)
    ensures |Stream(h, secret, seed, n)| >= n
  {
    StreamLength(h, size, secret, seed, n);
    AtLeast(size, n);
  }

  /** P_hash(secret, seed) cut to n bytes. */
  function Expand(h: Mac, ghost size: nat, secret: bytes, seed: bytes, n: nat): (out: bytes)
    requires Digests(h, size)
    ensures |out| == n
  {
    EnoughDigests(h, size, secret, seed, n);
    Stream(h, secret, seed, n)[..n]
  }

  method PHash(h: Mac, ghost size: nat, secret: bytes, seed: bytes, n: nat) returns (out: bytes)
    requires Digests(h, size)
    ensures out == Expand(h, size, secret, seed, n)
  {
    var a := h(secret, seed);
    out := [];
    ghost var k: nat := 0;
    while |out| < n
      invariant out == Stream(h, secret, seed, k)
      invariant |out| == k * size
      invariant a == A(h, secret, seed, k + 1)
      decreases n - |out|
    {
      out := out + h(secret, a + seed);
      a := h(secret, a);
      k := k + 1;
    }
    EnoughDigests(h, size, secret, seed, n);
    if k <= n {
      StreamGrows(h, secret, seed, k, n);
    } else {
      StreamGrows(h, secret, seed, n, k);
    }
    out := out[..n];
  }

  /** Byte i of the infinite stream comes from digest i/size + 1: a is the chain
      A(0) = seed, A(k) = HMAC(secret, A(k-1)) of RFC 2246, as far as that. */
  lemma {:induction false} ExpandByte(h: Mac, size: nat, secret: bytes, seed: bytes, n: nat, i: nat, a: seq<bytes>)
    requires Digests(h, size) && i < n && |a| > i / size + 1
    requires a[0] == seed && forall k :: 1 <= k < |a| ==> a[k] == h(secret, a[k - 1])
    ensures Expand(h, size, secret, seed, n)[i] == h(secret, a[i / size + 1] + seed)[i % size]
  {
    DivMod(i, size);
    ExpandAt(h, size, secret, seed, n, i / size, i % size);
    ChainIsA(h, secret, seed, a, i / size + 1);
  }

  lemma {:induction false} ChainIsA(h: Mac, secret: bytes, seed: bytes, a: seq<bytes>, i: nat)
    requires i < |a| && a[0] == seed && forall k :: 1 <= k < |a| ==> a[k] == h(secret, a[k - 1])
    ensures a[i] == A(h, secret, seed, i)
  {
    if i > 0 {
      ChainIsA(h, secret, seed, a, i - 1);
    }
  }

  lemma ExpandAt(h: Mac, size: nat, secret: bytes, seed: bytes, n: nat, j: nat, r: nat)
    requires Digests(h, size) && r < size && j * size + r < n
    ensures Expand(h, size, secret, seed, n)[j * size + r] == h(secret, A(h, secret, seed, j + 1) + seed)[r]
  {
    hide Stream, A;
    StreamByte(h, size, secret, seed, j, r);
    EnoughDigests(h, size, secret, seed, n);
    if j + 1 <= n {
      StreamGrows(h, secret, seed, j + 1, n);
    } else {
      StreamGrows(h, secret, seed, n, j + 1);
    }
  }

  lemma StreamByte(h: Mac, size: nat, secret: bytes, seed: bytes, j: nat, r: nat)
    requires Digests(h, size) && r < size
    ensures |Stream(h, secret, seed, j + 1)| == j * size + size
    ensures Stream(h, secret, seed, j + 1)[j * size + r] == h(secret, A(h, secret, seed, j + 1) + seed)[r]
  {
    StreamLength(h, size, secret, seed, j);
  }

  /** Asking for more bytes never changes the ones already given. */
  lemma ExpandPrefix(h: Mac, size: nat, secret: bytes, seed: bytes, n: nat, m: nat)
    requires Digests(h, size) && n <= m
    ensures Expand(h, size, secret, seed, n) == Expand(h, size, secret, seed, m)[..n]
  {
    EnoughDigests(h, size, secret, seed, n);
    StreamGrows(h, secret, seed, n, m);
  }

  function Ascii(s: string): (b: bytes)
    ensures |b| == |s|
  {
    seq(|s|, i requires 0 <= i < |s| => (s[i] as int) % 256)
  }

  function Half(secret: bytes): nat {
    (|secret| + 1) / 2
  }

  function S1(secret: bytes): bytes {
    secret[..Half(secret)]
  }

  function S2(secret: bytes): bytes {
    secret[|secret| - Half(secret)..]
  }

  /** The halves are equally long and cover the secret; they overlap in exactly
      the middle byte when its length is odd, and not at all otherwise. */
  lemma SecretHalves(secret: bytes)
    ensures |S1(secret)| == |S2(secret)|
    ensures |S1(secret)| + |S2(secret)| == |secret| + |secret| % 2
    ensures S1(secret) + S2(secret)[|secret| % 2..] == secret
    ensures |secret| % 2 == 1 ==> S2(secret)[0] == S1(secret)[|S1(secret)| - 1]
  {
    assert S2(secret)[|secret| % 2..] == secret[Half(secret)..];
  }

  function Prf10Value(p: Crypto, secret: bytes, purpose: string, seed: bytes, n: nat): (out: bytes)
    ensures |out| == n
  {
    XorBytes(Expand(p.hmacMd5, 16, S1(secret), Ascii(purpose) + seed, n),
             Expand(p.hmacSha1, 20, S2(secret), Ascii(purpose) + seed, n))
  }

  method Prf10(p: Crypto, secret: bytes, purpose: string, seed: bytes, n: nat) returns (result: bytes)
    ensures result == Prf10Value(p, secret, purpose, seed, n)
  {
    var ls := Ascii(purpose) + seed;
    var half := (|secret| + 1) / 2;
    var a := PHash(p.hmacMd5, 16, secret[..half], ls, n);
    var b := PHash(p.hmacSha1, 20, secret[|secret| - half..], ls, n);
    var out := new byte[n];
    var i := 0;
    while i < n
      invariant 0 <= i <= n
      invariant forall j :: 0 <= j < i ==> out[j] == Xor(a[j], b[j])
    {
      out[i] := Xor(a[i], b[i]);
      i := i + 1;
    }
    result := out[..];
  }

  /** Each output byte is the XOR of one MD5 digest byte keyed by the first half
      and one SHA-1 digest byte keyed by the second, whatever length is asked for;
      a and b are the two chains of RFC 2246 over the purpose and the seed. */
  lemma Prf10Byte(p: Crypto, secret: bytes, purpose: string, seed: bytes, n: nat, i: nat, a: seq<bytes>, b: seq<bytes>)
    requires i < n && |a| > i / 16 + 1 && |b| > i / 20 + 1
    requires a[0] == b[0] == Ascii(purpose) + seed
    requires forall k :: 1 <= k < |a| ==> a[k] == p.hmacMd5(S1(secret), a[k - 1])
    requires forall k :: 1 <= k < |b| ==> b[k] == p.hmacSha1(S2(secret), b[k - 1])
    ensures var ls := Ascii(purpose) + seed;
      Prf10Value(p, secret, purpose, seed, n)[i]
        == Xor(p.hmacMd5(S1(secret), a[i / 16 + 1] + ls)[i % 16], p.hmacSha1(S2(secret), b[i / 20 + 1] + ls)[i % 20])
  {
    ExpandByte(p.hmacMd5, 16, S1(secret), Ascii(purpose) + seed, n, i, a);
    ExpandByte(p.hmacSha1, 20, S2(secret), Ascii(purpose) + seed, n, i, b);
  }

  lemma Prf10Prefix(p: Crypto, secret: bytes, purpose: string, seed: bytes, n: nat, m: nat)
    requires n <= m
    ensures Prf10Value(p, secret, purpose, seed, n) == Prf10Value(p, secret, purpose, seed, m)[..n]
  {
    ExpandPrefix(p.hmacMd5, 16, S1(secret), Ascii(purpose) + seed, n, m);
    ExpandPrefix(p.hmacSha1, 20, S2(secret), Ascii(purpose) + seed, n, m);
  }

  /** MD5(transcript) followed by SHA-1(transcript). */
  function FinishedHash(p: Crypto, transcript: bytes): (h: bytes)
    ensures |h| == 36
  {
    p.md5(transcript) + p.sha1(transcript)
  }
}
