// Bytes, big-endian integers and byte-wise XOR, as the Go code uses them.
module Bytes {

  type byte = x: int | 0 <= x < 256
  type bytes = seq<byte>

  const TWO_64: int := 0x1_0000_0000_0000_0000
  type uint64 = x: int | 0 <= x < TWO_64

  /** The low k bytes of n, most significant first: `byte(n>>8), byte(n)` and
      binary.BigEndian truncate in the same way. */
  function BE(n: nat, k: nat): (b: bytes)
    ensures |b| == k
  {
    if k == 0 then [] else BE(n / 256, k - 1) + [n % 256]
  }

  function FromBE(b: bytes): nat {
    if b == [] then 0 else FromBE(b[..|b| - 1]) * 256 + b[|b| - 1]
  }

  /** The number of values k bytes can hold. */
  function Capacity(k: nat): (c: nat)
    ensures c > 0
  {
    if k == 0 then 1 else 256 * Capacity(k - 1)
  }

  lemma {:induction false} DecodeEncode(n: nat, k: nat)
    ensures FromBE(BE(n, k)) == n % Capacity(k)
  {
    if k > 0 {
      DecodeEncode(n / 256, k - 1);
      assert BE(n, k)[..k - 1] == BE(n / 256, k - 1);
      ModSplit(n, Capacity(k - 1));
    }
  }

  lemma ModSplit(n: nat, m: nat)
    requires m > 0
    ensures n % (256 * m) == (n / 256 % m) * 256 + n % 256
  {
    var q, r := n / 256 / m, n / 256 % m;
    assert n == (q * m + r) * 256 + n % 256;
    assert n == q * (256 * m) + (r * 256 + n % 256);
    ModUnique(n, 256 * m, q, r * 256 + n % 256);
  }

  lemma ModUnique(n: nat, m: nat, q: nat, r: nat)
    requires m > 0 && r < m && n == q * m + r
    ensures n % m == r && n / m == q
  {
    var q', r' := n / m, n % m;
    assert q' * m + r' == n;
    assert (q' - q) * m == r - r';
    if q' > q {
      AtLeast(q' - q, m);
    } else if q' < q {
      AtLeast(q - q', m);
    }
  }

  lemma ModNext(n: nat, m: nat)
    requires m > 0
    ensures (n % m + 1) % m == (n + 1) % m
  {
    ModAdd(n, 1, m);
  }

  lemma ModAdd(n: nat, k: nat, m: nat)
    requires m > 0
    ensures (n % m + k) % m == (n + k) % m
  {
    var q, r := n / m, n % m;
    var q', r' := (r + k) / m, (r + k) % m;
    assert n + k == (q + q') * m + r';
    ModUnique(n + k, m, q + q', r');
  }

  lemma DivMod(n: nat, m: nat)
    requires m > 0
    ensures n == n / m * m + n % m
  {
  }

  lemma AtLeast(k: int, m: nat)
    requires k >= 1
    ensures k * m >= m
  {
  }

  lemma {:induction false} EncodeDecode(b: bytes)
    ensures BE(FromBE(b), |b|) == b
  {
    if b != [] {
      EncodeDecode(b[..|b| - 1]);
    }
  }

  /** The low k bytes of a number are its last k bytes, with zeros in front of
      a shorter one. */
  lemma {:induction false} LowBytes(b: bytes, k: nat)
    ensures BE(FromBE(b), k) == if k <= |b| then b[|b| - k..] else Zeros(k - |b|) + b
  {
    if k > 0 {
      if b == [] {
        LowBytes([], k - 1);
        assert Zeros(k) == Zeros(k - 1) + [0];
      } else {
        LowBytes(b[..|b| - 1], k - 1);
      }
    }
  }

  lemma Capacities()
    ensures Capacity(2) == 0x1_0000 && Capacity(3) == 0x100_0000 && Capacity(8) == TWO_64
  {
    assert Capacity(3) == 256 * Capacity(2);
    assert Capacity(5) == 256 * 256 * Capacity(3);
    assert Capacity(8) == 256 * 256 * 256 * Capacity(5);
  }

  lemma EncodeInjective(m: nat, n: nat, k: nat)
    requires m < Capacity(k) && n < Capacity(k) && BE(m, k) == BE(n, k)
    ensures m == n
  {
    DecodeEncode(m, k);
    DecodeEncode(n, k);
  }

  lemma Decode2(b: bytes)
    requires |b| == 2
    ensures FromBE(b) == 256 * (b[0] as int) + b[1] < 0x1_0000
  {
    assert FromBE(b[..1]) == FromBE(b[..1][..0]) * 256 + b[0];
  }

  lemma Encode2(n: nat)
    ensures BE(n, 2) == [n / 256 % 256, n % 256]
    ensures FromBE(BE(n, 2)) == n % 0x1_0000
  {
    assert BE(n / 256, 1) == BE(n / 256 / 256, 0) + [n / 256 % 256];
    Capacities();
    DecodeEncode(n, 2);
  }

  lemma Encode4(n: nat)
    ensures BE(n, 4) == [n / 0x100_0000 % 256, n / 0x1_0000 % 256, n / 256 % 256, n % 256]
  {
    Encode2(n / 0x1_0000);
    assert BE(n, 4) == BE(n / 256, 3) + [n % 256];
    assert BE(n / 256, 3) == BE(n / 256 / 256, 2) + [n / 256 % 256];
  }

  lemma Fits2(n: nat)
    requires n < 0x1_0000
    ensures FromBE(BE(n, 2)) == n
  {
    Encode2(n);
  }

  lemma Fits3(n: nat)
    ensures FromBE(BE(n, 3)) == n <==> n < 0x100_0000
  {
    Capacities();
    DecodeEncode(n, 3);
  }

  /** Bit-wise addition modulo 2 of the low k bits. */
  function XorBits(a: nat, b: nat, k: nat): nat {
    if k == 0 then 0 else (a + b) % 2 + 2 * XorBits(a / 2, b / 2, k - 1)
  }

  function Pow2(k: nat): (p: nat)
    ensures p > 0
  {
    if k == 0 then 1 else 2 * Pow2(k - 1)
  }

  lemma {:induction false} XorBitsBound(a: nat, b: nat, k: nat)
    ensures XorBits(a, b, k) < Pow2(k)
  {
    if k > 0 {
      XorBitsBound(a / 2, b / 2, k - 1);
    }
  }

  lemma {:induction false} XorBitsCancels(a: nat, b: nat, k: nat)
    requires a < Pow2(k)
    ensures XorBits(XorBits(a, b, k), b, k) == a
  {
    if k > 0 {
      XorBitsCancels(a / 2, b / 2, k - 1);
      LowBit(a, b, XorBits(a / 2, b / 2, k - 1));
    }
  }

  lemma LowBit(a: nat, b: nat, high: nat)
    ensures var x := (a + b) % 2 + 2 * high;
      x / 2 == high && (x + b) % 2 + 2 * (a / 2) == a
  {
  }

  lemma EightBits()
    ensures Pow2(8) == 256
  {
    assert Pow2(4) == 16;
  }

  /** The ^ of two bytes. */
  function Xor(a: byte, b: byte): byte {
    EightBits();
    XorBitsBound(a, b, 8);
    XorBits(a, b, 8)
  }

  /** Bit k of a number, from the least significant. */
  function Bit(x: nat, k: nat): nat {
    x / Pow2(k) % 2
  }

  lemma {:induction false} XorBitsAt(a: nat, b: nat, n: nat, k: nat)
    requires k < n
    ensures Bit(XorBits(a, b, n), k) == (Bit(a, k) + Bit(b, k)) % 2
  {
    hide Bit, Pow2;
    var high := XorBits(a / 2, b / 2, n - 1);
    LowAndHigh(a + b, high, k);
    Parity(a, b);
    if k > 0 {
      XorBitsAt(a / 2, b / 2, n - 1, k - 1);
      BitHalf(a, k);
      BitHalf(b, k);
    }
  }

  lemma LowAndHigh(low: nat, high: nat, k: nat)
    ensures Bit(low % 2 + 2 * high, k) == if k == 0 then low % 2 else Bit(high, k - 1)
  {
    var x := low % 2 + 2 * high;
    assert x / 2 == high && x % 2 == low % 2;
    if k > 0 {
      hide Bit, Pow2;
      BitHalf(x, k);
    }
  }

  lemma Parity(a: nat, b: nat)
    ensures (a + b) % 2 == (Bit(a, 0) + Bit(b, 0)) % 2
  {
  }

  lemma BitHalf(x: nat, k: nat)
    requires k > 0
    ensures Bit(x, k) == Bit(x / 2, k - 1)
  {
    DivTwice(x, Pow2(k - 1));
  }

  lemma DivTwice(n: nat, m: nat)
    requires m > 0
    ensures n / (2 * m) == n / 2 / m
  {
    var q, r := n / 2 / m, n / 2 % m;
    assert n == (q * m + r) * 2 + n % 2;
    assert n == q * (2 * m) + (r * 2 + n % 2);
    ModUnique(n, 2 * m, q, r * 2 + n % 2);
  }

  lemma {:induction false} BitsDetermine(a: nat, b: nat, n: nat)
    requires a < Pow2(n) && b < Pow2(n) && forall k :: 0 <= k < n ==> Bit(a, k) == Bit(b, k)
    ensures a == b
  {
    if n > 0 {
      assert Bit(a, 0) == Bit(b, 0);
      forall k | 0 <= k < n - 1 ensures Bit(a / 2, k) == Bit(b / 2, k) {
        BitHalf(a, k + 1);
        BitHalf(b, k + 1);
      }
      BitsDetermine(a / 2, b / 2, n - 1);
    }
  }

  /** Xor gives the one byte whose bits differ exactly where the bits of the two differ. */
  lemma {:induction false} XorIff(a: byte, b: byte, x: byte)
    ensures x == Xor(a, b) <==> forall k :: 0 <= k < 8 ==> (Bit(x, k) == 1 <==> Bit(a, k) != Bit(b, k))
  {
    hide Xor, Bit;
    EightBits();
    forall k | 0 <= k < 8 ensures Bit(Xor(a, b), k) == 1 <==> Bit(a, k) != Bit(b, k) {
      XorByteAt(a, b, k);
    }
    if forall k :: 0 <= k < 8 ==> (Bit(x, k) == 1 <==> Bit(a, k) != Bit(b, k)) {
      forall k | 0 <= k < 8 ensures Bit(x, k) == Bit(Xor(a, b), k) {
        BitRange(x, k);
        BitRange(Xor(a, b), k);
      }
      BitsDetermine(x, Xor(a, b), 8);
    }
  }

  lemma BitRange(x: nat, k: nat)
    ensures Bit(x, k) == 0 || Bit(x, k) == 1
  {
  }

  lemma XorByteAt(a: byte, b: byte, k: nat)
    requires k < 8
    ensures Bit(Xor(a, b), k) == 1 <==> Bit(a, k) != Bit(b, k)
  {
    XorBitsAt(a, b, 8, k);
    BitRange(a, k);
    BitRange(b, k);
  }

  lemma XorCancels(a: byte, b: byte)
    ensures Xor(Xor(a, b), b) == a
  {
    EightBits();
    XorBitsCancels(a, b, 8);
  }

  function XorBytes(a: bytes, b: bytes): (c: bytes)
    requires |a| == |b|
    ensures |c| == |a|
  {
    seq(|a|, i requires 0 <= i < |a| => Xor(a[i], b[i]))
  }

  lemma XorBytesCancels(a: bytes, b: bytes)
    requires |a| == |b|
    ensures XorBytes(XorBytes(a, b), b) == a
  {
    forall i | 0 <= i < |a| ensures XorBytes(XorBytes(a, b), b)[i] == a[i] {
      XorCancels(a[i], b[i]);
    }
  }

  /** n zero bytes. */
  function Zeros(n: nat): (z: bytes)
    ensures |z| == n
  {
    seq(n, _ => 0)
  }

  lemma Subslice<T>(s: seq<T>, a: nat, b: nat, c: nat, d: nat)
    requires a <= c <= d <= b <= |s|
    ensures s[a..b][c - a..d - a] == s[c..d]
  {
    var part := s[a..b];
    assert forall i :: 0 <= i < b - a ==> part[i] == s[a + i];
    assert forall i :: 0 <= i < d - c ==> part[c - a..d - a][i] == s[c..d][i];
  }

  lemma AfterPrefix<T>(x: seq<T>, y: seq<T>, i: nat, j: nat)
    requires |x| <= i <= j <= |x| + |y|
    ensures (x + y)[i..j] == y[i - |x|..j - |x|]
  {
  }

  function Concat<T>(parts: seq<seq<T>>): seq<T> {
    if parts == [] then [] else parts[0] + Concat(parts[1..])
  }
}
