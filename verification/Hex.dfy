// encoding/hex.
module Hex {
  import opened Bytes
  import opened Results

  const DIGITS := "0123456789abcdef"

  function EncodeHex(b: bytes): (s: string)
    ensures |s| == 2 * |b|
  {
    if b == [] then "" else [DIGITS[b[0] / 16], DIGITS[b[0] % 16]] + EncodeHex(b[1..])
  }

  function HexValue(c: char): Option<int> {
    if '0' <= c <= '9' then Some(c as int - '0' as int)
    else if 'a' <= c <= 'f' then Some(c as int - 'a' as int + 10)
    else if 'A' <= c <= 'F' then Some(c as int - 'A' as int + 10)
    else None
  }

  /** hex.DecodeString; an odd length or another character is an error. */
  function DecodeHex(s: string): Option<bytes> {
    if s == "" then Some([])
    else if |s| == 1 then None
    else
      match (HexValue(s[0]), HexValue(s[1]), DecodeHex(s[2..]))
      case (Some(h), Some(l), Some(rest)) => if 0 <= h < 16 && 0 <= l < 16 then Some([16 * h + l] + rest) else None
      case _ => None
  }

  lemma DigitValue(n: int)
    requires 0 <= n < 16
    ensures HexValue(DIGITS[n]) == Some(n)
  {
  }

  lemma HexFirst(b: bytes)
    requires b != []
    ensures EncodeHex(b) == [DIGITS[b[0] / 16], DIGITS[b[0] % 16]] + EncodeHex(b[1..])
  {
  }

  lemma {:induction false} HexRoundTrip(b: bytes)
    ensures DecodeHex(EncodeHex(b)) == Some(b)
  {
    if b != [] {
      DigitValue(b[0] / 16);
      DigitValue(b[0] % 16);
      HexRoundTrip(b[1..]);
      hide EncodeHex, HexValue;
      var s := EncodeHex(b);
      HexFirst(b);
      assert s[2..] == EncodeHex(b[1..]);
      assert [b[0]] + b[1..] == b;
    }
  }

  /** Two lower-case digits for each byte, the high one first. */
  lemma {:induction false} HexDigits(b: bytes, i: nat)
    requires i < |b|
    ensures EncodeHex(b)[2 * i] == "0123456789abcdef"[b[i] / 16]
    ensures EncodeHex(b)[2 * i + 1] == "0123456789abcdef"[b[i] % 16]
  {
    if i > 0 {
      HexDigits(b[1..], i - 1);
      HexFirst(b);
      assert EncodeHex(b)[2..] == EncodeHex(b[1..]);
    }
  }

  lemma HexInjective(a: bytes, b: bytes)
    requires EncodeHex(a) == EncodeHex(b)
    ensures a == b
  {
    HexRoundTrip(a);
    HexRoundTrip(b);
  }

  lemma {:induction false} HexAppend(a: bytes, b: bytes)
    ensures EncodeHex(a + b) == EncodeHex(a) + EncodeHex(b)
  {
    if a == [] {
      assert a + b == b;
    } else {
      assert (a + b)[1..] == a[1..] + b;
      HexAppend(a[1..], b);
    }
  }

  /** Cutting the hex text at even positions cuts the bytes. */
  lemma HexSlice(b: bytes, i: nat, j: nat)
    requires i <= j <= |b|
    ensures EncodeHex(b)[2 * i..2 * j] == EncodeHex(b[i..j])
  {
    hide EncodeHex;
    Split3(b, i, j);
    HexAppend(b[..i], b[i..j] + b[j..]);
    HexAppend(b[i..j], b[j..]);
    Middle(EncodeHex(b[..i]), EncodeHex(b[i..j]), EncodeHex(b[j..]), 2 * i, 2 * j);
  }

  lemma Split3<T>(s: seq<T>, i: nat, j: nat)
    requires i <= j <= |s|
    ensures s[..i] + (s[i..j] + s[j..]) == s
  {
  }

  lemma Middle<T>(x: seq<T>, y: seq<T>, z: seq<T>, i: nat, j: nat)
    requires i == |x| && j == |x| + |y|
    ensures (x + (y + z))[i..j] == y
  {
  }

  predicate HexText(s: string) {
    forall i :: 0 <= i < |s| ==> HexValue(s[i]).Some?
  }

  lemma {:induction false} EncodesToHexText(b: bytes)
    ensures HexText(EncodeHex(b))
  {
    if b != [] {
      DigitValue(b[0] / 16);
      DigitValue(b[0] % 16);
      EncodesToHexText(b[1..]);
    }
  }
}
