// The string functions of Go's library that the program uses, on bytes. White
// space is that of unicode.IsSpace in UTF-8; letter case is the ASCII kind, the
// only one that matters for header names.
module Text {
  import opened Bytes

  const CRLF: bytes := [13, 10]
  const DOT: byte := 46

  predicate MatchAt(buf: bytes, pat: bytes, i: int) {
    0 <= i && i + |pat| <= |buf| && buf[i..i + |pat|] == pat
  }

  /** bytes.Index from a position: the first match at or after it, or -1. */
  function Index(buf: bytes, pat: bytes, from: nat): (i: int)
    ensures i == -1 || (i >= from && MatchAt(buf, pat, i))
    ensures forall j :: from <= j && (i == -1 || j < i) ==> !MatchAt(buf, pat, j)
    decreases |buf| - from
  {
    if from + |pat| > |buf| then -1
    else if MatchAt(buf, pat, from) then from
    else if from == |buf| then -1
    else Index(buf, pat, from + 1)
  }

  /** strings.Split at CRLF. */
  function SplitLines(head: bytes): (lines: seq<bytes>)
    ensures |lines| >= 1
    decreases |head|
  {
    var i := Index(head, CRLF, 0);
    if i == -1 then [head] else [head[..i]] + SplitLines(head[i + 2..])
  }

  predicate AsciiSpace(b: byte) {
    b == 32 || 9 <= b <= 13
  }

  /** The UTF-8 encodings in three bytes of the characters unicode.IsSpace accepts. */
  predicate WideSpace(a: byte, b: byte, c: byte) {
    || (a == 0xe1 && b == 0x9a && c == 0x80)
    || (a == 0xe2 && b == 0x80 && (0x80 <= c <= 0x8a || c == 0xa8 || c == 0xa9 || c == 0xaf))
    || (a == 0xe2 && b == 0x81 && c == 0x9f)
    || (a == 0xe3 && b == 0x80 && c == 0x80)
  }

  /** The length of the white-space character s begins with, or 0. */
  function SpaceLen(s: bytes): (n: nat)
    ensures n <= 3 && n <= |s|
  {
    if s == [] then 0
    else if AsciiSpace(s[0]) then 1
    else if |s| >= 2 && s[0] == 0xc2 && (s[1] == 0x85 || s[1] == 0xa0) then 2
    else if |s| >= 3 && WideSpace(s[0], s[1], s[2]) then 3
    else 0
  }

  /** The length of the white-space character s ends with, or 0. */
  function SpaceLenAtEnd(s: bytes): (n: nat)
    ensures n <= |s|
  {
    if |s| >= 1 && SpaceLen(s[|s| - 1..]) == 1 then 1
    else if |s| >= 2 && SpaceLen(s[|s| - 2..]) == 2 then 2
    else if |s| >= 3 && SpaceLen(s[|s| - 3..]) == 3 then 3
    else 0
  }

  /** The characters below 0x10000 that unicode.IsSpace accepts; there are none above. */
  predicate IsSpace(r: nat) {
    || 9 <= r <= 13 || r == 0x20 || r == 0x85 || r == 0xa0 || r == 0x1680 || 0x2000 <= r <= 0x200a
    || r == 0x2028 || r == 0x2029 || r == 0x202f || r == 0x205f || r == 0x3000
  }

  /** UTF-8 below 0x10000. */
  function Utf8(r: nat): bytes
    requires r < 0x1_0000
  {
    if r < 0x80 then [r]
    else if r < 0x800 then [0xc0 + r / 64, 0x80 + r % 64]
    else [0xe0 + r / 0x1000, 0x80 + r / 64 % 64, 0x80 + r % 64]
  }

  predicate SpaceInFront(s: bytes, r: nat) {
    IsSpace(r) && |Utf8(r)| <= |s| && s[..|Utf8(r)|] == Utf8(r)
  }

  /** The byte patterns are the encodings of the white-space characters. */
  lemma {:induction false} SpaceLenIff(s: bytes, n: nat)
    requires n > 0
    ensures SpaceLen(s) == n <==> exists r :: SpaceInFront(s, r) && n == |Utf8(r)|
  {
    if SpaceLen(s) == n {
      var r := SpaceThere(s);
    }
    forall r | SpaceInFront(s, r) ensures SpaceLen(s) == |Utf8(r)| {
      SpaceSeen(s, r);
    }
  }

  lemma SpaceThere(s: bytes) returns (r: nat)
    requires SpaceLen(s) > 0
    ensures SpaceInFront(s, r) && SpaceLen(s) == |Utf8(r)|
  {
    if AsciiSpace(s[0]) {
      r := s[0];
    } else if s[0] == 0xc2 {
      r := s[1];
    } else {
      r := (s[0] as int - 0xe0) * 0x1000 + (s[1] as int - 0x80) * 64 + (s[2] as int - 0x80);
    }
    assert s[..|Utf8(r)|] == Utf8(r);
  }

  lemma SpaceSeen(s: bytes, r: nat)
    requires SpaceInFront(s, r)
    ensures SpaceLen(s) == |Utf8(r)|
  {
    var u := Utf8(r);
    assert forall i :: 0 <= i < |u| ==> s[i] == u[i];
  }

  /** The last n bytes are one white-space character. */
  predicate SpaceAtEnd(s: bytes, n: nat) {
    0 < n <= |s| && SpaceLen(s[|s| - n..]) == n
  }

  /** At most one white-space character ends a string, and this is its length. */
  lemma {:induction false} SpaceAtEndIff(s: bytes, n: nat)
    ensures n > 0 ==> (SpaceLenAtEnd(s) == n <==> SpaceAtEnd(s, n))
  {
    hide SpaceLen, AsciiSpace, SpaceAtEnd, SpaceLenAtEnd;
    EndChoice(s);
    var k := SpaceLenAtEnd(s);
    if k > 0 {
      EndBytes(s, k);
    }
    if SpaceAtEnd(s, n) {
      EndBytes(s, n);
    }
  }

  lemma EndChoice(s: bytes)
    ensures SpaceLenAtEnd(s)
      == if SpaceAtEnd(s, 1) then 1 else if SpaceAtEnd(s, 2) then 2 else if SpaceAtEnd(s, 3) then 3 else 0
  {
    hide SpaceLen;
  }

  lemma EndBytes(s: bytes, n: nat)
    requires SpaceAtEnd(s, n)
    ensures n <= 3 && n <= |s| && (AsciiSpace(s[|s| - 1]) <==> n == 1) && (n > 1 ==> (s[|s| - 2] == 0xc2 <==> n == 2))
  {
    var t := s[|s| - n..];
    assert t[n - 1] == s[|s| - 1] && (n >= 2 ==> t[n - 2] == s[|s| - 2]);
  }

  /** White-space characters and nothing else. */
  predicate Blank(s: bytes)
    decreases |s|
  {
    s == [] || (SpaceLen(s) > 0 && Blank(s[SpaceLen(s)..]))
  }

  lemma NothingBlank()
    ensures Blank([])
  {
  }

  lemma SpaceIsBlank(c: bytes)
    requires SpaceLen(c) == |c| > 0
    ensures Blank(c)
  {
  }

  lemma SpaceOnly(s: bytes)
    ensures SpaceLen(s[..SpaceLen(s)]) == SpaceLen(s)
  {
  }

  lemma SpaceThenBlank(c: bytes, s: bytes)
    requires SpaceLen(c) == |c| > 0 && Blank(s)
    ensures Blank(c + s) && SpaceLen(c + s) == |c|
  {
    assert (c + s)[|c|..] == s;
  }

  function WordLen(s: bytes): (n: nat)
    ensures n <= |s|
    ensures s != [] && SpaceLen(s) == 0 ==> n > 0
  {
    if s == [] || SpaceLen(s) > 0 then 0 else 1 + WordLen(s[1..])
  }

  function Fields(s: bytes): seq<bytes>
    decreases |s|
  {
    if s == [] then []
    else if SpaceLen(s) > 0 then Fields(s[SpaceLen(s)..])
    else [s[..WordLen(s)]] + Fields(s[WordLen(s)..])
  }

  function TrimLeft(s: bytes): bytes
    decreases |s|
  {
    if SpaceLen(s) > 0 then TrimLeft(s[SpaceLen(s)..]) else s
  }

  function TrimRight(s: bytes): bytes
    decreases |s|
  {
    if SpaceLenAtEnd(s) > 0 then TrimRight(s[..|s| - SpaceLenAtEnd(s)]) else s
  }

  function TrimSpace(s: bytes): bytes {
    TrimRight(TrimLeft(s))
  }

  /** What is trimmed on both sides is white space, and what is left neither
      begins nor ends with any. */
  lemma TrimSpaceSpec(s: bytes) returns (front: bytes, back: bytes)
    ensures s == front + TrimSpace(s) + back && Blank(front) && Blank(back)
    ensures SpaceLen(TrimSpace(s)) == 0 && SpaceLenAtEnd(TrimSpace(s)) == 0
  {
    hide SpaceLen, SpaceLenAtEnd, Blank, TrimLeft, TrimRight;
    front := TrimLeftSpec(s);
    back := TrimRightSpec(TrimLeft(s));
    SpaceLenPrefix(TrimSpace(s), back);
  }

  lemma {:induction false} TrimLeftSpec(s: bytes) returns (front: bytes)
    ensures s == front + TrimLeft(s) && Blank(front) && SpaceLen(TrimLeft(s)) == 0
    decreases |s|
  {
    hide SpaceLen, Blank, TrimLeft;
    NothingBlank();
    TrimLeftStep(s);
    if SpaceLen(s) == 0 {
      front := [];
    } else {
      var n := SpaceLen(s);
      var more := TrimLeftSpec(s[n..]);
      SpaceOnly(s);
      SpaceThenBlank(s[..n], more);
      front := s[..n] + more;
      assert s == s[..n] + s[n..];
    }
  }

  lemma TrimLeftStep(s: bytes)
    ensures TrimLeft(s) == if SpaceLen(s) > 0 then TrimLeft(s[SpaceLen(s)..]) else s
  {
  }

  lemma {:induction false} TrimRightSpec(s: bytes) returns (back: bytes)
    ensures s == TrimRight(s) + back && Blank(back) && SpaceLenAtEnd(TrimRight(s)) == 0
    decreases |s|
  {
    hide SpaceLen, SpaceLenAtEnd, Blank;
    NothingBlank();
    var n := SpaceLenAtEnd(s);
    if n == 0 {
      back := [];
    } else {
      var front, c := s[..|s| - n], s[|s| - n..];
      SpaceAtEndIff(s, n);
      var more := TrimRightSpec(front);
      SpaceIsBlank(c);
      BlankAppend(more, c);
      back := more + c;
    }
  }

  lemma {:induction false} BlankAppend(s: bytes, c: bytes)
    requires Blank(s) && Blank(c)
    ensures Blank(s + c)
    decreases |s|
  {
    if s == [] {
      assert s + c == c;
    } else {
      var n := SpaceLen(s);
      SpaceLenPrefix(s, c);
      assert (s + c)[n..] == s[n..] + c;
      BlankAppend(s[n..], c);
    }
  }

  /** What follows does not change the white space in front. */
  lemma SpaceLenPrefix(s: bytes, more: bytes)
    ensures SpaceLen(s) > 0 ==> SpaceLen(s + more) == SpaceLen(s)
  {
  }

  function Lower(s: bytes): (l: bytes)
    ensures |l| == |s|
  {
    seq(|s|, i requires 0 <= i < |s| => if 65 <= s[i] <= 90 then s[i] + 32 else s[i])
  }

  /** Two bytes that are the same letter, case aside, or the same byte. */
  predicate SameLetter(a: byte, b: byte) {
    a == b || (65 <= a <= 90 && b == a + 32) || (65 <= b <= 90 && a == b + 32)
  }

  /** The lower-case form is the one string with the same letters and no capitals. */
  lemma LowerIff(s: bytes, l: bytes)
    ensures l == Lower(s) <==>
      |l| == |s| && forall i :: 0 <= i < |s| ==> SameLetter(s[i], l[i]) && !(65 <= l[i] <= 90)
  {
    if |l| == |s| && forall i :: 0 <= i < |s| ==> SameLetter(s[i], l[i]) && !(65 <= l[i] <= 90) {
      assert l == Lower(s);
    }
  }

  predicate HasSuffix(s: bytes, suffix: bytes) {
    |suffix| <= |s| && s[|s| - |suffix|..] == suffix
  }

  predicate HasPrefix(s: bytes, prefix: bytes) {
    |prefix| <= |s| && s[..|prefix|] == prefix
  }

  lemma PrefixIff(s: bytes, prefix: bytes)
    ensures HasPrefix(s, prefix) <==> exists more :: s == prefix + more
  {
    if HasPrefix(s, prefix) {
      assert s == prefix + s[|prefix|..];
    }
  }

  lemma SuffixIff(s: bytes, suffix: bytes)
    ensures HasSuffix(s, suffix) <==> exists front :: s == front + suffix
  {
    if HasSuffix(s, suffix) {
      assert s == s[..|s| - |suffix|] + suffix;
    }
  }

  function TrimSuffix(s: bytes, suffix: bytes): bytes {
    if HasSuffix(s, suffix) then s[..|s| - |suffix|] else s
  }

  /** strings.Join with a dot. */
  function JoinDots(labels: seq<bytes>): bytes {
    if labels == [] then []
    else if |labels| == 1 then labels[0]
    else labels[0] + [DOT] + JoinDots(labels[1..])
  }

  /** Equally long suffixes of one string are the same string. */
  lemma SuffixDetermined(s: bytes, a: bytes, b: bytes)
    requires HasSuffix(s, a) && HasSuffix(s, b) && |a| == |b|
    ensures a == b
  {
  }
}
