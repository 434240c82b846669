// Reading an HTTP request out of a growing buffer, and cutting the reply into
// records (tls10.go:598-660).
module Http {
  import opened Bytes
  import opened Results
  import opened Record
  import opened Text
  import opened Prf

  const HEAD_END: bytes := [13, 10, 13, 10]

  const MAX_UINT64: int := TWO_64 - 1
  const MAX_INT64: int := 0x7fff_ffff_ffff_ffff
  const MIN_INT64: int := -0x8000_0000_0000_0000

  predicate IsDigit(b: byte) {
    48 <= b <= 57
  }

  /** strconv's left-to-right scan: None at a character that is not a digit,
      and no further once the value exceeds 64 bits. */
  function ScanDigits(s: bytes, acc: nat): Option<nat> {
    if s == [] then Some(acc)
    else if !IsDigit(s[0]) then None
    else
      var next := acc * 10 + (s[0] - 48);
      if next > MAX_UINT64 then Some(MAX_UINT64) else ScanDigits(s[1..], next)
  }

  /** strconv.Atoi with its error dropped: 0 for bad syntax, the nearest 64-bit
      integer when out of range. */
  function Atoi(s: bytes): int {
    var signed := s != [] && (s[0] == 43 || s[0] == 45);
    var digits := if signed then s[1..] else s;
    if digits == [] then 0
    else
      match ScanDigits(digits, 0)
      case None => 0
      case Some(n) =>
        if signed && s[0] == 45 then (if 0 - (n as int) < MIN_INT64 then MIN_INT64 else 0 - (n as int))
        else if n > MAX_INT64 then MAX_INT64
        else n
  }

  function Min(a: int, b: int): int {
    if a <= b then a else b
  }

  lemma {:induction false} ScanOneMore(s: bytes, acc: nat, d: byte)
    requires acc <= MAX_UINT64 && IsDigit(d) && forall i :: 0 <= i < |s| ==> IsDigit(s[i])
    ensures ScanDigits(s, acc).Some?
    ensures ScanDigits(s + [d], acc) == Some(Min(ScanDigits(s, acc).value * 10 + (d - 48), MAX_UINT64))
  {
    if s == [] {
      assert [] + [d] == [d] && [d][1..] == [];
    } else {
      assert (s + [d])[0] == s[0] && (s + [d])[1..] == s[1..] + [d];
      var next := acc * 10 + (s[0] - 48);
      if next <= MAX_UINT64 {
        ScanOneMore(s[1..], next, d);
      }
    }
  }

  /** The number decimal digits stand for. */
  function Value(digits: bytes): nat
    requires forall i :: 0 <= i < |digits| ==> IsDigit(digits[i])
  {
    if digits == [] then 0
    else
      assert IsDigit(digits[|digits| - 1]);
      Value(digits[..|digits| - 1]) * 10 + (digits[|digits| - 1] as int - 48)
  }

  lemma {:induction false} ScanValue(digits: bytes)
    requires forall i :: 0 <= i < |digits| ==> IsDigit(digits[i])
    ensures ScanDigits(digits, 0) == Some(Min(Value(digits), MAX_UINT64))
  {
    if digits != [] {
      var front, last := digits[..|digits| - 1], digits[|digits| - 1];
      ScanValue(front);
      hide ScanDigits;
      assert digits == front + [last];
      ScanOneMore(front, 0, last);
    }
  }

  lemma {:induction false} ScanThenOther(digits: bytes, rest: bytes, acc: nat)
    requires forall i :: 0 <= i < |digits| ==> IsDigit(digits[i])
    requires rest != [] && !IsDigit(rest[0]) && acc <= MAX_UINT64
    ensures var r := ScanDigits(digits, acc);
      r.Some? && (r.value < MAX_UINT64 ==> ScanDigits(digits + rest, acc).None?)
  {
    if digits == [] {
      assert digits + rest == rest;
    } else {
      assert (digits + rest)[1..] == digits[1..] + rest;
      var next := acc * 10 + (digits[0] - 48);
      if next <= MAX_UINT64 {
        ScanThenOther(digits[1..], rest, next);
      }
    }
  }

  /** What Atoi makes of a text: an optional sign and decimal digits give their
      value, cut to 64 bits; anything else, the empty text among it, gives 0. */
  lemma {:induction false} AtoiIs(sign: bytes, digits: bytes)
    requires sign == [] || sign == [43] || sign == [45]
    requires forall i :: 0 <= i < |digits| ==> IsDigit(digits[i])
    ensures Atoi(sign + digits) ==
      var n: int := if sign == [45] then 0 - (Value(digits) as int) else Value(digits);
      if n > 0x7fff_ffff_ffff_ffff then 0x7fff_ffff_ffff_ffff
      else if n < -0x8000_0000_0000_0000 then -0x8000_0000_0000_0000
      else n
  {
    hide ScanDigits, Value;
    ScanValue(digits);
    NoDigits();
    var s := sign + digits;
    if sign == [] {
      assert s == digits;
    } else {
      assert s[1..] == digits && s[0] == sign[0];
    }
  }

  lemma NoDigits()
    ensures Value([]) == 0
  {
  }

  /** Digits that are followed by something else give 0, unless their value has
      left 64 bits before that. */
  lemma {:induction false} AtoiOther(sign: bytes, digits: bytes, rest: bytes)
    requires sign == [] || sign == [43] || sign == [45]
    requires forall i :: 0 <= i < |digits| ==> IsDigit(digits[i])
    requires rest != [] && !IsDigit(rest[0]) && Value(digits) < MAX_UINT64
    requires sign == [] && digits == [] ==> rest[0] != 43 && rest[0] != 45
    ensures Atoi(sign + digits + rest) == 0
  {
    hide ScanDigits, Value;
    ScanValue(digits);
    ScanThenOther(digits, rest, 0);
    var s := sign + digits + rest;
    if sign == [] {
      assert s == digits + rest;
    } else {
      assert s[1..] == digits + rest && s[0] == sign[0];
    }
  }

  // ---- parseHTTPRequest ----

  type Header = seq<(bytes, bytes)>

  datatype Request = Request(verb: bytes, path: bytes, header: Header, body: bytes)

  /** OutOfRange is the run-time panic of slicing with a negative length. */
  datatype Parsed = Incomplete | Complete(req: Request) | OutOfRange

  datatype Head = Head(verb: bytes, path: bytes, header: Header, contentLen: int)

  const CONTENT_LENGTH: bytes := [99, 111, 110, 116, 101, 110, 116, 45, 108, 101, 110, 103, 116, 104]

  /** The fields a header line adds; a line without a colon adds none. */
  function HeaderField(line: bytes): Header {
    var i := Index(line, [58], 0);
    if i == -1 then [] else [(TrimSpace(line[..i]), TrimSpace(line[i + 1..]))]
  }

  function Fold(lines: seq<bytes>): Header {
    if lines == [] then [] else HeaderField(lines[0]) + Fold(lines[1..])
  }

  /** header.Get: the first value under a name, whatever its case, or empty. */
  function Get(header: Header, name: bytes): bytes {
    if header == [] then []
    else if Lower(header[0].0) == name then header[0].1
    else Get(header[1..], name)
  }

  /** The value is that of the first field with the name, and empty without one. */
  lemma {:induction false} GetFirst(header: Header, name: bytes, k: nat)
    requires k <= |header| && forall j :: 0 <= j < k ==> Lower(header[j].0) != name
    requires k < |header| ==> Lower(header[k].0) == name
    ensures Get(header, name) == if k < |header| then header[k].1 else []
  {
    hide Lower;
    if k > 0 {
      GetFirst(header[1..], name, k - 1);
    }
  }

  /** A line is cut at its first colon, and white space around the two parts goes. */
  lemma HeaderFieldCut(line: bytes, name: bytes, value: bytes)
    ensures 58 !in line ==> HeaderField(line) == []
    ensures line == name + [58] + value && 58 !in name ==> HeaderField(line) == [(TrimSpace(name), TrimSpace(value))]
  {
    hide TrimSpace, Index;
    if line == name + [58] + value && 58 !in name {
      ColonAt(line, name, value);
    }
    if 58 !in line {
      NoColon(line);
    }
  }

  lemma NoColon(line: bytes)
    requires 58 !in line
    ensures Index(line, [58], 0) == -1
  {
    forall j | 0 <= j < |line| ensures !MatchAt(line, [58], j) {
      assert line[j..j + 1] == [line[j]] && line[j] in line;
    }
  }

  function ParseHead(head: bytes): Option<Head> {
    var lines := SplitLines(head);
    var parts := Fields(lines[0]);
    if |parts| < 2 then None
    else
      var header := Fold(lines[1..]);
      Some(Head(parts[0], parts[1], header, Atoi(Get(header, CONTENT_LENGTH))))
  }

  function Parse(buf: bytes): Parsed {
    var idx := Index(buf, HEAD_END, 0);
    if idx < 0 then Incomplete
    else
      match ParseHead(buf[..idx])
      case None => Incomplete
      case Some(h) =>
        var bodyStart := idx + 4;
        if |buf| - bodyStart < h.contentLen then Incomplete
        else if h.contentLen < 0 then OutOfRange
        else Complete(Request(h.verb, h.path, h.header, buf[bodyStart..bodyStart + h.contentLen]))
  }

  lemma {:induction false} FoldAppend(lines: seq<bytes>, line: bytes)
    ensures Fold(lines + [line]) == Fold(lines) + HeaderField(line)
  {
    hide HeaderField;
    if lines == [] {
      assert [line] == lines + [line] && (lines + [line])[1..] == [];
      assert Fold(lines + [line]) == HeaderField(line) + Fold([]);
    } else {
      assert (lines + [line])[1..] == lines[1..] + [line];
      FoldAppend(lines[1..], line);
    }
  }

  lemma FoldNone()
    ensures Fold([]) == []
  {
  }

  method ParseHTTPRequest(buf: bytes) returns (r: Parsed)
    ensures r == Parse(buf)
  {
    hide SplitLines, Fields, TrimSpace, Atoi, Get, Index;
    var idx := Index(buf, HEAD_END, 0);
    if idx < 0 {
      return Incomplete;
    }
    var head := buf[..idx];
    var lines := SplitLines(head);
    var parts := Fields(lines[0]);
    if |parts| < 2 {
      return Incomplete;
    }
    var header := ReadHeader(lines);
    var contentLen := Atoi(Get(header, CONTENT_LENGTH));
    var bodyStart := idx + 4;
    if |buf| - bodyStart < contentLen {
      return Incomplete;
    }
    if contentLen < 0 {
      return OutOfRange;
    }
    r := Complete(Request(parts[0], parts[1], header, buf[bodyStart..bodyStart + contentLen]));
  }

  /** The header loop of parseHTTPRequest. */
  method ReadHeader(lines: seq<bytes>) returns (header: Header)
    requires |lines| >= 1
    ensures header == Fold(lines[1..])
  {
    hide TrimSpace, Index, Fold;
    FoldNone();
    assert lines[1..1] == [];
    header := [];
    var k := 1;
    while k < |lines|
      invariant 1 <= k <= |lines|
      invariant header == Fold(lines[1..k])
    {
      var l := lines[k];
      var i := Index(l, [58], 0);
      assert lines[1..k + 1] == lines[1..k] + [l];
      FoldAppend(lines[1..k], l);
      if i != -1 {
        header := header + [(TrimSpace(l[..i]), TrimSpace(l[i + 1..]))];
      }
      k := k + 1;
    }
    assert lines[1..k] == lines[1..];
  }

  // ---- fragmentation independence ----

  /** Bytes that follow a match do not move it. */
  lemma IndexStable(buf: bytes, ext: bytes, pat: bytes)
    requires Index(buf, pat, 0) >= 0
    ensures Index(buf + ext, pat, 0) == Index(buf, pat, 0)
  {
    var i := Index(buf, pat, 0);
    assert (buf + ext)[i..i + |pat|] == buf[i..i + |pat|];
    assert MatchAt(buf + ext, pat, i);
    forall j | 0 <= j < i ensures !MatchAt(buf + ext, pat, j) {
      assert (buf + ext)[j..j + |pat|] == buf[j..j + |pat|];
      assert !MatchAt(buf, pat, j);
    }
  }

  /** Once a request is complete, it is the same request on every extension. */
  lemma ParseStable(buf: bytes, ext: bytes)
    requires !Parse(buf).Incomplete?
    ensures Parse(buf + ext) == Parse(buf)
  {
    hide ParseHead;
    IndexStable(buf, ext, HEAD_END);
    var idx := Index(buf, HEAD_END, 0);
    assert (buf + ext)[..idx] == buf[..idx];
    var h := ParseHead(buf[..idx]).value;
    if h.contentLen >= 0 {
      assert (buf + ext)[idx + 4..idx + 4 + h.contentLen] == buf[idx + 4..idx + 4 + h.contentLen];
    }
  }

  /** serveHTTP's reading loop on the chunks to come. */
  function Accumulate(buf: bytes, chunks: seq<bytes>): Parsed
    decreases |chunks|
  {
    if chunks == [] then Incomplete
    else
      var more := buf + chunks[0];
      if !Parse(more).Incomplete? then Parse(more) else Accumulate(more, chunks[1..])
  }

  /** The loop ends with what a single parse of the whole stream would give:
      complete in one exactly when in the other, and then with the same request. */
  lemma {:induction false} AccumulateIsParse(buf: bytes, chunks: seq<bytes>)
    requires Parse(buf).Incomplete?
    ensures Accumulate(buf, chunks) == Parse(buf + Concat(chunks))
    decreases |chunks|
  {
    hide Parse;
    if chunks == [] {
      assert buf + [] == buf;
    } else {
      var more, later := buf + chunks[0], Concat(chunks[1..]);
      assert buf + Concat(chunks) == more + later;
      if Parse(more).Incomplete? {
        AccumulateIsParse(more, chunks[1..]);
      } else {
        ParseStable(more, later);
      }
    }
  }

  lemma EmptyIsIncomplete()
    ensures Parse([]).Incomplete?
  {
  }

  /** Two ways of cutting one stream into chunks dispatch the same request. */
  lemma CutsDoNotMatter(a: seq<bytes>, b: seq<bytes>)
    requires Concat(a) == Concat(b)
    ensures Accumulate([], a) == Accumulate([], b)
  {
    EmptyIsIncomplete();
    AccumulateIsParse([], a);
    AccumulateIsParse([], b);
  }

  /** Slicing the body stays in range unless a negative Content-Length is sent. */
  lemma OutOfRangeIff(buf: bytes)
    ensures Parse(buf) == OutOfRange <==>
      var idx := Index(buf, HEAD_END, 0);
      idx >= 0 && ParseHead(buf[..idx]).Some? && ParseHead(buf[..idx]).value.contentLen < 0
  {
    hide ParseHead;
  }

  // ---- lines ----

  /** Lines as they stand in a head, with a line break between them. */
  function JoinLines(lines: seq<bytes>): bytes {
    if lines == [] then []
    else if |lines| == 1 then lines[0]
    else lines[0] + CRLF + JoinLines(lines[1..])
  }

  /** Some lines, none of them empty and none with a carriage return. */
  predicate PlainLines(lines: seq<bytes>) {
    lines != [] && forall i :: 0 <= i < |lines| ==> lines[i] != [] && 13 !in lines[i]
  }

  /** Without a line break inside. */
  predicate OneLine(line: bytes) {
    Index(line, CRLF, 0) == -1
  }

  /** The lines are the one way of cutting the head at its line breaks. */
  lemma {:induction false} SplitIff(head: bytes, lines: seq<bytes>)
    ensures lines == SplitLines(head) <==>
      lines != [] && head == JoinLines(lines) && forall i :: 0 <= i < |lines| ==> OneLine(lines[i])
  {
    hide OneLine, SplitLines, JoinLines;
    SplitSpec(head);
    if lines != [] && head == JoinLines(lines) && forall i :: 0 <= i < |lines| ==> OneLine(lines[i]) {
      SplitJoin(lines);
    }
  }

  lemma {:induction false} SplitSpec(head: bytes)
    ensures head == JoinLines(SplitLines(head))
    ensures forall i :: 0 <= i < |SplitLines(head)| ==> OneLine(SplitLines(head)[i])
    decreases |head|
  {
    hide Index;
    var i := Index(head, CRLF, 0);
    if i != -1 {
      var lines := SplitLines(head);
      SplitSpec(head[i + 2..]);
      assert lines[1..] == SplitLines(head[i + 2..]);
      assert head == head[..i] + CRLF + head[i + 2..];
      BeforeFirst(head, i);
    }
  }

  lemma BeforeFirst(head: bytes, i: nat)
    requires Index(head, CRLF, 0) == i
    ensures OneLine(head[..i])
  {
    forall j | 0 <= j < i ensures !MatchAt(head[..i], CRLF, j) {
      assert !MatchAt(head, CRLF, j);
      assert j + 2 <= i ==> head[..i][j..j + 2] == head[j..j + 2];
    }
  }

  lemma {:induction false} SplitJoin(lines: seq<bytes>)
    requires lines != [] && forall i :: 0 <= i < |lines| ==> OneLine(lines[i])
    ensures SplitLines(JoinLines(lines)) == lines
  {
    hide Index;
    var first := lines[0];
    if |lines| > 1 {
      var head, rest := JoinLines(lines), JoinLines(lines[1..]);
      NextCrlf(head, first, rest);
      assert head[..|first|] == first && head[|first| + 2..] == rest;
      SplitJoin(lines[1..]);
      assert SplitLines(head) == [first] + SplitLines(rest);
    }
  }

  /** No break begins inside a line, not even with its last byte. */
  lemma NextCrlf(head: bytes, first: bytes, rest: bytes)
    requires head == first + CRLF + rest && OneLine(first)
    ensures Index(head, CRLF, 0) == |first|
  {
    assert head[|first|..|first| + 2] == CRLF;
    assert MatchAt(head, CRLF, |first|);
    forall j | 0 <= j < |first| ensures !MatchAt(head, CRLF, j) {
      assert !MatchAt(first, CRLF, j);
      if j + 2 <= |first| {
        assert head[j..j + 2] == first[j..j + 2];
      } else {
        assert head[j..j + 2][1] == 13;
      }
    }
  }

  lemma NoCrlf(s: bytes)
    requires 13 !in s
    ensures OneLine(s)
  {
    forall j | 0 <= j < |s| ensures !MatchAt(s, CRLF, j) {
      assert s[j] in s;
      NoCrlfHere(s, j);
    }
  }

  lemma NoCrlfHere(s: bytes, j: nat)
    requires j < |s| && s[j] != 13
    ensures !MatchAt(s, CRLF, j)
  {
    if j + 2 <= |s| {
      assert s[j..j + 2][0] == s[j];
    }
  }

  /** The head of a message ends where its lines do. */
  lemma {:induction false} HeadEndAt(lines: seq<bytes>, body: bytes)
    requires PlainLines(lines)
    ensures Index(JoinLines(lines) + HEAD_END + body, HEAD_END, 0) == |JoinLines(lines)|
  {
    hide Index, MatchAt;
    var first, end := lines[0], HEAD_END + body;
    if |lines| == 1 {
      var buf := first + HEAD_END + body;
      assert buf[|first|..] == end && end[..4] == HEAD_END;
      MatchHere(end, 0);
      forall j | 0 <= j < |first| ensures !MatchAt(buf, HEAD_END, j) {
        assert buf[j] == first[j] && first[j] in first;
        NoMatchHere(buf, j);
      }
      IndexShift(first, end, buf);
    } else {
      var tail := JoinLines(lines[1..]);
      var pre, s, buf := first + CRLF, tail + HEAD_END + body, JoinLines(lines) + HEAD_END + body;
      HeadEndAt(lines[1..], body);
      FirstByte(lines[1..]);
      assert buf == pre + s;
      forall j | 0 <= j < |pre| ensures !MatchAt(buf, HEAD_END, j) {
        assert buf[|first| + 2] == tail[0];
        assert j < |first| ==> buf[j] == first[j] && first[j] in first;
        NoMatchHere(buf, j);
      }
      IndexShift(pre, s, buf);
    }
  }

  lemma FirstByte(lines: seq<bytes>)
    requires PlainLines(lines)
    ensures JoinLines(lines) != [] && JoinLines(lines)[0] != 13
  {
    assert lines[0][0] in lines[0];
  }

  lemma IndexShift(pre: bytes, s: bytes, buf: bytes)
    requires buf == pre + s && Index(s, HEAD_END, 0) >= 0
    requires forall j :: 0 <= j < |pre| ==> !MatchAt(buf, HEAD_END, j)
    ensures Index(buf, HEAD_END, 0) == |pre| + Index(s, HEAD_END, 0)
  {
    var i := Index(s, HEAD_END, 0);
    assert buf[|pre| + i..|pre| + i + 4] == s[i..i + 4];
    assert MatchAt(buf, HEAD_END, |pre| + i);
    forall j | |pre| <= j < |pre| + i ensures !MatchAt(buf, HEAD_END, j) {
      assert !MatchAt(s, HEAD_END, j - |pre|);
      assert buf[j..j + 4] == s[j - |pre|..j - |pre| + 4];
    }
  }

  lemma MatchHere(buf: bytes, i: nat)
    requires i + 4 <= |buf| && buf[i..i + 4] == HEAD_END
    ensures MatchAt(buf, HEAD_END, i)
  {
  }

  lemma NoMatchHere(buf: bytes, j: nat)
    requires j + 2 < |buf| && (buf[j] != 13 || buf[j + 2] != 13)
    ensures !MatchAt(buf, HEAD_END, j)
  {
    if j + 4 <= |buf| {
      assert buf[j..j + 4][0] == buf[j] && buf[j..j + 4][2] == buf[j + 2];
    }
  }

  // ---- a message as its sender builds it ----

  /** Not empty, and without white space anywhere. */
  predicate Word(s: bytes) {
    s != [] && forall i :: 0 <= i < |s| ==> SpaceLen(s[i..]) == 0
  }

  /** A header field whose name is a word and whose value has no blanks around it. */
  predicate GoodField(name: bytes, value: bytes) {
    && Word(name) && 58 !in name
    && TrimSpace(value) == value && 13 !in value
  }

  predicate GoodHeader(header: Header) {
    forall i :: 0 <= i < |header| ==> GoodField(header[i].0, header[i].1)
  }

  function FieldLines(header: Header): (lines: seq<bytes>)
    ensures |lines| == |header|
  {
    if header == [] then [] else [header[0].0 + [58, 32] + header[0].1] + FieldLines(header[1..])
  }

  function Message(start: bytes, header: Header, body: bytes): bytes {
    JoinLines([start] + FieldLines(header)) + HEAD_END + body
  }

  function RequestBytes(verb: bytes, path: bytes, version: bytes, header: Header, body: bytes): bytes {
    Message(verb + [32] + path + [32] + version, header, body)
  }

  /** White space, or nothing, follows the word. */
  predicate Ends(rest: bytes) {
    rest == [] || SpaceLen(rest) > 0
  }

  /** No white space starts inside a word that white space or nothing follows. */
  lemma NoSpaceInWord(w: bytes, rest: bytes, i: nat)
    requires i < |w| && SpaceLen(w[i..]) == 0 && Ends(rest)
    ensures SpaceLen((w + rest)[i..]) == 0
  {
    assert (w + rest)[i..] == w[i..] + rest;
    StillNoSpace(w[i..], rest);
  }

  lemma StillNoSpace(w: bytes, rest: bytes)
    requires w != [] && SpaceLen(w) == 0 && Ends(rest)
    ensures SpaceLen(w + rest) == 0
  {
    var s := w + rest;
    assert |w| <= 2 ==> rest != [] ==> s[|w|] == rest[0] && (rest[0] < 0x80 || rest[0] >= 0xc2);
  }

  lemma {:induction false} WordLenOf(w: bytes, rest: bytes)
    requires (forall i :: 0 <= i < |w| ==> SpaceLen(w[i..]) == 0) && Ends(rest)
    ensures WordLen(w + rest) == |w|
  {
    hide SpaceLen;
    if w != [] {
      NoSpaceInWord(w, rest, 0);
      assert (w + rest)[0..] == w + rest && (w + rest)[1..] == w[1..] + rest;
      assert forall i :: 0 <= i < |w[1..]| ==> w[1..][i..] == w[i + 1..];
      WordLenOf(w[1..], rest);
    } else {
      assert w + rest == rest;
    }
  }

  /** The fields of a text are its words: white space in front goes, and the word
      up to the next white space is the first field. */
  lemma {:induction false} FieldsOf(blank: bytes, word: bytes, rest: bytes)
    requires Blank(blank)
    ensures Fields(blank) == []
    ensures Word(word) && Ends(rest) ==> Fields(blank + word + rest) == [word] + Fields(rest)
    decreases |blank|
  {
    hide SpaceLen;
    if blank == [] {
      assert blank + word + rest == word + rest;
      if Word(word) && Ends(rest) {
        WordField(word, rest);
      }
    } else {
      var n, s := SpaceLen(blank), blank + word + rest;
      SpaceLenPrefix(blank, word + rest);
      assert s == blank + (word + rest) && s[n..] == blank[n..] + word + rest;
      FieldsOf(blank[n..], word, rest);
    }
  }

  lemma WordField(word: bytes, rest: bytes)
    requires Word(word) && Ends(rest)
    ensures Fields(word + rest) == [word] + Fields(rest)
  {
    hide SpaceLen;
    var s := word + rest;
    WordLenOf(word, rest);
    NoSpaceInWord(word, rest, 0);
    assert s[0..] == s && s[..|word|] == word && s[|word|..] == rest;
  }

  lemma FirstField(word: bytes, rest: bytes)
    requires Word(word)
    ensures Fields(word + [32] + rest) == [word] + Fields(rest)
  {
    var tail := [32] + rest;
    assert word + [32] + rest == word + tail && tail[1..] == rest;
    WordField(word, tail);
  }

  lemma TrimWord(s: bytes)
    requires Word(s)
    ensures TrimSpace(s) == s
  {
    assert s[0..] == s;
    assert SpaceLenAtEnd(s) == 0;
  }

  lemma TrimAfterBlank(s: bytes)
    ensures TrimSpace([32] + s) == TrimSpace(s)
  {
    assert ([32] + s)[1..] == s;
  }

  /** Bytes below 0x80 that are no blanks make a word. */
  lemma AsciiWord(s: bytes)
    requires s != [] && forall i :: 0 <= i < |s| ==> s[i] < 0x80 && !AsciiSpace(s[i])
    ensures Word(s)
  {
    forall i | 0 <= i < |s| ensures SpaceLen(s[i..]) == 0 {
      assert s[i..][0] == s[i];
    }
  }

  lemma NoReturnInWord(s: bytes)
    requires Word(s)
    ensures 13 !in s
  {
    forall i | 0 <= i < |s| ensures s[i] != 13 {
      assert s[i..][0] == s[i];
    }
  }

  lemma FieldOf(name: bytes, value: bytes)
    requires GoodField(name, value)
    ensures HeaderField(name + [58, 32] + value) == [(name, value)]
    ensures 13 !in name + [58, 32] + value
  {
    hide TrimSpace, Word, Index;
    ColonAt(name + [58, 32] + value, name, [32] + value);
    NoReturnInWord(name);
    TrimWord(name);
    TrimAfterBlank(value);
  }

  /** The colon after a name that has none ends the name. */
  lemma ColonAt(line: bytes, name: bytes, value: bytes)
    requires line == name + [58] + value && 58 !in name
    ensures Index(line, [58], 0) == |name| && line[..|name|] == name && line[|name| + 1..] == value
  {
    assert MatchAt(line, [58], |name|);
    forall j | 0 <= j < |name| ensures !MatchAt(line, [58], j) {
      assert line[j..j + 1] == [name[j]] && name[j] in name;
    }
  }

  lemma {:induction false} FieldLinesFold(header: Header)
    requires GoodHeader(header)
    ensures Fold(FieldLines(header)) == header
    ensures forall i :: 0 <= i < |header| ==> FieldLines(header)[i] != [] && 13 !in FieldLines(header)[i]
  {
    hide HeaderField, GoodField;
    if header != [] {
      var lines := FieldLines(header);
      FieldLinesFold(header[1..]);
      FieldOf(header[0].0, header[0].1);
      assert lines[1..] == FieldLines(header[1..]);
      assert Fold(lines) == [header[0]] + header[1..];
    }
  }

  /** Start line, header fields and body are found again in a message. */
  lemma MessageReads(start: bytes, header: Header, body: bytes)
    requires start != [] && 13 !in start && GoodHeader(header)
    ensures var m := Message(start, header, body);
      var idx := Index(m, HEAD_END, 0);
      && idx >= 0 && m[idx + 4..] == body
      && SplitLines(m[..idx]) == [start] + FieldLines(header)
      && Fold(SplitLines(m[..idx])[1..]) == header
  {
    hide Index, JoinLines, SplitLines, Fold, GoodField;
    var lines := [start] + FieldLines(header);
    var m, head := Message(start, header, body), JoinLines(lines);
    FieldLinesFold(header);
    forall i | 0 <= i < |lines| ensures OneLine(lines[i]) {
      NoCrlf(lines[i]);
    }
    SplitJoin(lines);
    HeadEndAt(lines, body);
    assert m[..|head|] == head && m[|head| + 4..] == body;
    assert lines[1..] == FieldLines(header);
  }

  /** A request is read as it was meant: the verb, the path, the header, and as
      many body bytes as announced, once they are all there. A negative
      announcement makes the slice fail. */
  lemma RequestParses(verb: bytes, path: bytes, version: bytes, header: Header, body: bytes)
    requires Word(verb) && Word(path) && 13 !in version && GoodHeader(header)
    ensures var n := Atoi(Get(header, CONTENT_LENGTH));
      Parse(RequestBytes(verb, path, version, header, body)) ==
        if n > |body| then Incomplete
        else if n < 0 then OutOfRange
        else Complete(Request(verb, path, header, body[..n]))
  {
    hide Atoi, Get, Index, SplitLines, Fields, Fold, Word, GoodHeader, Message;
    var start := verb + [32] + path + [32] + version;
    var buf := RequestBytes(verb, path, version, header, body);
    NoReturnInWord(verb);
    NoReturnInWord(path);
    MessageReads(start, header, body);
    var idx := Index(buf, HEAD_END, 0);
    assert ParseHead(buf[..idx]) == Some(Head(verb, path, header, Atoi(Get(header, CONTENT_LENGTH)))) by {
      assert start == verb + [32] + (path + [32] + version);
      FirstField(verb, path + [32] + version);
      FirstField(path, version);
    }
    var n := Atoi(Get(header, CONTENT_LENGTH));
    if 0 <= n <= |body| {
      assert buf[idx + 4..idx + 4 + n] == buf[idx + 4..][..n];
    }
  }

  /** Without a Content-Length field the request is complete at once, with an empty body. */
  lemma NoLengthNoBody(verb: bytes, path: bytes, version: bytes, header: Header, body: bytes)
    requires Word(verb) && Word(path) && 13 !in version && GoodHeader(header)
    requires forall i :: 0 <= i < |header| ==> Lower(header[i].0) != Ascii("content-length")
    ensures Parse(RequestBytes(verb, path, version, header, body)) == Complete(Request(verb, path, header, []))
  {
    hide Atoi, Lower, Get, Parse, RequestBytes, GoodHeader, Word;
    NameIsContentLength();
    GetFirst(header, CONTENT_LENGTH, |header|);
    AtoiNothing();
    RequestParses(verb, path, version, header, body);
  }

  lemma AtoiNothing()
    ensures Atoi([]) == 0
  {
  }

  const NAME: bytes := [67, 111, 110, 116, 101, 110, 116, 45, 76, 101, 110, 103, 116, 104]  // Content-Length

  lemma NameIsContentLength()
    ensures Lower(NAME) == CONTENT_LENGTH && Word(NAME) && 58 !in NAME
    ensures NAME == Ascii("Content-Length") && CONTENT_LENGTH == Ascii("content-length")
  {
    NameText();
    hide Ascii;
    var l := Lower(NAME);
    assert forall i :: 0 <= i < 14 ==> l[i] == if 65 <= NAME[i] <= 90 then NAME[i] + 32 else NAME[i];
    assert l[0] == 99 && l[8] == 108;
    assert l == CONTENT_LENGTH;
    AsciiWord(NAME);
  }

  lemma NameText()
    ensures NAME == Ascii("Content-Length") && CONTENT_LENGTH == Ascii("content-length")
  {
    var name, lower := "Content-Length", "content-length";
    assert forall i :: 0 <= i < 14 ==> NAME[i] == name[i] as int;
    assert forall i :: 0 <= i < 14 ==> CONTENT_LENGTH[i] == lower[i] as int;
  }

  lemma NegativeLengthExample()
    ensures Atoi([45, 49]) == -1
    ensures Parse(RequestBytes([71], [47], [], [(NAME, [45, 49])], [])) == OutOfRange
  {
    assert ScanDigits([49], 0) == ScanDigits([], 1);
    AsciiWord([71]);
    AsciiWord([47]);
    AsciiWord([45, 49]);
    TrimWord([45, 49]);
    NameIsContentLength();
    RequestParses([71], [47], [], [(NAME, [45, 49])], []);
  }

  // ---- the reply in records ----

  function Fragments(resp: bytes): (f: seq<bytes>)
    decreases |resp|
  {
    if |resp| > MAX_PLAINTEXT then [resp[..MAX_PLAINTEXT]] + Fragments(resp[MAX_PLAINTEXT..]) else [resp]
  }

  /** Every reply is sent whole, in as few records as its length allows, none of
      them empty or over 2^14 bytes. */
  lemma {:induction false} FragmentsCarryReply(resp: bytes)
    requires resp != []
    ensures var f := Fragments(resp);
      && Concat(f) == resp
      && |f| == (|resp| + 0x3fff) / 0x4000
      && forall i :: 0 <= i < |f| ==> 1 <= |f[i]| <= 0x4000 && (i < |f| - 1 ==> |f[i]| == 0x4000)
    decreases |resp|
  {
    var f := Fragments(resp);
    if |resp| > MAX_PLAINTEXT {
      FragmentsCarryReply(resp[MAX_PLAINTEXT..]);
      assert f[1..] == Fragments(resp[MAX_PLAINTEXT..]);
      assert f[0] + resp[MAX_PLAINTEXT..] == resp;
    } else {
      assert Concat(f) == resp + Concat(f[1..]);
    }
  }
}
