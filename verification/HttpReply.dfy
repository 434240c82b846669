// The reply as dispatch builds it (tls10.go:711-715), and how a client reads it.
module HttpReply {
  import opened Bytes
  import opened Results
  import opened Prf
  import opened Text
  import opened Http

  /** A number in decimal digits, as %d prints it. */
  function Decimal(n: nat): (s: bytes)
    ensures s != [] && forall i :: 0 <= i < |s| ==> IsDigit(s[i])
  {
    (if n < 10 then [] else Decimal(n / 10)) + [48 + n % 10]
  }

  lemma {:induction false} ScanDecimal(n: nat)
    ensures ScanDigits(Decimal(n), 0) == Some(Min(n, MAX_UINT64))
  {
    var rest := if n < 10 then [] else Decimal(n / 10);
    if n < 10 {
      ScanNothing();
    } else {
      ScanDecimal(n / 10);
    }
    hide ScanDigits;
    assert Decimal(n) == rest + [48 + n % 10];
    ScanOneMore(rest, 0, 48 + n % 10);
    LastDigit(n, MAX_UINT64);
  }

  lemma ScanNothing()
    ensures ScanDigits([], 0) == Some(0)
  {
  }

  lemma LastDigit(n: nat, max: int)
    requires max >= 10
    ensures Min(Min(n / 10, max) * 10 + n % 10, max) == Min(n, max)
  {
  }

  /** A printed length is read back, as far as 64 bits go. */
  lemma {:induction false} AtoiDecimal(n: nat)
    ensures Atoi(Decimal(n)) == Min(n, MAX_INT64)
  {
    ScanDecimal(n);
    assert IsDigit(Decimal(n)[0]);
  }

  lemma DecimalWord(n: nat)
    ensures Word(Decimal(n))
  {
    AsciiWord(Decimal(n));
  }

  function ReplyHeader(contentType: bytes, length: nat): Header {
    [(Ascii("Content-Type"), contentType), (NAME, Decimal(length)), (Ascii("Connection"), Ascii("close"))]
  }

  /** httpResponse. */
  function HttpResponse(contentType: bytes, body: bytes): (reply: bytes)
    ensures reply != []
  {
    Message(Ascii("HTTP/1.0 200 OK"), ReplyHeader(contentType, |body|), body)
  }

  /** The reply as it goes out: the literal head with type and length filled in,
      and the body. */
  lemma ResponseText(contentType: bytes, body: bytes)
    ensures HttpResponse(contentType, body)
      == Ascii("HTTP/1.0 200 OK\r\nContent-Type: ") + contentType + Ascii("\r\nContent-Length: ") + Decimal(|body|)
         + Ascii("\r\nConnection: close\r\n\r\n") + body
  {
    hide Ascii, Decimal, JoinLines, FieldLines;
    var start, length := Ascii("HTTP/1.0 200 OK"), Decimal(|body|);
    var fields := ReplyHeader(contentType, |body|);
    var f1 := Ascii("Content-Type") + [58, 32] + contentType;
    var f2 := NAME + [58, 32] + length;
    var f3 := Ascii("Connection") + [58, 32] + Ascii("close");
    ThreeLines(fields[0], fields[1], fields[2]);
    FourJoined(start, f1, f2, f3);
    HeadTexts();
    NameIsContentLength();
    Regroup(start, Ascii("Content-Type"), contentType, NAME, length, Ascii("Connection"), Ascii("close"), body);
  }

  lemma Regroup(start: bytes, n1: bytes, v1: bytes, n2: bytes, v2: bytes, n3: bytes, v3: bytes, body: bytes)
    ensures start + CRLF + (n1 + [58, 32] + v1 + CRLF + (n2 + [58, 32] + v2 + CRLF + (n3 + [58, 32] + v3)))
        + HEAD_END + body
      == (start + CRLF + n1 + [58, 32]) + v1 + (CRLF + n2 + [58, 32]) + v2
         + (CRLF + n3 + [58, 32] + v3 + HEAD_END) + body
  {
    var sep: bytes := [58, 32];
    var l3 := n3 + sep + v3;
    var l2 := n2 + sep + v2 + CRLF + l3;
    assert l2 == (n2 + sep) + v2 + (CRLF + l3);
    assert CRLF + l2 == (CRLF + n2 + sep) + v2 + (CRLF + l3);
    var l1 := n1 + sep + v1 + CRLF + l2;
    assert start + CRLF + l1 == (start + CRLF + n1 + sep) + v1 + (CRLF + l2);
    assert CRLF + l3 + HEAD_END == CRLF + n3 + sep + v3 + HEAD_END;
    assert start + CRLF + l1 + HEAD_END
      == (start + CRLF + n1 + sep) + v1 + (CRLF + n2 + sep) + v2 + (CRLF + l3 + HEAD_END);
  }

  lemma ThreeLines(a: (bytes, bytes), b: (bytes, bytes), c: (bytes, bytes))
    ensures FieldLines([a, b, c]) == [a.0 + [58, 32] + a.1, b.0 + [58, 32] + b.1, c.0 + [58, 32] + c.1]
  {
    assert [a, b, c][1..] == [b, c] && [b, c][1..] == [c] && [c][1..] == [];
    assert FieldLines([c]) == [c.0 + [58, 32] + c.1] + FieldLines([]);
    assert FieldLines([b, c]) == [b.0 + [58, 32] + b.1] + FieldLines([c]);
  }

  lemma FourJoined(a: bytes, b: bytes, c: bytes, d: bytes)
    ensures JoinLines([a] + [b, c, d]) == a + CRLF + (b + CRLF + (c + CRLF + d))
  {
    assert [a] + [b, c, d] == [a, b, c, d];
    assert [a, b, c, d][1..] == [b, c, d] && [b, c, d][1..] == [c, d] && [c, d][1..] == [d];
    assert JoinLines([d]) == d;
    assert JoinLines([c, d]) == c + CRLF + JoinLines([d]);
    assert JoinLines([b, c, d]) == b + CRLF + JoinLines([c, d]);
  }

  /** The literal parts of the head, in the pieces they are built from. */
  lemma HeadTexts()
    ensures Ascii("HTTP/1.0 200 OK\r\nContent-Type: ")
      == Ascii("HTTP/1.0 200 OK") + CRLF + Ascii("Content-Type") + [58, 32]
    ensures Ascii("\r\nContent-Length: ") == CRLF + Ascii("Content-Length") + [58, 32]
    ensures Ascii("\r\nConnection: close\r\n\r\n") == CRLF + Ascii("Connection") + [58, 32] + Ascii("close") + HEAD_END
  {
    hide Ascii;
    Punctuation();
    AsciiAppend("HTTP/1.0 200 OK", "\r\n");
    AsciiAppend("HTTP/1.0 200 OK" + "\r\n", "Content-Type");
    AsciiAppend("HTTP/1.0 200 OK" + "\r\n" + "Content-Type", ": ");
    assert "HTTP/1.0 200 OK" + "\r\n" + "Content-Type" + ": " == "HTTP/1.0 200 OK\r\nContent-Type: ";
    AsciiAppend("\r\n", "Content-Length");
    AsciiAppend("\r\n" + "Content-Length", ": ");
    assert "\r\n" + "Content-Length" + ": " == "\r\nContent-Length: ";
    AsciiAppend("\r\n", "Connection");
    AsciiAppend("\r\n" + "Connection", ": ");
    AsciiAppend("\r\n" + "Connection" + ": ", "close");
    AsciiAppend("\r\n" + "Connection" + ": " + "close", "\r\n\r\n");
    assert "\r\n" + "Connection" + ": " + "close" + "\r\n\r\n" == "\r\nConnection: close\r\n\r\n";
  }

  lemma Punctuation()
    ensures Ascii("\r\n") == CRLF && Ascii(": ") == [58, 32] && Ascii("\r\n\r\n") == HEAD_END
  {
  }

  lemma AsciiAppend(a: string, b: string)
    ensures Ascii(a + b) == Ascii(a) + Ascii(b)
  {
  }

  /** The body of a reply, as its head announces it. */
  function ReplyBody(reply: bytes): Option<bytes> {
    var idx := Index(reply, HEAD_END, 0);
    if idx < 0 then None
    else
      var n := Atoi(Get(Fold(SplitLines(reply[..idx])[1..]), CONTENT_LENGTH));
      var body := reply[idx + 4..];
      if 0 <= n <= |body| then Some(body[..n]) else None
  }

  lemma ReplyHeaderGood(contentType: bytes, length: nat)
    requires TrimSpace(contentType) == contentType && 13 !in contentType
    ensures GoodHeader(ReplyHeader(contentType, length))
    ensures Get(ReplyHeader(contentType, length), CONTENT_LENGTH) == Decimal(length)
  {
    hide TrimSpace, Word, Lower;
    var header := ReplyHeader(contentType, length);
    NameIsContentLength();
    AsciiWord(Ascii("Content-Type"));
    AsciiWord(Ascii("Connection"));
    AsciiWord(Ascii("close"));
    TrimWord(Ascii("close"));
    DecimalWord(length);
    TrimWord(Decimal(length));
    NoReturnInWord(Decimal(length));
    NoReturnInWord(Ascii("close"));
    assert header[1..][0] == header[1];
    assert Get(header, CONTENT_LENGTH) == Get(header[1..], CONTENT_LENGTH);
  }

  /** The announced length is the body's, so a client that keeps to it reads the
      whole body, exactly as long as the length fits the integer it is read into. */
  lemma ResponseReadsIff(contentType: bytes, body: bytes)
    requires TrimSpace(contentType) == contentType && 13 !in contentType
    ensures ReplyBody(HttpResponse(contentType, body)) == Some(body) <==> |body| <= MAX_INT64
  {
    hide Index, SplitLines, Fold, Get, Atoi, TrimSpace, GoodHeader, Message, ReplyHeader;
    ReplyHeaderGood(contentType, |body|);
    MessageReads(Ascii("HTTP/1.0 200 OK"), ReplyHeader(contentType, |body|), body);
    AtoiDecimal(|body|);
    var n := Min(|body|, MAX_INT64);
    assert ReplyBody(HttpResponse(contentType, body)) == Some(body[..n]);
    assert n == |body| ==> body[..n] == body;
  }
}
