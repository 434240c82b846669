// Reading a DNS question and building the answer (dns.go:106-186; RFC 1035
// section 4.1). The two functions scan the question name independently.
module DnsMessage {
  import opened Bytes
  import opened Results
  import opened Text

  // ---- the two scanners ----

  /** parseQuestion's loop: the labels from pos, and where the name ends. */
  function ScanName(msg: bytes, pos: nat): (r: Option<(seq<bytes>, nat)>)
    ensures r.Some? ==> pos < r.value.1 <= |msg|
    decreases |msg| - pos
  {
    if pos >= |msg| then None
    else
      var l := msg[pos] as int;
      if l == 0 then Some(([], pos + 1))
      else if l >= 0x40 then None
      else if pos + 1 + l > |msg| then None
      else
        match ScanName(msg, pos + 1 + l)
        case None => None
        case Some((labels, end)) => Some(([msg[pos + 1..pos + 1 + l]] + labels, end))
  }

  /** buildAResponse's loop: it only follows the length bytes. */
  function SkipName(msg: bytes, pos: nat): (r: Option<nat>)
    ensures r.Some? ==> pos < r.value <= |msg|
    decreases |msg| - pos
  {
    if pos >= |msg| then None
    else
      var l := msg[pos] as int;
      if l == 0 then Some(pos + 1) else SkipName(msg, pos + 1 + l)
  }

  datatype Question = Question(name: bytes, qtype: nat)

  function ParseQuestion(msg: bytes): Option<Question> {
    if |msg| < 12 || FromBE(msg[4..6]) < 1 then None
    else
      match ScanName(msg, 12)
      case None => None
      case Some((labels, end)) =>
        if end + 4 > |msg| then None else Some(Question(JoinDots(labels), FromBE(msg[end..end + 2])))
  }

  method ParseQuestionLoop(msg: bytes) returns (r: Option<Question>)
    ensures r == ParseQuestion(msg)
  {
    if |msg| < 12 {
      return None;
    }
    var qdcount := FromBE(msg[4..6]);
    if qdcount < 1 {
      return None;
    }
    var pos := 12;
    var labels: seq<bytes> := [];
    ghost var whole := ScanName(msg, 12);
    assert whole.Some? ==> [] + whole.value.0 == whole.value.0;
    while true
      invariant 12 <= pos
      invariant Rest(labels, ScanName(msg, pos)) == whole
      decreases |msg| - pos
    {
      if pos >= |msg| {
        return None;
      }
      var l := msg[pos] as int;
      if l == 0 {
        pos := pos + 1;
        break;
      }
      if l >= 0x40 {
        return None;
      }
      if pos + 1 + l > |msg| {
        return None;
      }
      RestStep(labels, msg[pos + 1..pos + 1 + l], ScanName(msg, pos + 1 + l));
      labels := labels + [msg[pos + 1..pos + 1 + l]];
      pos := pos + 1 + l;
    }
    assert whole == Some((labels, pos)) by {
      assert labels + [] == labels;
    }
    if pos + 4 > |msg| {
      return None;
    }
    return Some(Question(JoinDots(labels), FromBE(msg[pos..pos + 2])));
  }

  /** A scan that has these labels already and goes on like r. */
  function Rest(labels: seq<bytes>, r: Option<(seq<bytes>, nat)>): Option<(seq<bytes>, nat)> {
    match r
    case None => None
    case Some((more, end)) => Some((labels + more, end))
  }

  lemma RestStep(labels: seq<bytes>, l: bytes, r: Option<(seq<bytes>, nat)>)
    ensures Rest(labels + [l], r) == Rest(labels, Rest([l], r))
  {
    if r.Some? {
      assert labels + ([l] + r.value.0) == labels + [l] + r.value.0;
    }
  }

  // ---- the answer ----

  /** net.IP.To4: 4 bytes as they are, 16 bytes when they map an IPv4 address. */
  function To4(ip: bytes): (r: Option<bytes>)
    ensures r.Some? ==> |r.value| == 4
  {
    if |ip| == 4 then Some(ip)
    else if |ip| == 16 && ip[..12] == Zeros(10) + [0xff, 0xff] then Some(ip[12..])
    else None
  }

  /** An address has this IPv4 form exactly when it is these four bytes, or they
      follow the 12 bytes that map IPv4 into IPv6. */
  lemma To4Iff(ip: bytes, a: bytes)
    ensures To4(ip) == Some(a) <==>
      |a| == 4 && (ip == a || ip == [0, 0, 0, 0, 0, 0, 0, 0, 0, 0, 0xff, 0xff] + a)
  {
    var mapped: bytes := [0, 0, 0, 0, 0, 0, 0, 0, 0, 0, 0xff, 0xff];
    assert Zeros(10) + [0xff, 0xff] == mapped;
    if |ip| == 16 {
      assert ip == ip[..12] + ip[12..];
      assert (mapped + a)[..12] == mapped && (mapped + a)[12..] == a;
    }
  }

  datatype Built = Answered(resp: bytes) | NotIPv4 | Malformed | Truncated

  /** Pointer to the name, type A, class IN, TTL 300, 4 bytes of address. */
  function AnswerRecord(ip4: bytes): bytes {
    [0xc0, 0x0c, 0x00, 0x01, 0x00, 0x01, 0x00, 0x00, 0x01, 0x2c, 0x00, 0x04] + ip4
  }

  function Response(query: bytes, qEnd: nat, ip4: bytes): bytes
    requires 12 <= qEnd <= |query|
  {
    query[..2] + [0x81, 0x80] + query[4..6] + [0, 1, 0, 0, 0, 0] + query[12..qEnd] + AnswerRecord(ip4)
  }

  function AResponse(query: bytes, ip: bytes): Built {
    match To4(ip)
    case None => NotIPv4
    case Some(ip4) =>
      match SkipName(query, 12)
      case None => Malformed
      case Some(end) => if end + 4 > |query| then Truncated else Answered(Response(query, end + 4, ip4))
  }

  method BuildAResponse(query: bytes, ip: bytes) returns (r: Built)
    ensures r == AResponse(query, ip)
  {
    var ip4 := To4(ip);
    if ip4.None? {
      return NotIPv4;
    }
    hide Response, To4;
    var qEnd := 12;
    while true
      invariant 12 <= qEnd
      invariant SkipName(query, qEnd) == SkipName(query, 12)
      decreases |query| - qEnd
    {
      if qEnd >= |query| {
        return Malformed;
      }
      var l := query[qEnd] as int;
      qEnd := qEnd + 1;
      if l == 0 {
        break;
      }
      qEnd := qEnd + l;
    }
    qEnd := qEnd + 4;
    if qEnd > |query| {
      return Truncated;
    }

    var resp := Finish(query, qEnd, ip4.value);
    r := Answered(resp);
  }

  /** The end of buildAResponse: a copy of the header and question, updated in
      place, and the answer record. */
  method Finish(query: bytes, qEnd: nat, ip4: bytes) returns (result: bytes)
    requires 12 <= qEnd <= |query| && |ip4| == 4
    ensures result == Response(query, qEnd, ip4)
  {
    hide Response, AnswerRecord;
    var resp := new byte[qEnd](i requires 0 <= i < qEnd => query[i]);
    resp[2] := 0x81;  // 0x81 | (query[2] & 0x01)
    resp[3] := 0x80;
    resp[6], resp[7] := 0, 1;
    resp[8], resp[9] := 0, 0;
    resp[10], resp[11] := 0, 0;
    HeaderSet(query, resp[..], qEnd, ip4);
    result := resp[..] + AnswerRecord(ip4);
  }

  lemma HeaderSet(query: bytes, resp: bytes, qEnd: nat, ip4: bytes)
    requires 12 <= qEnd == |resp| <= |query|
    requires resp[0] == query[0] && resp[1] == query[1] && resp[2] == 0x81 && resp[3] == 0x80
    requires resp[4] == query[4] && resp[5] == query[5]
    requires resp[6] == 0 && resp[7] == 1 && resp[8] == 0 && resp[9] == 0 && resp[10] == 0 && resp[11] == 0
    requires forall i :: 12 <= i < qEnd ==> resp[i] == query[i]
    ensures resp + AnswerRecord(ip4) == Response(query, qEnd, ip4)
  {
    hide AnswerRecord;
    assert resp == query[..2] + [0x81, 0x80] + query[4..6] + [0, 1, 0, 0, 0, 0] + query[12..qEnd];
  }

  // ---- agreement of the scanners ----

  /** Where the strict scanner succeeds, the loose one stops at the same place. */
  lemma {:induction false} ScannersAgree(msg: bytes, pos: nat)
    ensures ScanName(msg, pos).Some? ==> SkipName(msg, pos) == Some(ScanName(msg, pos).value.1)
    decreases |msg| - pos
  {
    if pos < |msg| && 0 < msg[pos] < 0x40 {
      ScannersAgree(msg, pos + 1 + msg[pos] as int);
    }
  }

  /** The strict scan looks at nothing past the name's end. */
  lemma {:induction false} ScanLocal(a: bytes, b: bytes, pos: nat)
    requires ScanName(a, pos).Some?
    requires var end := ScanName(a, pos).value.1; end <= |b| && a[pos..end] == b[pos..end]
    ensures ScanName(b, pos) == ScanName(a, pos)
    decreases |a| - pos
  {
    var end := ScanName(a, pos).value.1;
    Subslice(a, pos, end, pos, pos + 1);
    Subslice(b, pos, end, pos, pos + 1);
    assert a[pos] == a[pos..pos + 1][0] && b[pos] == b[pos..pos + 1][0];
    var l := a[pos] as int;
    if l > 0 {
      var next := pos + 1 + l;
      Subslice(a, pos, end, next, end);
      Subslice(b, pos, end, next, end);
      ScanLocal(a, b, next);
      Subslice(a, pos, end, pos + 1, next);
      Subslice(b, pos, end, pos + 1, next);
    }
  }

  /** A question that can be read can be answered: the answer keeps the ID and
      the question, counts one answer, is 16 bytes longer, and reads back as the
      same question. */
  lemma ReadableIsAnswerable(query: bytes, ip: bytes)
    requires ParseQuestion(query).Some? && To4(ip).Some?
    ensures var r := AResponse(query, ip);
      var end := ScanName(query, 12).value.1;
      && r.Answered?
      && |r.resp| == end + 4 + 16
      && r.resp[..2] == query[..2] && r.resp[4..6] == query[4..6] && r.resp[12..end + 4] == query[12..end + 4]
      && r.resp[2..4] == [0x81, 0x80] && r.resp[6..12] == [0, 1, 0, 0, 0, 0]
      && r.resp[end + 4..] == AnswerRecord(To4(ip).value)
      && ParseQuestion(r.resp) == ParseQuestion(query)
  {
    hide Response, FromBE, AnswerRecord, JoinDots;
    ScannersAgree(query, 12);
    var end := ScanName(query, 12).value.1;
    var ip4 := To4(ip).value;
    var resp := Response(query, end + 4, ip4);
    ResponseParts(query, end + 4, ip4);
    Subslice(query, 12, end + 4, 12, end);
    Subslice(resp, 12, end + 4, 12, end);
    ScanLocal(query, resp, 12);
    Subslice(query, 12, end + 4, end, end + 2);
    Subslice(resp, 12, end + 4, end, end + 2);
  }

  lemma ResponseParts(query: bytes, qEnd: nat, ip4: bytes)
    requires 12 <= qEnd <= |query| && |ip4| == 4
    ensures var r := Response(query, qEnd, ip4);
      && |r| == qEnd + 16
      && r[..2] == query[..2] && r[4..6] == query[4..6] && r[12..qEnd] == query[12..qEnd]
      && r[2..4] == [0x81, 0x80] && r[6..12] == [0, 1, 0, 0, 0, 0]
      && r[qEnd..] == AnswerRecord(ip4)
  {
  }

  // ---- encoding names ----

  predicate Legal(labels: seq<bytes>) {
    forall i :: 0 <= i < |labels| ==> 1 <= |labels[i]| < 0x40
  }

  /** Labels whose lengths fit a length byte. */
  predicate Encodable(labels: seq<bytes>) {
    forall i :: 0 <= i < |labels| ==> 1 <= |labels[i]| < 0x100
  }

  function EncodeName(labels: seq<bytes>): bytes
    requires Encodable(labels)
  {
    if labels == [] then [0] else [|labels[0]|] + labels[0] + EncodeName(labels[1..])
  }

  /** The scan accepts exactly the encodings of lists of 1 to 63 byte labels. */
  lemma {:induction false} ScanIff(msg: bytes, pos: nat, labels: seq<bytes>, end: nat)
    requires pos <= end <= |msg|
    ensures ScanName(msg, pos) == Some((labels, end)) <==> Legal(labels) && msg[pos..end] == EncodeName(labels)
    decreases |msg| - pos
  {
    if ScanName(msg, pos) == Some((labels, end)) {
      ScanEncodes(msg, pos);
    }
    if Legal(labels) && msg[pos..end] == EncodeName(labels) {
      EncodedScans(msg, pos, labels, end);
    }
  }

  lemma {:induction false} ScanEncodes(msg: bytes, pos: nat)
    requires ScanName(msg, pos).Some?
    ensures var (labels, end) := ScanName(msg, pos).value;
      Legal(labels) && msg[pos..end] == EncodeName(labels)
    decreases |msg| - pos
  {
    var (labels, end) := ScanName(msg, pos).value;
    var l := msg[pos] as int;
    if l > 0 {
      ScanEncodes(msg, pos + 1 + l);
      assert labels[1..] == ScanName(msg, pos + 1 + l).value.0;
      CutLabel(msg, pos, l, end);
    }
  }

  lemma CutLabel(msg: bytes, pos: nat, l: nat, end: nat)
    requires pos + 1 + l <= end <= |msg|
    ensures msg[pos..end] == [msg[pos]] + msg[pos + 1..pos + 1 + l] + msg[pos + 1 + l..end]
  {
  }

  lemma {:induction false} EncodedScans(msg: bytes, pos: nat, labels: seq<bytes>, end: nat)
    requires pos <= end <= |msg| && Legal(labels) && msg[pos..end] == EncodeName(labels)
    ensures ScanName(msg, pos) == Some((labels, end))
    decreases |labels|
  {
    var name := msg[pos..end];
    assert msg[pos] == name[0];
    if labels != [] {
      var next := pos + 1 + |labels[0]|;
      assert name[1..1 + |labels[0]|] == labels[0];
      Subslice(msg, pos, end, pos + 1, next);
      assert name[1 + |labels[0]|..] == EncodeName(labels[1..]);
      Subslice(msg, pos, end, next, end);
      EncodedScans(msg, next, labels[1..], end);
      assert labels == [labels[0]] + labels[1..];
    }
  }

  /** The loose scan accepts exactly the encodings of lists of 1 to 255 byte
      labels: unlike the other it lets longer labels and pointers pass. */
  lemma {:induction false} SkipIff(msg: bytes, pos: nat, end: nat)
    requires pos <= end <= |msg|
    ensures SkipName(msg, pos) == Some(end) <==>
      exists labels :: Encodable(labels) && msg[pos..end] == EncodeName(labels)
  {
    hide EncodeName, Encodable;
    if SkipName(msg, pos) == Some(end) {
      var labels := SkipEncodes(msg, pos);
    }
    forall labels | Encodable(labels) && msg[pos..end] == EncodeName(labels)
      ensures SkipName(msg, pos) == Some(end)
    {
      EncodedSkips(msg, pos, labels, end);
    }
  }

  lemma {:induction false} SkipEncodes(msg: bytes, pos: nat) returns (labels: seq<bytes>)
    requires SkipName(msg, pos).Some?
    ensures Encodable(labels) && msg[pos..SkipName(msg, pos).value] == EncodeName(labels)
    decreases |msg| - pos
  {
    var l, end := msg[pos] as int, SkipName(msg, pos).value;
    if l == 0 {
      labels := [];
    } else {
      var more := SkipEncodes(msg, pos + 1 + l);
      labels := [msg[pos + 1..pos + 1 + l]] + more;
      assert labels[1..] == more;
      CutLabel(msg, pos, l, end);
    }
  }

  lemma {:induction false} EncodedSkips(msg: bytes, pos: nat, labels: seq<bytes>, end: nat)
    requires pos <= end <= |msg| && Encodable(labels) && msg[pos..end] == EncodeName(labels)
    ensures SkipName(msg, pos) == Some(end)
    decreases |labels|
  {
    var name := msg[pos..end];
    assert msg[pos] == name[0];
    if labels != [] {
      var next := pos + 1 + |labels[0]|;
      assert name[1 + |labels[0]|..] == EncodeName(labels[1..]);
      Subslice(msg, pos, end, next, end);
      EncodedSkips(msg, next, labels[1..], end);
    }
  }

  /** A query built for a list of labels is read as their dotted join. */
  lemma QueryParses(header: bytes, labels: seq<bytes>, qtype: nat, qclass: bytes, more: bytes)
    requires |header| == 12 && FromBE(header[4..6]) >= 1 && Legal(labels) && qtype < 0x1_0000 && |qclass| == 2
    ensures ParseQuestion(header + EncodeName(labels) + BE(qtype, 2) + qclass + more)
      == Some(Question(JoinDots(labels), qtype))
  {
    hide BE, FromBE, JoinDots, EncodeName, ScanName;
    var name := EncodeName(labels);
    var msg := header + name + BE(qtype, 2) + qclass + more;
    var end := 12 + |name|;
    QueryFields(header, name, BE(qtype, 2), qclass, more);
    EncodedScans(msg, 12, labels, end);
    Encode2(qtype);
  }

  /** A question is read exactly from messages that announce one and begin with a
      header, an encoded name and two more 16-bit fields. */
  lemma {:induction false} ParseQuestionIff(msg: bytes, q: Question)
    ensures ParseQuestion(msg) == Some(q) <==>
      exists labels, qclass, more ::
        && Legal(labels) && q.name == JoinDots(labels) && q.qtype < 0x1_0000 && |qclass| == 2
        && |msg| >= 12 && FromBE(msg[4..6]) >= 1
        && msg == msg[..12] + EncodeName(labels) + BE(q.qtype, 2) + qclass + more
  {
    hide BE, FromBE, JoinDots, EncodeName, ParseQuestion;
    if ParseQuestion(msg) == Some(q) {
      var labels, qclass, more := QuestionParts(msg, q);
    }
    forall labels, qclass, more |
      && Legal(labels) && q.name == JoinDots(labels) && q.qtype < 0x1_0000 && |qclass| == 2
      && |msg| >= 12 && FromBE(msg[4..6]) >= 1
      && msg == msg[..12] + EncodeName(labels) + BE(q.qtype, 2) + qclass + more
      ensures ParseQuestion(msg) == Some(q)
    {
      assert msg[..12][4..6] == msg[4..6];
      QueryParses(msg[..12], labels, q.qtype, qclass, more);
    }
  }

  lemma QuestionParts(msg: bytes, q: Question) returns (labels: seq<bytes>, qclass: bytes, more: bytes)
    requires ParseQuestion(msg) == Some(q)
    ensures |msg| >= 12 && FromBE(msg[4..6]) >= 1
    ensures Legal(labels) && q.name == JoinDots(labels) && q.qtype < 0x1_0000 && |qclass| == 2
    ensures msg == msg[..12] + EncodeName(labels) + BE(q.qtype, 2) + qclass + more
  {
    hide BE, FromBE, JoinDots, EncodeName, ScanName;
    var end := ScanName(msg, 12).value.1;
    labels, qclass, more := ScanName(msg, 12).value.0, msg[end + 2..end + 4], msg[end + 4..];
    ScanEncodes(msg, 12);
    EncodeDecode(msg[end..end + 2]);
    Decode2(msg[end..end + 2]);
    FiveParts(msg, end);
  }

  lemma FiveParts(msg: bytes, end: nat)
    requires 12 <= end && end + 4 <= |msg|
    ensures msg == msg[..12] + msg[12..end] + msg[end..end + 2] + msg[end + 2..end + 4] + msg[end + 4..]
  {
  }

  lemma QueryFields(header: bytes, name: bytes, qtype: bytes, qclass: bytes, more: bytes)
    requires |header| == 12 && |qtype| == 2 && |qclass| == 2
    ensures var msg := header + name + qtype + qclass + more;
      var end := 12 + |name|;
      && |msg| >= end + 4 && msg[4..6] == header[4..6] && msg[12..end] == name && msg[end..end + 2] == qtype
  {
  }

  // ---- reading the answer ----

  datatype ARecord = ARecord(name: bytes, rtype: nat, rclass: nat, ttl: nat, data: bytes)

  /** A resolver's reading of a record whose name is a compression pointer. */
  function DecodeRecord(m: bytes, pos: nat): Option<ARecord> {
    if pos + 12 > |m| || m[pos] < 0xc0 then None
    else
      match ScanName(m, FromBE([m[pos] % 0x40, m[pos + 1]]))
      case None => None
      case Some((labels, _)) =>
        var n := FromBE(m[pos + 10..pos + 12]);
        if pos + 12 + n > |m| then None
        else Some(ARecord(JoinDots(labels), FromBE(m[pos + 2..pos + 4]), FromBE(m[pos + 4..pos + 6]),
                          FromBE(m[pos + 6..pos + 10]), m[pos + 12..pos + 12 + n]))
  }

  lemma Decode4(b: bytes)
    requires |b| == 4
    ensures FromBE(b) == 0x1_0000 * FromBE(b[..2]) + FromBE(b[2..])
  {
    Decode2(b[2..]);
    assert b[..3][..2] == b[..2] && b[..3][2] == b[2];
  }

  lemma RecordFields(ip4: bytes)
    requires |ip4| == 4
    ensures var a := AnswerRecord(ip4);
      && |a| == 16 && a[0] == 0xc0 && a[1] == 0x0c && a[12..16] == ip4
      && FromBE(a[2..4]) == 1 && FromBE(a[4..6]) == 1 && FromBE(a[6..10]) == 300 && FromBE(a[10..12]) == 4
  {
    hide FromBE;
    var a := AnswerRecord(ip4);
    Decode2(a[2..4]);
    Decode2(a[4..6]);
    Decode4(a[6..10]);
    Decode2(a[6..10][..2]);
    Decode2(a[6..10][2..]);
    Decode2(a[10..12]);
  }

  /** Whichever form the rule's address has, a resolver reads the answer as an A
      record for the asked name, class IN, TTL 300, with exactly that address. */
  lemma AnswerDecodes(query: bytes, ip: bytes, a: bytes)
    requires ParseQuestion(query).Some? && |a| == 4
    requires ip == a || ip == [0, 0, 0, 0, 0, 0, 0, 0, 0, 0, 0xff, 0xff] + a
    ensures AResponse(query, ip).Answered?
    ensures var resp := AResponse(query, ip).resp;
      DecodeRecord(resp, |resp| - 16) == Some(ARecord(ParseQuestion(query).value.name, 1, 1, 300, a))
  {
    hide AResponse, JoinDots, FromBE, AnswerRecord, To4;
    To4Iff(ip, a);
    ReadableIsAnswerable(query, ip);
    var resp := AResponse(query, ip).resp;
    var end := ScanName(query, 12).value.1 + 4;
    Subslice(query, 12, end, 12, end - 4);
    Subslice(resp, 12, end, 12, end - 4);
    ScanLocal(query, resp, 12);
    RecordFields(To4(ip).value);
    assert resp[end..end + 16] == resp[end..];
    Subslice(resp, end, end + 16, end + 2, end + 4);
    Subslice(resp, end, end + 16, end + 4, end + 6);
    Subslice(resp, end, end + 16, end + 6, end + 10);
    Subslice(resp, end, end + 16, end + 10, end + 12);
    Subslice(resp, end, end + 16, end + 12, end + 16);
    assert resp[end] == resp[end..][0] && resp[end + 1] == resp[end..][1];
    Decode2([0, 0x0c]);
  }

  // ---- the whole message ----

  /** A reader of whole messages: names may end in a compression pointer (RFC
      1035 section 4.1.4). */
  function WalkName(m: bytes, pos: nat): (r: Option<nat>)
    ensures r.Some? ==> pos < r.value <= |m|
    decreases |m| - pos
  {
    if pos >= |m| then None
    else if m[pos] == 0 then Some(pos + 1)
    else if m[pos] >= 0xc0 then (if pos + 2 <= |m| then Some(pos + 2) else None)
    else if m[pos] >= 0x40 then None
    else WalkName(m, pos + 1 + m[pos] as int)
  }

  function WalkQuestions(m: bytes, pos: nat, n: nat): Option<nat>
    decreases n
  {
    if n == 0 then Some(pos)
    else
      match WalkName(m, pos)
      case None => None
      case Some(end) => if end + 4 > |m| then None else WalkQuestions(m, end + 4, n - 1)
  }

  function WalkRecords(m: bytes, pos: nat, n: nat): Option<nat>
    decreases n
  {
    if n == 0 then Some(pos)
    else
      match WalkName(m, pos)
      case None => None
      case Some(end) =>
        if end + 10 > |m| then None
        else
          var next := end + 10 + FromBE(m[end + 8..end + 10]);
          if next > |m| then None else WalkRecords(m, next, n - 1)
  }

  /** The sections announced in the header fill the message exactly. */
  predicate WellFormed(m: bytes) {
    && |m| >= 12
    && var afterQuestions := WalkQuestions(m, 12, FromBE(m[4..6]));
    && afterQuestions.Some?
    && WalkRecords(m, afterQuestions.value, FromBE(m[6..8]) + FromBE(m[8..10]) + FromBE(m[10..12])) == Some(|m|)
  }

  lemma {:induction false} WalkIsScan(m: bytes, pos: nat)
    ensures ScanName(m, pos).Some? ==> WalkName(m, pos) == Some(ScanName(m, pos).value.1)
    decreases |m| - pos
  {
    if pos < |m| && 0 < m[pos] < 0x40 {
      WalkIsScan(m, pos + 1 + m[pos] as int);
    }
  }

  /** The answer is a well-formed message exactly when the query asked one
      question: QDCOUNT is copied, but only the first question is. */
  lemma AnswerWellFormedIff(query: bytes, ip: bytes)
    requires ParseQuestion(query).Some? && To4(ip).Some?
    ensures AResponse(query, ip).Answered?
    ensures WellFormed(AResponse(query, ip).resp) <==> FromBE(query[4..6]) == 1
  {
    hide Response, AResponse, JoinDots, FromBE, AnswerRecord;
    ReadableIsAnswerable(query, ip);
    var resp := AResponse(query, ip).resp;
    var qd := FromBE(query[4..6]);
    var end := ScanName(query, 12).value.1 + 4;
    Subslice(query, 12, end, 12, end - 4);
    Subslice(resp, 12, end, 12, end - 4);
    ScanLocal(query, resp, 12);
    WalkIsScan(resp, 12);
    Subslice(resp, 6, 12, 6, 8);
    Subslice(resp, 6, 12, 8, 10);
    Subslice(resp, 6, 12, 10, 12);
    Decode2(resp[6..8]);
    Decode2(resp[8..10]);
    Decode2(resp[10..12]);
    TailBytes(resp, end, To4(ip).value);
    assert WalkQuestions(resp, 12, qd) == WalkQuestions(resp, end, qd - 1);
    if qd == 1 {
      OneRecord(resp, end);
    } else {
      ExtraQuestions(resp, end, qd - 1);
    }
  }

  lemma OneRecord(m: bytes, end: nat)
    requires |m| == end + 16 && m[end] == 0xc0 && m[end + 10] == 0 && m[end + 11] == 4
    ensures WalkRecords(m, end, 1) == Some(|m|)
  {
    Decode2(m[end + 10..end + 12]);
    assert WalkRecords(m, end + 16, 0) == Some(|m|);
  }

  lemma TailBytes(m: bytes, end: nat, ip4: bytes)
    requires |ip4| == 4 && |m| == end + 16 && m[end..] == AnswerRecord(ip4)
    ensures m[end] == 0xc0 && m[end + 6] == 0 && m[end + 10] == 0 && m[end + 11] == 4
  {
    var a := m[end..];
    assert m[end] == a[0] && m[end + 6] == a[6] && m[end + 10] == a[10] && m[end + 11] == a[11];
  }

  /** Taking the answer record for further questions never comes out even. */
  lemma ExtraQuestions(m: bytes, end: nat, n: nat)
    requires |m| == end + 16 && n >= 1
    requires m[end] == 0xc0 && m[end + 6] == 0 && m[end + 11] == 4
    ensures var after := WalkQuestions(m, end, n);
      after.Some? ==> WalkRecords(m, after.value, 1).None?
  {
    assert WalkQuestions(m, end, n) == WalkQuestions(m, end + 6, n - 1);
    assert WalkName(m, end + 16).None?;
    assert WalkName(m, end + 11).None?;
    if n > 1 {
      assert WalkQuestions(m, end + 6, n - 1) == WalkQuestions(m, end + 11, n - 2);
    }
  }
}
