// Serving one HTTP request over an established connection (tls10.go:576-621),
// and a whole session between an honest client and the server.
module Session {
  import opened Bytes
  import opened Results
  import opened Primitives
  import opened Record
  import opened Channel
  import opened Hello
  import opened Messages
  import opened Handshake
  import opened HandshakeRuns
  import opened Client
  import opened Http

  /** The next application data; an alert ends the stream, other records are skipped. */
  function ReadAppData(p: Crypto, c: Conn): (o: Outcome<bytes>)
    requires c.Valid()
    ensures o.conn.Valid() && (o.Done? ==> |o.conn.inbox| < |c.inbox|)
    decreases |c.inbox|
  {
    var (rec, c1) :- Read(p, c);
    if rec.contentType == CT_APPLICATION_DATA then Done(rec.content, c1)
    else if rec.contentType == CT_ALERT then Failed(Eof, c1)
    else ReadAppData(p, c1)
  }

  function SendAll(p: Crypto, c: Conn, recs: seq<Rec>): (c': Conn)
    requires c.Valid()
    ensures c'.Valid()
  {
    var (wire, wr) := WriteAll(p, c.wr, recs);
    c.(outbox := c.outbox + wire, wr := wr)
  }

  function AppRecs(parts: seq<bytes>): (recs: seq<Rec>)
    ensures |recs| == |parts|
  {
    seq(|parts|, i requires 0 <= i < |parts| => Rec(CT_APPLICATION_DATA, parts[i]))
  }

  /** serveHTTP from a buffer on; `answer` stands for dispatch. */
  function ServeHttp(p: Crypto, answer: Request -> bytes, c: Conn, buf: bytes): (o: Outcome<()>)
    requires c.Valid()
    ensures o.conn.Valid()
    decreases |c.inbox|
  {
    var (chunk, c1) :- ReadAppData(p, c);
    var more := buf + chunk;
    match Parse(more)
    case Incomplete => ServeHttp(p, answer, c1, more)
    case OutOfRange => Failed(IndexOutOfRange, c1)
    case Complete(req) => Done((), SendAll(p, c1, AppRecs(Fragments(answer(req)))))
  }

  /** The server on all of a client's bytes: handshake, then one request. */
  function Serve(p: Crypto, s: Offer, answer: Request -> bytes, c: Conn): (o: Outcome<()>)
    requires s.Valid() && c.Valid()
    ensures o.conn.Valid()
  {
    var (_, c1) :- RunHandshake(p, s, c);
    ServeHttp(p, answer, c1, [])
  }

  /** What a client that keeps the record limit sends, as application data. */
  predicate Sendable(chunks: seq<bytes>) {
    forall i :: 0 <= i < |chunks| ==> |chunks[i]| <= MAX_PLAINTEXT
  }

  /** The application data among some records. */
  function AppData(recs: seq<Rec>): bytes {
    if recs == [] then []
    else (if recs[0].contentType == CT_APPLICATION_DATA then recs[0].content else []) + AppData(recs[1..])
  }

  lemma {:induction false} AppDataAppend(a: seq<Rec>, b: seq<Rec>)
    ensures AppData(a + b) == AppData(a) + AppData(b)
  {
    if a == [] {
      assert a + b == b;
    } else {
      assert (a + b)[1..] == a[1..] + b;
      AppDataAppend(a[1..], b);
    }
  }

  /** Application data are the contents of the records of type 23, in order. */
  lemma AppDataIs(recs: seq<Rec>, r: Rec)
    ensures AppData([]) == [] && AppData(recs + [r]) == AppData(recs) + if r.contentType == 23 then r.content else []
  {
    AppDataAppend(recs, [r]);
    assert [r][1..] == [];
    assert AppData([r]) == (if r.contentType == 23 then r.content else []) + AppData([]);
  }

  /** The records before the first alert, where the server stops reading. */
  function BeforeAlert(recs: seq<Rec>): (before: seq<Rec>)
    ensures before <= recs && forall i :: 0 <= i < |before| ==> before[i].contentType != 21
    ensures |before| < |recs| ==> recs[|before|].contentType == 21
  {
    if recs == [] || recs[0].contentType == CT_ALERT then [] else [recs[0]] + BeforeAlert(recs[1..])
  }

  /** The application data a server on this connection can read. */
  function DataRead(p: Crypto, c: Conn): bytes
    requires c.Valid()
  {
    AppData(BeforeAlert(Receive(p, c.rd, c.inbox).records))
  }

  /** How serving ends when all the readable data parse like this: a complete
      request is answered, and nothing is sent otherwise. */
  predicate ServedAs(p: Crypto, answer: Request -> bytes, c: Conn, parsed: Parsed, o: Outcome<()>)
    requires c.Valid()
  {
    match parsed
    case Complete(req) =>
      var sent := SendAll(p, c, AppRecs(Fragments(answer(req))));
      o.Done? && o.conn.outbox == sent.outbox && o.conn.wr == sent.wr
    case OutOfRange =>
      o.Result() == Err(IndexOutOfRange) && o.conn.outbox == c.outbox && o.conn.wr == c.wr
    case Incomplete =>
      o.Failed? && o.error != IndexOutOfRange && o.conn.outbox == c.outbox && o.conn.wr == c.wr
  }

  lemma ServeStep(p: Crypto, answer: Request -> bytes, c: Conn, buf: bytes)
    requires c.Valid()
    ensures var o := Read(p, c);
      ServeHttp(p, answer, c, buf) ==
        if o.Failed? then Failed(o.error, o.conn)
        else if o.value.contentType == CT_ALERT then Failed(Eof, o.conn)
        else if o.value.contentType != CT_APPLICATION_DATA then ServeHttp(p, answer, o.conn, buf)
        else match Parse(buf + o.value.content)
             case Incomplete => ServeHttp(p, answer, o.conn, buf + o.value.content)
             case OutOfRange => Failed(IndexOutOfRange, o.conn)
             case Complete(req) => Done((), SendAll(p, o.conn, AppRecs(Fragments(answer(req)))))
  {
    hide Parse, Read, Fragments, SendAll;
  }

  lemma DataStep(p: Crypto, c: Conn)
    requires c.Valid()
    ensures var o := Read(p, c);
      DataRead(p, c) ==
        if o.Failed? || o.value.contentType == CT_ALERT then []
        else (if o.value.contentType == CT_APPLICATION_DATA then o.value.content else []) + DataRead(p, o.conn)
  {
    hide ReadRecord;
    var o := Read(p, c);
    if o.Done? {
      var later := Receive(p, o.conn.rd, o.conn.inbox).records;
      var records := [o.value] + later;
      assert Receive(p, c.rd, c.inbox).records == records && records[1..] == later;
      var before := [o.value] + BeforeAlert(later);
      assert before[1..] == BeforeAlert(later);
    }
  }

  /** Whatever arrives and however it is cut, serving ends as one parse of all
      the readable data says. */
  lemma {:induction false} ServeOutcome(p: Crypto, answer: Request -> bytes, c: Conn, buf: bytes)
    requires c.Valid() && Parse(buf).Incomplete?
    ensures ServedAs(p, answer, c, Parse(buf + DataRead(p, c)), ServeHttp(p, answer, c, buf))
    decreases |c.inbox|
  {
    hide Parse, ReadRecord, Fragments, ServeHttp, WriteAll, DataRead;
    ServeStep(p, answer, c, buf);
    DataStep(p, c);
    ReadFailure(p, c.rd, c.inbox);
    assert buf + [] == buf;
    var o := Read(p, c);
    if o.Done? && o.value.contentType != CT_ALERT {
      var later := DataRead(p, o.conn);
      if o.value.contentType != CT_APPLICATION_DATA {
        assert [] + later == later;
        ServeOutcome(p, answer, o.conn, buf);
      } else {
        var more := buf + o.value.content;
        assert buf + (o.value.content + later) == more + later;
        if Parse(more).Incomplete? {
          ServeOutcome(p, answer, o.conn, more);
        } else {
          ParseStable(more, later);
        }
      }
    }
  }

  // ---- from an honest writer ----

  lemma {:induction false} AppRecsData(chunks: seq<bytes>)
    ensures AppData(BeforeAlert(AppRecs(chunks))) == Concat(chunks)
  {
    if chunks != [] {
      AppRecsFirst(chunks);
      AppRecsData(chunks[1..]);
      var recs, later := AppRecs(chunks), AppRecs(chunks[1..]);
      assert recs[1..] == later;
      var before := [recs[0]] + BeforeAlert(later);
      assert before[1..] == BeforeAlert(later);
    }
  }

  lemma AppRecsFirst(parts: seq<bytes>)
    requires parts != []
    ensures AppRecs(parts) == [Rec(CT_APPLICATION_DATA, parts[0])] + AppRecs(parts[1..])
  {
  }

  lemma SendableFits(d: Direction, chunks: seq<bytes>)
    requires Sendable(chunks)
    ensures AllFit(d, AppRecs(chunks))
  {
    forall i | 0 <= i < |chunks| ensures PayloadLen(d, |AppRecs(chunks)[i].content|) <= MAX_FRAGMENT {
      WithinPlaintextFits(d, |chunks[i]|);
    }
  }

  /** However a client cuts its stream into records, the server does what one
      parse of the whole stream asks for. */
  lemma {:induction false} AnswersWholeRequest(p: Crypto, answer: Request -> bytes, c: Conn, chunks: seq<bytes>)
    requires c.Valid() && Sendable(chunks) && c.inbox == WriteAll(p, c.rd, AppRecs(chunks)).0
    ensures ServedAs(p, answer, c, Parse(Concat(chunks)), ServeHttp(p, answer, c, []))
  {
    hide Parse, ServeHttp, Receive, WriteAll, ServedAs, AppRecs, Sendable;
    var (wire, d) := WriteAll(p, c.rd, AppRecs(chunks));
    SendableFits(c.rd, chunks);
    RoundTrip(p, c.rd, AppRecs(chunks), []);
    ReceiveNothing(p, d);
    assert wire + [] == wire && AppRecs(chunks) + [] == AppRecs(chunks);
    AppRecsData(chunks);
    EmptyIsIncomplete();
    assert [] + Concat(chunks) == Concat(chunks);
    ServeOutcome(p, answer, c, []);
  }

  // ---- under attack ----

  /** Whatever is done to the record stream on its way, short of forging a MAC,
      the server does what the client's own data ask for, or it sends nothing. */
  lemma {:induction false} AnswersOnlyTheClient(p: Crypto, answer: Request -> bytes, c: Conn,
                                                writer: Direction, written: seq<Rec>)
    requires c.Valid() && c.rd.active && writer.Valid() && writer.active
    requires c.rd.seqNo == writer.seqNo && |written| < TWO_64
    requires Unforged(p, c.rd, c.inbox, writer, written)
    ensures var o := ServeHttp(p, answer, c, []);
      ServedAs(p, answer, c, Parse(AppData(written)), o) || ServedAs(p, answer, c, Incomplete, o)
  {
    hide Parse, ServeHttp, Unforged, Receive, ServedAs;
    EmptyIsIncomplete();
    ServeOutcome(p, answer, c, []);
    DeliversPrefix(p, c.rd, c.inbox, writer, written);
    var read := BeforeAlert(Receive(p, c.rd, c.inbox).records);
    var more := written[|read|..];
    assert written == read + more;
    AppDataAppend(read, more);
    assert [] + AppData(read) == AppData(read);
    if !Parse(AppData(read)).Incomplete? {
      ParseStable(AppData(read), AppData(more));
    }
  }

  /** The same for a whole connection: once an honest client has sent its
      Finished, let anything at all arrive in place of its application data.
      Short of forgery the handshake still completes, and the server answers the
      client's own request with the client's keys or sends nothing more. */
  lemma {:induction false} HonestClientProtected(p: Crypto, s: Offer, ch: Choice, answer: Request -> bytes,
                                                 stream: bytes, written: seq<Rec>)
    requires Willing(p, s, ch) && |written| < TWO_64
    requires Unforged(p, Prepare(p, s, ch).sent.wr, stream, Prepare(p, s, ch).sent.wr, written)
    ensures
      var inbox := Prepare(p, s, ch).sent.outbox + stream;
      var server := RunHandshake(p, s, Fresh(inbox));
      var o := Serve(p, s, answer, Fresh(inbox));
      && server.Done? && server.conn.rd == Prepare(p, s, ch).sent.wr
      && (|| ServedAs(p, answer, server.conn, Parse(AppData(written)), o)
          || ServedAs(p, answer, server.conn, Incomplete, o))
  {
    hide RunHandshake, Prepare, Finish, Parse, ServeHttp, Unforged, ServedAs;
    HonestHandshakeCompletes(p, s, ch, stream);
    var sent := Prepare(p, s, ch).sent;
    var server := RunHandshake(p, s, Fresh(sent.outbox + stream)).conn;
    AnswersOnlyTheClient(p, answer, server, sent.wr, written);
  }

  // ---- slicing out of range ----

  /** A whole connection slices out of range exactly when it begins with a v3
      hello of 38 bytes, or when the data read after a genuine handshake hold a
      complete head with a negative Content-Length. */
  lemma {:induction false} ServeOutOfRangeIff(p: Crypto, s: Offer, answer: Request -> bytes, inbox: bytes)
    requires s.Valid()
    ensures Serve(p, s, answer, Fresh(inbox)).Result() == Err(IndexOutOfRange) <==>
      (|| (exists version, hello, more :: ShortV3Hello(inbox, version, hello, more))
       || (exists f, rest :: Genuine(p, s, f) && inbox == Wire(f) + rest &&
             Parse(DataRead(p, Established(p, s, f, rest))).OutOfRange?))
  {
    hide RunHandshake, Genuine, Established, Wire, ShortV3Hello, Parse, ServeHttp, DataRead;
    HandshakeOutOfRangeIff(p, s, inbox);
    ServesExactlyGenuineClients(p, s, inbox);
    if RunHandshake(p, s, Fresh(inbox)).Done? {
      var c := RunHandshake(p, s, Fresh(inbox)).conn;
      EmptyIsIncomplete();
      ServeOutcome(p, answer, c, []);
      assert [] + DataRead(p, c) == DataRead(p, c);
    }
  }

  // ---- the reply ----

  /** A mirrored peer reads back exactly the reply, in order and whole. */
  lemma {:induction false} PeerReadsReply(p: Crypto, c: Conn, peer: Direction, resp: bytes)
    requires c.Valid() && peer == c.wr && resp != []
    ensures var sent := SendAll(p, c, AppRecs(Fragments(resp)));
      && c.outbox <= sent.outbox
      && Receive(p, peer, sent.outbox[|c.outbox|..]) == Reception(AppRecs(Fragments(resp)), sent.wr, Eof)
      && Concat(Fragments(resp)) == resp
  {
    hide Receive, WriteAll, Fragments, AppRecs;
    FragmentsCarryReply(resp);
    SendableFits(c.wr, Fragments(resp));
    var recs := AppRecs(Fragments(resp));
    var (wire, d) := WriteAll(p, c.wr, recs);
    RoundTrip(p, c.wr, recs, []);
    ReceiveNothing(p, d);
    assert wire + [] == wire && recs + [] == recs;
    assert (c.outbox + wire)[|c.outbox|..] == wire;
  }

  /** A whole session. An honest client shakes hands, sends one request cut into
      records as it likes, and reads: it gets exactly the answer to that request. */
  lemma {:induction false} SessionDelivers(p: Crypto, s: Offer, ch: Choice,
                                           answer: Request -> bytes, chunks: seq<bytes>)
    requires Willing(p, s, ch)
    requires Sendable(chunks) && Parse(Concat(chunks)).Complete? && answer(Parse(Concat(chunks)).req) != []
    ensures
      var h := Prepare(p, s, ch);
      var requested := SendAll(p, h.sent, AppRecs(chunks));
      var greeted := RunHandshake(p, s, Fresh(requested.outbox)).conn.outbox;
      var served := Serve(p, s, answer, Fresh(requested.outbox));
      && served.Done? && h.flight <= greeted <= served.conn.outbox
      && var client := Finish(p, h.sent.(inbox := greeted[|h.flight|..]), h.master);
      var reply := answer(Parse(Concat(chunks)).req);
      && client.Done?
      && Receive(p, client.conn.rd, served.conn.outbox[|greeted|..])
           == Reception(AppRecs(Fragments(reply)), served.conn.wr, Eof)
      && Concat(Fragments(reply)) == reply
  {
    hide RunHandshake, Prepare, Finish, Receive, Parse, Fragments, AppRecs, WriteAll, ServeHttp;
    var h := Prepare(p, s, ch);
    var rest := WriteAll(p, h.sent.wr, AppRecs(chunks)).0;
    HonestHandshakeCompletes(p, s, ch, rest);
    var server := RunHandshake(p, s, Fresh(h.sent.outbox + rest)).conn;
    AnswersWholeRequest(p, answer, server, chunks);
    PeerReadsReply(p, server, server.wr, answer(Parse(Concat(chunks)).req));
  }

  /** What the client of such a session reads, taken together. */
  function Heard(p: Crypto, s: Offer, ch: Choice, answer: Request -> bytes, chunks: seq<bytes>): bytes
    requires Willing(p, s, ch)
    requires Sendable(chunks) && Parse(Concat(chunks)).Complete? && answer(Parse(Concat(chunks)).req) != []
  {
    SessionDelivers(p, s, ch, answer, chunks);
    var h := Prepare(p, s, ch);
    var requested := SendAll(p, h.sent, AppRecs(chunks)).outbox;
    var greeted := RunHandshake(p, s, Fresh(requested)).conn.outbox;
    var served := Serve(p, s, answer, Fresh(requested)).conn.outbox;
    var client := Finish(p, h.sent.(inbox := greeted[|h.flight|..]), h.master).conn;
    AppData(Receive(p, client.rd, served[|greeted|..]).records)
  }

  lemma {:induction false} HeardIsReply(p: Crypto, s: Offer, ch: Choice, answer: Request -> bytes, chunks: seq<bytes>)
    requires Willing(p, s, ch)
    requires Sendable(chunks) && Parse(Concat(chunks)).Complete? && answer(Parse(Concat(chunks)).req) != []
    ensures Heard(p, s, ch, answer, chunks) == answer(Parse(Concat(chunks)).req)
  {
    hide RunHandshake, Prepare, Finish, Receive, Parse, Fragments, AppRecs, SendAll, Serve;
    SessionDelivers(p, s, ch, answer, chunks);
    AppRecsAppData(Fragments(answer(Parse(Concat(chunks)).req)));
  }

  lemma {:induction false} AppRecsAppData(chunks: seq<bytes>)
    ensures AppData(AppRecs(chunks)) == Concat(chunks)
  {
    if chunks != [] {
      AppRecsFirst(chunks);
      AppRecsAppData(chunks[1..]);
      assert AppRecs(chunks)[1..] == AppRecs(chunks[1..]);
    }
  }
}
