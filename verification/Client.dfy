// The client the server is written for, as tls10_test.go:84-214 drives it: it
// hashes the raw body of its SSLv2 hello. Both ends of a handshake together.
module Client {
  import opened Bytes
  import opened Results
  import opened Primitives
  import opened Record
  import opened Hello
  import opened Messages
  import opened Handshake
  import opened HandshakeRuns

  /** What the client chooses. */
  datatype Choice = Choice(specs: bytes, sessionId: bytes, challenge: bytes, premaster: bytes, padding: bytes)
  {
    function HelloBody(): bytes {
      V2Body(specs, sessionId, challenge)
    }

    function Random(): bytes {
      RightJustify(challenge)
    }

    function Enc(p: Crypto): bytes {
      p.rsaEncrypt(premaster, padding)
    }

    predicate Valid(p: Crypto) {
      && Offers(specs, true) && |premaster| == 48
      && 9 + |specs| + |sessionId| + |challenge| < 0x8000
      && |KeyExchange(Enc(p))| <= MAX_FRAGMENT
    }
  }

  function Start(hello: bytes): Conn
    requires |hello| < 0x8000
  {
    Conn([], V2Wire(hello), hello, PLAIN, PLAIN)
  }

  /** Reads the server's first flight to its end; the value is the server random. */
  function ReadFlight(p: Crypto, c: Conn, random: Option<bytes>): (o: Outcome<bytes>)
    requires c.Valid()
    ensures o.conn.Valid()
    decreases |c.inbox|
  {
    var (rec, c1) :- Read(p, c);
    var body := rec.content;
    if rec.contentType != CT_HANDSHAKE || body == [] then Failed(Unexpected, c1)
    else
      var c2 := c1.(transcript := c1.transcript + body);
      if body[0] == HS_SERVER_HELLO then
        if |body| < 38 then Failed(IndexOutOfRange, c2) else ReadFlight(p, c2, Some(body[6..38]))
      else if body[0] == HS_SERVER_HELLO_DONE then
        match random
        case Some(r) => Done(r, c2)
        case None => Failed(Unexpected, c2)
      else ReadFlight(p, c2, random)
  }

  function ClientFinished(p: Crypto, master: bytes, transcript: bytes): Rec {
    Rec(CT_HANDSHAKE, [HS_FINISHED, 0, 0, 12] + VerifyData(p, master, "client finished", transcript))
  }

  /** Key exchange, change of cipher and Finished; the keys mirror the server's. */
  function Reply(p: Crypto, ch: Choice, c: Conn, serverRandom: bytes): (r: (bytes, Conn))
    requires c.Valid() && !c.wr.active && !c.rd.active
    ensures r.1.Valid() && |r.1.rd.key| == 24 && |r.1.rd.iv| == 8
  {
    var c1 := SendHandshake(p, c, KeyExchange(ch.Enc(p)));
    var master := MasterSecret(p, ch.premaster, ch.Random(), serverRandom);
    var kb := KeyBlock(p, master, ch.Random(), serverRandom);
    var c2 := c1.(wr := ClientWrites(kb).(active := false), rd := ServerWrites(kb).(active := false));
    var c3 := Send(p, c2, Rec(CT_CHANGE_CIPHER_SPEC, [1]));
    var c4 := c3.(wr := Activate(c3.wr));
    var fin := ClientFinished(p, master, c4.transcript);
    var c5 := Send(p, c4, fin);
    (master, c5.(transcript := c5.transcript + fin.content))
  }

  /** Reads and verifies the server's change of cipher and Finished. */
  function Finish(p: Crypto, c: Conn, master: bytes): (o: Outcome<()>)
    requires c.Valid() && |c.rd.key| == 24 && |c.rd.iv| == 8
    ensures o.conn.Valid()
  {
    var (ccs, c1) :- Read(p, c);
    if ccs.contentType != CT_CHANGE_CIPHER_SPEC then Failed(Unexpected, c1)
    else
      var (rec, c2) :- Read(p, c1.(rd := Activate(c1.rd)));
      var fin := rec.content;
      if rec.contentType != CT_HANDSHAKE || |fin| < 16 || fin[0] != HS_FINISHED then Failed(Unexpected, c2)
      else if fin[4..16] != VerifyData(p, master, "server finished", c.transcript) then Failed(FinishedMismatch, c2)
      else Done((), c2)
  }

  // ---- the client against the server ----

  function HonestMaster(p: Crypto, s: Offer, ch: Choice): bytes {
    MasterSecret(p, ch.premaster, ch.Random(), s.serverRandom)
  }

  function HonestKeys(p: Crypto, s: Offer, ch: Choice): (kb: bytes)
    ensures |kb| == 104
  {
    KeyBlock(p, HonestMaster(p, s, ch), ch.Random(), s.serverRandom)
  }

  function HonestFinished(p: Crypto, s: Offer, ch: Choice): (fin: Rec)
    ensures |fin.content| == 16 && fin.contentType == CT_HANDSHAKE
  {
    ClientFinished(p, HonestMaster(p, s, ch), ch.HelloBody() + FlightMessages(s) + KeyExchange(ch.Enc(p)))
  }

  /** The flight an honest client sends, as the server sees it. */
  function HonestFlight(p: Crypto, s: Offer, ch: Choice): ClientFlight
    requires |ch.HelloBody()| < 0x8000
  {
    ClientFlight(V2Wire(ch.HelloBody()), ch.HelloBody(), ch.Random(), KeyExchange(ch.Enc(p)), [1],
                 Payload(p, ClientWrites(HonestKeys(p, s, ch)), HonestFinished(p, s, ch)),
                 HonestFinished(p, s, ch).content, (VERSION, VERSION, VERSION))
  }

  lemma HelloFits(p: Crypto, ch: Choice)
    requires ch.Valid(p)
    ensures |ch.HelloBody()| < 0x8000
  {
    V2BodyParts(ch.specs, ch.sessionId, ch.challenge);
  }

  /** The key exchange gives the server the client's own secrets. */
  lemma SharedSecrets(p: Crypto, s: Offer, ch: Choice)
    requires s.Valid() && ch.Valid(p) && |ch.HelloBody()| < 0x8000
    ensures var f := HonestFlight(p, s, ch);
      && GoodKeyExchange(p, s, f.keyExchange)
      && MasterOf(p, s, f.keyExchange, f.random) == HonestMaster(p, s, ch)
      && KeysOf(p, s, f) == HonestKeys(p, s, ch)
      && BeforeFinished(s, f) == ch.HelloBody() + FlightMessages(s) + KeyExchange(ch.Enc(p))
  {
    hide MasterSecret, KeyBlock, FlightMessages, V2Wire, V2Body, RightJustify, Payload, Premaster, HonestFinished;
    PremasterRecovered(p, ch.premaster, ch.padding, s.blind);
  }

  /** Sealed and opened under the same keys, with equal states afterwards. */
  lemma FinishedOpens(p: Crypto, d: Direction, fin: Rec)
    requires d.Valid() && d.active && |fin.content| == 16
    ensures |Payload(p, d, fin)| <= MAX_FRAGMENT
    ensures Decrypt(p, d, fin.contentType, Payload(p, d, fin)) == (Ok(fin.content), WriteRecord(p, d, fin).1)
  {
    OpenSealed(p, d, fin, Filler(PadLen(|fin.content| + MAC_LEN) - 1));
  }

  lemma V2IsFramed(hello: bytes)
    requires 9 <= |hello| < 0x8000 && hello[0] == HS_CLIENT_HELLO
    ensures FramedHello(V2Wire(hello), hello) && ParseHello(V2Wire(hello), hello) == ParseV2(hello)
  {
    hide ParseV2;
  }

  lemma {:induction false} HonestFlightIsGenuine(p: Crypto, s: Offer, ch: Choice)
    requires s.Valid() && ch.Valid(p) && |ch.HelloBody()| < 0x8000
    ensures Genuine(p, s, HonestFlight(p, s, ch))
  {
    hide Decrypt, MasterSecret, KeyBlock, VerifyData, FlightMessages, ParseV2, ParseV3, Offers, RightJustify, Frame,
         Plaintext, HonestKeys, HonestMaster, GoodKeyExchange, V2Wire, FramedHello, ParseHello;
    var f := HonestFlight(p, s, ch);
    ParseV2Body(ch.specs, ch.sessionId, ch.challenge);
    V2BodyParts(ch.specs, ch.sessionId, ch.challenge);
    SharedSecrets(p, s, ch);
    V2IsFramed(ch.HelloBody());
    FinishedOpens(p, ClientWrites(HonestKeys(p, s, ch)), HonestFinished(p, s, ch));
    assert f.fin[4..] == VerifyData(p, HonestMaster(p, s, ch), "client finished", BeforeFinished(s, f));
  }

  /** All the server says to a client that has sent only its hello. */
  lemma {:induction false} Greeted(p: Crypto, s: Offer, ch: Choice)
    requires s.Valid() && ch.Valid(p) && |ch.HelloBody()| < 0x8000
    ensures RunHandshake(p, s, Fresh(V2Wire(ch.HelloBody()))).conn.outbox == FlightWire(s)
  {
    hide SendFlight, FlightWire, FlightMessages, ParseV2, Offers, RightJustify, ReadClientHello, Premaster;
    V2BodyParts(ch.specs, ch.sessionId, ch.challenge);
    var hello := ch.HelloBody();
    ParseV2Body(ch.specs, ch.sessionId, ch.challenge);
    var c := Fresh(V2Wire(hello));
    assert V2Wire(hello) == V2Wire(hello) + [];
    HelloTaken(p, c, V2Wire(hello), hello, []);
    var c1 := ReadClientHello(p, c).conn;
    FlightSent(p, s, c1);
    assert [] + FlightWire(s) == FlightWire(s);
    assert Read(p, SendFlight(p, s, c1)).Failed?;
  }

  lemma {:induction false} FlightRead(p: Crypto, s: Offer, c: Conn, rest: bytes)
    requires c.Valid() && s.Valid() && !c.rd.active && c.inbox == FlightWire(s) + rest
    requires |CertificateMessage(s.chain)| <= MAX_FRAGMENT
    ensures ReadFlight(p, c, None)
      == Done(s.serverRandom, c.(inbox := rest, transcript := c.transcript + FlightMessages(s)))
  {
    hide Frame, ServerHello, CertificateMessage, Read;
    ServerHelloFields(s.serverRandom);
    MessageNumbers(s.chain, []);
    var sh, cert := ServerHello(s.serverRandom), CertificateMessage(s.chain);
    var r3 := Frame(CT_HANDSHAKE, VERSION, HELLO_DONE) + rest;
    var r2 := Frame(CT_HANDSHAKE, VERSION, cert) + r3;
    assert c.inbox == Frame(CT_HANDSHAKE, VERSION, sh) + r2;
    ReadPlain(p, c, CT_HANDSHAKE, VERSION, sh, r2);
    var c1 := c.(inbox := r2, transcript := c.transcript + sh);
    ReadPlain(p, c1, CT_HANDSHAKE, VERSION, cert, r3);
    var c2 := c1.(inbox := r3, transcript := c1.transcript + cert);
    ReadPlain(p, c2, CT_HANDSHAKE, VERSION, HELLO_DONE, rest);
    var c3 := c2.(inbox := rest, transcript := c2.transcript + HELLO_DONE);
    assert c3.transcript == c.transcript + FlightMessages(s);
    var random := Some(s.serverRandom);
    assert ReadFlight(p, c2, random) == Done(s.serverRandom, c3);
    assert ReadFlight(p, c1, random) == ReadFlight(p, c2, random);
  }

  /** After the server's flight the client has sent exactly the honest flight. */
  lemma {:induction false} ReplyCompletesFlight(p: Crypto, s: Offer, ch: Choice, c: Conn)
    requires s.Valid() && ch.Valid(p) && |ch.HelloBody()| < 0x8000
    requires c == Conn([], V2Wire(ch.HelloBody()), ch.HelloBody() + FlightMessages(s), PLAIN, PLAIN)
    ensures var f := HonestFlight(p, s, ch);
      var kb := HonestKeys(p, s, ch);
      Reply(p, ch, c, s.serverRandom) == (HonestMaster(p, s, ch),
        Conn([], Wire(f), BeforeFinished(s, f) + f.fin, ServerWrites(kb).(active := false),
             WriteRecord(p, ClientWrites(kb), HonestFinished(p, s, ch)).1))
  {
    hide Frame, KeyExchange, MasterSecret, KeyBlock, VerifyData, FlightMessages, Plaintext, V2Wire, V2Body,
         RightJustify;
    var f := HonestFlight(p, s, ch);
    var ke := KeyExchange(ch.Enc(p));
    SendPlain(p, c, ke);
    var w0, w1, w2, w3 := V2Wire(ch.HelloBody()), Frame(CT_HANDSHAKE, VERSION, ke),
      Frame(CT_CHANGE_CIPHER_SPEC, VERSION, [1]), Frame(CT_HANDSHAKE, VERSION, f.finFrag);
    assert w0 + w1 + w2 + w3 == w0 + (w1 + (w2 + w3));
  }

  lemma {:induction false} FinishVerifies(p: Crypto, c: Conn, d: Direction, master: bytes)
    requires c.Valid() && !c.rd.active && d == Activate(c.rd) && d.Valid()
    requires |c.rd.key| == 24 && |c.rd.iv| == 8
    requires c.inbox == Frame(CT_CHANGE_CIPHER_SPEC, VERSION, [1])
      + WriteRecord(p, d, ServerFinished(p, master, c.transcript)).0
    ensures Finish(p, c, master)
      == Done((), c.(inbox := [], rd := WriteRecord(p, d, ServerFinished(p, master, c.transcript)).1))
  {
    hide VerifyData, Frame, ReadRecord, WriteRecord;
    var fin := ServerFinished(p, master, c.transcript);
    var wire := WriteRecord(p, d, fin).0;
    ReadPlain(p, c, CT_CHANGE_CIPHER_SPEC, VERSION, [1], wire);
    WithinPlaintextFits(d, 16);
    ReadBack(p, d, fin, []);
    assert wire + [] == wire;
    assert fin.content[4..16] == VerifyData(p, master, "server finished", c.transcript);
  }

  /** What the client understands of all that the server says to its hello. */
  lemma {:induction false} FlightUnderstood(p: Crypto, s: Offer, ch: Choice)
    requires Willing(p, s, ch)
    ensures |ch.HelloBody()| < 0x8000
    ensures RunHandshake(p, s, Fresh(V2Wire(ch.HelloBody()))).conn.outbox == FlightWire(s)
    ensures ReadFlight(p, Start(ch.HelloBody()).(inbox := FlightWire(s)), None) == Done(s.serverRandom,
      Conn([], V2Wire(ch.HelloBody()), ch.HelloBody() + FlightMessages(s), PLAIN, PLAIN))
  {
    hide RunHandshake, ReadFlight, FlightWire, FlightMessages, V2Wire, V2Body;
    HelloFits(p, ch);
    Greeted(p, s, ch);
    var flight := FlightWire(s);
    assert flight == flight + [];
    FlightRead(p, s, Start(ch.HelloBody()).(inbox := flight), []);
  }

  /** An honest client facing a server whose certificates fit a record. */
  predicate Willing(p: Crypto, s: Offer, ch: Choice) {
    s.Valid() && ch.Valid(p) && |CertificateMessage(s.chain)| <= MAX_FRAGMENT
  }

  /** The client once it has sent its Finished: the flight it has read, the
      master secret, and its connection. */
  datatype Prepared = Prepared(flight: bytes, master: bytes, sent: Conn)

  /** The client says hello, reads the server's flight and replies to it. */
  function Prepare(p: Crypto, s: Offer, ch: Choice): (h: Prepared)
    requires Willing(p, s, ch)
    ensures h.sent.Valid() && |h.sent.rd.key| == 24 && |h.sent.rd.iv| == 8
  {
    FlightUnderstood(p, s, ch);
    var flight := RunHandshake(p, s, Fresh(V2Wire(ch.HelloBody()))).conn.outbox;
    var got := ReadFlight(p, Start(ch.HelloBody()).(inbox := flight), None);
    var (master, sent) := Reply(p, ch, got.conn, got.value);
    Prepared(flight, master, sent)
  }

  lemma {:induction false} PrepareSpec(p: Crypto, s: Offer, ch: Choice)
    requires Willing(p, s, ch)
    ensures |ch.HelloBody()| < 0x8000
    ensures var f := HonestFlight(p, s, ch);
      Prepare(p, s, ch) == Prepared(FlightWire(s), HonestMaster(p, s, ch),
        Conn([], Wire(f), BeforeFinished(s, f) + f.fin, ServerWrites(HonestKeys(p, s, ch)).(active := false),
             WriteRecord(p, ClientWrites(HonestKeys(p, s, ch)), HonestFinished(p, s, ch)).1))
  {
    hide RunHandshake, ReadFlight, Reply, FlightWire, FlightMessages, Wire, V2Wire, V2Body, WriteRecord, BeforeFinished,
         HonestFlight, HonestFinished, HonestKeys, HonestMaster;
    FlightUnderstood(p, s, ch);
    ReplyCompletesFlight(p, s, ch, Conn([], V2Wire(ch.HelloBody()), ch.HelloBody() + FlightMessages(s), PLAIN, PLAIN));
  }

  /** An honest client and the server complete the handshake, whatever their
      randoms, premaster secret and certificates, and whatever comes after it.
      Both Finished checks are made over equal transcripts, and each side ends
      ready to read what the other writes. */
  lemma {:induction false} HonestHandshakeCompletes(p: Crypto, s: Offer, ch: Choice, rest: bytes)
    requires Willing(p, s, ch)
    ensures
      var h := Prepare(p, s, ch);
      // the server on all of the client's bytes, and the client on the rest of the server's
      var server := RunHandshake(p, s, Fresh(h.sent.outbox + rest));
      && server.Done? && server.value == h.master && h.flight <= server.conn.outbox
      && var client := Finish(p, h.sent.(inbox := server.conn.outbox[|h.flight|..]), h.master);
      && client.Done? && Mirrored(client.conn, server.conn) && client.conn.wr == h.sent.wr
      && client.conn.transcript == server.conn.transcript
      && client.conn.inbox == [] && server.conn.inbox == rest
  {
    hide RunHandshake, Prepare, Finish, Genuine, Frame, FlightWire, FlightMessages, CertificateMessage, Wire,
         V2Wire, V2Body, MasterSecret, KeyBlock, VerifyData, WriteRecord, Decrypt, BeforeFinished, ServerFinished,
         HonestFlight, HonestFinished, HonestKeys, HonestMaster, Established;
    PrepareSpec(p, s, ch);
    HonestFlightIsGenuine(p, s, ch);
    var f := HonestFlight(p, s, ch);
    GenuineIsAccepted(p, s, f, rest);
    SharedSecrets(p, s, ch);
    HonestEnds(p, s, ch, rest);
    var h := Prepare(p, s, ch);
    var server := RunHandshake(p, s, Fresh(h.sent.outbox + rest)).conn;
    FinishVerifies(p, h.sent.(inbox := server.outbox[|h.flight|..]), ServerWrites(HonestKeys(p, s, ch)), h.master);
  }

  /** Each side's write state is the other's read state, and all are in use. */
  predicate Mirrored(client: Conn, server: Conn) {
    && client.wr == server.rd && client.rd == server.wr
    && client.wr.active && client.rd.active
    && client.Valid() && server.Valid()
  }

  /** The connection an honest flight establishes, in the client's terms. */
  lemma {:induction false} HonestEnds(p: Crypto, s: Offer, ch: Choice, rest: bytes)
    requires s.Valid() && ch.Valid(p) && |ch.HelloBody()| < 0x8000 && Genuine(p, s, HonestFlight(p, s, ch))
    ensures Established(p, s, HonestFlight(p, s, ch), rest) == HonestEnd(p, s, ch, rest)
  {
    hide Genuine, Frame, FlightWire, FlightMessages, VerifyData, Decrypt, GoodKeyExchange, HonestFinished,
         WriteRecord, ServerFinished, MasterOf, KeysOf, BeforeFinished, HonestKeys, HonestMaster, Payload, V2Wire;
    SharedSecrets(p, s, ch);
    FinishedOpens(p, ClientWrites(HonestKeys(p, s, ch)), HonestFinished(p, s, ch));
  }

  function HonestEnd(p: Crypto, s: Offer, ch: Choice, rest: bytes): Conn
    requires |ch.HelloBody()| < 0x8000
  {
    var f, kb := HonestFlight(p, s, ch), HonestKeys(p, s, ch);
    var transcript := BeforeFinished(s, f) + f.fin;
    var (wire, wr) := WriteRecord(p, ServerWrites(kb), ServerFinished(p, HonestMaster(p, s, ch), transcript));
    Conn(rest, FlightWire(s) + (Frame(CT_CHANGE_CIPHER_SPEC, VERSION, [1]) + wire), transcript,
         WriteRecord(p, ClientWrites(kb), HonestFinished(p, s, ch)).1, wr)
  }
}
