// Which client byte streams get through the handshake, and in which states it
// can stop.
module HandshakeRuns {
  import opened Bytes
  import opened Results
  import opened Primitives
  import opened Record
  import opened Hello
  import opened Messages
  import opened Handshake
  import opened Prf

  /** Everything a client sends before application data, message by message. */
  datatype ClientFlight = ClientFlight(
    helloWire: bytes, hello: bytes, random: bytes,
    keyExchange: bytes, ccs: bytes, finFrag: bytes, fin: bytes,
    versions: (bytes, bytes, bytes))

  function Wire(f: ClientFlight): bytes {
    f.helloWire
    + (Frame(CT_HANDSHAKE, f.versions.0, f.keyExchange)
    + (Frame(CT_CHANGE_CIPHER_SPEC, f.versions.1, f.ccs)
    + Frame(CT_HANDSHAKE, f.versions.2, f.finFrag)))
  }

  function V2Wire(hello: bytes): bytes
    requires |hello| < 0x8000
  {
    [0x80 + |hello| / 256, |hello| % 256] + hello
  }

  /** wire carries a ClientHello with this body: an SSLv2 header of two bytes
      and the body, or a v3 handshake record. */
  predicate FramedHello(wire: bytes, hello: bytes) {
    && hello != [] && hello[0] == HS_CLIENT_HELLO
    && (|| (9 <= |hello| < 0x8000 && wire == V2Wire(hello))
        || (4 <= |hello| <= MAX_FRAGMENT && |wire| >= 5 && wire == Frame(CT_HANDSHAKE, wire[1..3], hello)))
  }

  function ParseHello(wire: bytes, hello: bytes): Result<bytes>
    requires FramedHello(wire, hello)
  {
    if wire[0] >= 0x80 then ParseV2(hello) else ParseV3(hello)
  }

  /** A hello that is accepted, with this client random. */
  predicate GoodHello(wire: bytes, hello: bytes, random: bytes) {
    FramedHello(wire, hello) && ParseHello(wire, hello) == Ok(random)
  }

  /** wire is a handshake record holding a ClientKeyExchange with this body. */
  predicate FramedKeyExchange(wire: bytes, body: bytes) {
    && 4 <= |body| <= MAX_FRAGMENT && body[0] == HS_CLIENT_KEY_EXCHANGE
    && |wire| >= 5 && wire == Frame(CT_HANDSHAKE, wire[1..3], body)
  }

  /** The two frames in bytes: a v2 hello of at least 9 bytes behind its length with
      the top bit set, and a handshake record of type 22, any version and length. */
  lemma {:induction false} FramesIff(wire: bytes, body: bytes)
    ensures FramedHello(wire, body) <==>
      && body != [] && body[0] == 1
      && (|| (9 <= |body| < 0x8000 && wire == BE(0x8000 + |body|, 2) + body)
          || (4 <= |body| <= 0x4000 + 2048 && exists version :: HandshakeRecord(wire, version, body)))
    ensures FramedKeyExchange(wire, body) <==>
      4 <= |body| <= 0x4000 + 2048 && body[0] == 16 && exists version :: HandshakeRecord(wire, version, body)
  {
    hide BE, HandshakeRecord, Frame, V2Wire;
    if 9 <= |body| < 0x8000 {
      V2WireBytes(body);
    }
    if |wire| >= 5 && wire == Frame(CT_HANDSHAKE, wire[1..3], body) {
      RecordIsFrame(wire, wire[1..3], body);
    }
    forall version | HandshakeRecord(wire, version, body)
      ensures |wire| >= 5 && wire == Frame(CT_HANDSHAKE, wire[1..3], body)
    {
      RecordIsFrame(wire, version, body);
    }
  }

  predicate HandshakeRecord(wire: bytes, version: bytes, body: bytes) {
    |version| == 2 && wire == [22] + version + BE(|body|, 2) + body
  }

  lemma RecordIsFrame(wire: bytes, version: bytes, body: bytes)
    ensures |version| == 2 ==> (HandshakeRecord(wire, version, body) <==> wire == Frame(CT_HANDSHAKE, version, body))
    ensures HandshakeRecord(wire, version, body) ==> |version| == 2 && |wire| >= 5 && wire[1..3] == version
  {
    hide BE;
  }

  lemma V2WireBytes(hello: bytes)
    requires |hello| < 0x8000
    ensures V2Wire(hello) == BE(0x8000 + |hello|, 2) + hello
  {
    hide BE;
    Encode2(0x8000 + |hello|);
    TopBit(|hello|);
  }

  lemma TopBit(n: nat)
    requires n < 0x8000
    ensures (0x8000 + n) / 256 % 256 == 0x80 + n / 256 && (0x8000 + n) % 256 == n % 256
  {
  }

  function FlightMessages(s: Offer): bytes {
    ServerHello(s.serverRandom) + CertificateMessage(s.chain) + HELLO_DONE
  }

  function FlightWire(s: Offer): bytes {
    Frame(CT_HANDSHAKE, VERSION, ServerHello(s.serverRandom))
    + Frame(CT_HANDSHAKE, VERSION, CertificateMessage(s.chain))
    + Frame(CT_HANDSHAKE, VERSION, HELLO_DONE)
  }

  // ---- one record ----

  lemma ReadInverts(p: Crypto, d: Direction, input: bytes) returns (version: bytes, frag: bytes)
    requires d.Valid() && ReadRecord(p, d, input).result.Ok?
    ensures var r := ReadRecord(p, d, input);
      var t := r.result.value.contentType;
      && |version| == 2 && |frag| <= MAX_FRAGMENT
      && input == Frame(t, version, frag) + r.rest
      && (if d.active then Decrypt(p, d, t, frag) == (Ok(r.result.value.content), r.dir)
          else frag == r.result.value.content && r.dir == d)
  {
    hide Decrypt, FromBE, BE;
    version := input[1..3];
    var n := FromBE(input[..5][3..5]);
    frag := input[5..][..n];
    EncodeDecode(input[3..5]);
    assert input[..5][3..5] == input[3..5];
    assert input == [input[0]] + version + input[3..5] + frag + input[5 + n..];
  }

  lemma ReadPlain(p: Crypto, c: Conn, contentType: byte, version: bytes, frag: bytes, rest: bytes)
    requires c.Valid() && !c.rd.active && |version| == 2 && |frag| <= MAX_FRAGMENT
    requires c.inbox == Frame(contentType, version, frag) + rest
    ensures Read(p, c) == Done(Rec(contentType, frag), c.(inbox := rest))
  {
    hide ReadRecord;
    ReadFramed(p, c.rd, contentType, version, frag, rest);
  }

  lemma SendPlain(p: Crypto, c: Conn, msg: bytes)
    requires c.Valid() && !c.wr.active
    ensures SendHandshake(p, c, msg)
      == c.(outbox := c.outbox + Frame(CT_HANDSHAKE, VERSION, msg), transcript := c.transcript + msg)
  {
    hide Frame, WriteRecord;
    WrittenPlain(p, c.wr, Rec(CT_HANDSHAKE, msg));
  }

  lemma FlightSent(p: Crypto, s: Offer, c: Conn)
    requires c.Valid() && !c.wr.active
    ensures SendFlight(p, s, c)
      == c.(outbox := c.outbox + FlightWire(s), transcript := c.transcript + FlightMessages(s))
  {
    hide SendHandshake, Frame, ServerHello, CertificateMessage;
    var sh, cert := ServerHello(s.serverRandom), CertificateMessage(s.chain);
    SendPlain(p, c, sh);
    var c1 := SendHandshake(p, c, sh);
    SendPlain(p, c1, cert);
    var c2 := SendHandshake(p, c1, cert);
    SendPlain(p, c2, HELLO_DONE);
    var f1, f2 := Frame(CT_HANDSHAKE, VERSION, sh), Frame(CT_HANDSHAKE, VERSION, cert);
    var f3 := Frame(CT_HANDSHAKE, VERSION, HELLO_DONE);
    assert c.outbox + f1 + f2 + f3 == c.outbox + (f1 + f2 + f3);
    assert c.transcript + sh + cert + HELLO_DONE == c.transcript + (sh + cert + HELLO_DONE);
  }

  lemma FrameVersion(contentType: byte, version: bytes, frag: bytes)
    requires |version| == 2
    ensures |Frame(contentType, version, frag)| >= 5 && Frame(contentType, version, frag)[1..3] == version
  {
  }

  // ---- ClientHello ----

  /** A framed hello at the front of the stream is taken in whole. */
  lemma HelloTaken(p: Crypto, c: Conn, wire: bytes, hello: bytes, rest: bytes)
    requires c.Valid() && !c.rd.active && FramedHello(wire, hello) && c.inbox == wire + rest
    ensures ReadClientHello(p, c)
      == Answer(ParseHello(wire, hello), c.(inbox := rest, transcript := c.transcript + hello))
  {
    hide ParseV2, ParseV3, FromBE, Frame;
    if wire[0] >= 0x80 {
      FrameType(CT_HANDSHAKE, wire[1..3], hello);
      V2Header(c.inbox, hello, rest);
    } else {
      ReadPlain(p, c, CT_HANDSHAKE, wire[1..3], hello, rest);
    }
  }

  lemma FrameType(contentType: byte, version: bytes, frag: bytes)
    ensures Frame(contentType, version, frag)[0] == contentType
  {
  }

  lemma V2Header(inbox: bytes, hello: bytes, rest: bytes)
    requires |hello| < 0x8000 && inbox == V2Wire(hello) + rest
    ensures inbox[..2] == [0x80 + |hello| / 256, |hello| % 256]
    ensures FromBE([inbox[0] % 0x80, inbox[1]]) == |hello|
    ensures inbox[2..][..|hello|] == hello && inbox[2..][|hello|..] == rest
  {
    Decode2([inbox[0] % 0x80, inbox[1]]);
  }

  /** Reading the hello takes in a framed hello, or fails and takes in nothing. */
  lemma HelloOutcome(p: Crypto, c: Conn) returns (taken: bool, wire: bytes, hello: bytes)
    requires c.Valid() && !c.rd.active
    ensures var o := ReadClientHello(p, c);
      if taken then
        && FramedHello(wire, hello) && c.inbox == wire + o.conn.inbox
        && o == Answer(ParseHello(wire, hello), c.(inbox := o.conn.inbox, transcript := c.transcript + hello))
      else o.Failed? && o.error != IndexOutOfRange && o.conn == c.(inbox := o.conn.inbox)
  {
    hide ReadV2Hello, ReadV3Hello, FramedHello, ParseHello;
    if c.inbox == [] {
      taken, wire, hello := false, [], [];
    } else if c.inbox[0] >= 0x80 {
      taken, wire, hello := V2Outcome(c);
    } else {
      taken, wire, hello := V3Outcome(p, c);
    }
  }

  lemma V2Outcome(c: Conn) returns (taken: bool, wire: bytes, hello: bytes)
    requires c.inbox != [] && c.inbox[0] >= 0x80
    ensures var o := ReadV2Hello(c);
      if taken then
        && FramedHello(wire, hello) && c.inbox == wire + o.conn.inbox
        && o == Answer(ParseHello(wire, hello), c.(inbox := o.conn.inbox, transcript := c.transcript + hello))
      else o.Failed? && o.error != IndexOutOfRange && o.conn == c.(inbox := o.conn.inbox)
  {
    hide ParseV2, ParseV3, FromBE, V2Wire;
    taken, wire, hello := false, [], [];
    if |c.inbox| >= 2 {
      var n := FromBE([c.inbox[0] % 0x80, c.inbox[1]]);
      var tail := c.inbox[2..];
      if n <= |tail| {
        V2Front(c.inbox, n);
        hello := tail[..n];
        taken := |hello| >= 9 && hello[0] == HS_CLIENT_HELLO;
        wire := V2Wire(hello);
      }
    }
  }

  lemma V2Front(inbox: bytes, n: nat)
    requires |inbox| >= 2 && inbox[0] >= 0x80 && n == FromBE([inbox[0] % 0x80, inbox[1]]) <= |inbox| - 2
    ensures n < 0x8000 && inbox == V2Wire(inbox[2..][..n]) + inbox[2..][n..] && V2Wire(inbox[2..][..n])[0] >= 0x80
  {
    Decode2([inbox[0] % 0x80, inbox[1]]);
    assert inbox[..2] == [0x80 + n / 256, n % 256];
    assert inbox == inbox[..2] + inbox[2..][..n] + inbox[2..][n..];
  }

  lemma V3Outcome(p: Crypto, c: Conn) returns (taken: bool, wire: bytes, hello: bytes)
    requires c.Valid() && !c.rd.active && c.inbox != [] && c.inbox[0] < 0x80
    ensures var o := ReadV3Hello(p, c);
      if taken then
        && FramedHello(wire, hello) && c.inbox == wire + o.conn.inbox
        && o == Answer(ParseHello(wire, hello), c.(inbox := o.conn.inbox, transcript := c.transcript + hello))
      else o.Failed? && o.error != IndexOutOfRange && o.conn == c.(inbox := o.conn.inbox)
  {
    hide ParseV2, ParseV3, ReadRecord, BE;
    taken, wire, hello := false, [], [];
    ReadFailure(p, c.rd, c.inbox);
    if Read(p, c).Done? {
      var version, frag := ReadInverts(p, c.rd, c.inbox);
      wire, hello := Frame(CT_HANDSHAKE, version, frag), frag;
      taken := Read(p, c).value.contentType == CT_HANDSHAKE && |hello| >= 4 && hello[0] == HS_CLIENT_HELLO;
      assert wire[1..3] == version;
    }
  }

  /** A reader never fails by slicing, and a plain one that fails keeps its state. */
  lemma ReadFailure(p: Crypto, d: Direction, input: bytes)
    requires d.Valid()
    ensures var r := ReadRecord(p, d, input);
      r.result.Err? ==> r.result.error != IndexOutOfRange && (!d.active ==> r.dir == d)
  {
  }

  // ---- the later messages ----

  predicate GoodKeyExchange(p: Crypto, s: Offer, body: bytes)
    requires s.Valid()
  {
    4 <= |body| <= MAX_FRAGMENT && body[0] == HS_CLIENT_KEY_EXCHANGE && Premaster(p, body, s.blind).Ok?
  }

  function MasterOf(p: Crypto, s: Offer, keyExchange: bytes, random: bytes): bytes
    requires s.Valid() && GoodKeyExchange(p, s, keyExchange)
  {
    MasterSecret(p, Premaster(p, keyExchange, s.blind).value, random, s.serverRandom)
  }

  lemma KeyExchangeTaken(p: Crypto, s: Offer, c: Conn, random: bytes, wire: bytes, body: bytes, rest: bytes)
    requires c.Valid() && s.Valid() && !c.rd.active && FramedKeyExchange(wire, body) && c.inbox == wire + rest
    ensures ReadKeyExchange(p, s, c, random)
      == TakeKeyExchange(p, s, c.(inbox := rest, transcript := c.transcript + body), body, random)
  {
    hide Read, TakeKeyExchange, Frame;
    ReadPlain(p, c, CT_HANDSHAKE, wire[1..3], body, rest);
  }

  lemma KeyExchangeOutcome(p: Crypto, s: Offer, c: Conn, random: bytes) returns (taken: bool, wire: bytes, body: bytes)
    requires c.Valid() && s.Valid() && !c.rd.active
    ensures var o := ReadKeyExchange(p, s, c, random);
      if taken then
        && FramedKeyExchange(wire, body) && c.inbox == wire + o.conn.inbox
        && o == TakeKeyExchange(p, s, c.(inbox := o.conn.inbox, transcript := c.transcript + body), body, random)
      else o.Failed? && o.error != IndexOutOfRange && o.conn == c.(inbox := o.conn.inbox)
  {
    hide ReadRecord, BE, Premaster, KeyBlock, MasterSecret;
    taken, wire, body := false, [], [];
    ReadFailure(p, c.rd, c.inbox);
    if Read(p, c).Done? {
      var version, frag := ReadInverts(p, c.rd, c.inbox);
      wire, body := Frame(CT_HANDSHAKE, version, frag), frag;
      taken := Read(p, c).value.contentType == CT_HANDSHAKE && |body| >= 4 && body[0] == HS_CLIENT_KEY_EXCHANGE;
      assert wire[1..3] == version;
    }
  }

  /** Taking a key exchange succeeds exactly when its premaster can be found. */
  lemma KeyExchangeResult(p: Crypto, s: Offer, c: Conn, body: bytes, random: bytes)
    requires c.Valid() && s.Valid() && 4 <= |body| <= MAX_FRAGMENT && body[0] == HS_CLIENT_KEY_EXCHANGE
    ensures var o := TakeKeyExchange(p, s, c, body, random);
      && (o.Done? <==> GoodKeyExchange(p, s, body))
      && (o.Done? ==> o == Done(MasterOf(p, s, body, random), SetupKeys(p, c, o.value, random, s.serverRandom)))
      && (o.Failed? ==> o.conn == c && o.error != IndexOutOfRange)
  {
    hide SetupKeys, MasterSecret;
  }

  /** A fragment that opens, under the client's keys, to the Finished message
      for this transcript. */
  predicate GoodFinished(p: Crypto, d: Direction, finFrag: bytes, fin: bytes, master: bytes, transcript: bytes)
    requires d.Valid() && d.active
  {
    && |finFrag| <= MAX_FRAGMENT && Decrypt(p, d, CT_HANDSHAKE, finFrag).0 == Ok(fin)
    && |fin| == 16 && fin[0] == HS_FINISHED
    && fin[4..] == VerifyData(p, master, "client finished", transcript)
  }

  lemma FinishedRead(p: Crypto, c: Conn, master: bytes, v1: bytes, ccs: bytes, v2: bytes,
                     finFrag: bytes, fin: bytes, rest: bytes)
    requires c.Valid() && !c.rd.active && |c.rd.key| == 24 && |c.rd.iv| == 8
    requires |v1| == 2 && |v2| == 2 && |ccs| <= MAX_FRAGMENT
    requires GoodFinished(p, Activate(c.rd), finFrag, fin, master, c.transcript)
    requires c.inbox == Frame(CT_CHANGE_CIPHER_SPEC, v1, ccs) + (Frame(CT_HANDSHAKE, v2, finFrag) + rest)
    ensures ReadFinished(p, c, master) == Done((), c.(inbox := rest, transcript := c.transcript + fin,
      rd := Decrypt(p, Activate(c.rd), CT_HANDSHAKE, finFrag).1))
  {
    hide Decrypt, ReadRecord, VerifyData, Frame;
    ReadPlain(p, c, CT_CHANGE_CIPHER_SPEC, v1, ccs, Frame(CT_HANDSHAKE, v2, finFrag) + rest);
    ReadFramed(p, Activate(c.rd), CT_HANDSHAKE, v2, finFrag, rest);
    assert fin[4..16] == fin[4..];
  }

  lemma {:induction false} FinishedAccepted(p: Crypto, c: Conn, master: bytes)
    returns (v1: bytes, ccs: bytes, v2: bytes, finFrag: bytes, fin: bytes)
    requires c.Valid() && !c.rd.active && |c.rd.key| == 24 && |c.rd.iv| == 8
    requires ReadFinished(p, c, master).Done?
    ensures |v1| == 2 && |v2| == 2 && |ccs| <= MAX_FRAGMENT
    ensures GoodFinished(p, Activate(c.rd), finFrag, fin, master, c.transcript)
    ensures var rest := ReadFinished(p, c, master).conn.inbox;
      c.inbox == Frame(CT_CHANGE_CIPHER_SPEC, v1, ccs) + (Frame(CT_HANDSHAKE, v2, finFrag) + rest)
  {
    hide Decrypt, ReadRecord, VerifyData, Frame;
    v1, ccs := ReadInverts(p, c.rd, c.inbox);
    var c2 := Read(p, c).conn.(rd := Activate(Read(p, c).conn.rd));
    v2, finFrag := ReadInverts(p, c2.rd, c2.inbox);
    fin := Read(p, c2).value.content;
    assert fin[4..16] == fin[4..];
  }

  lemma {:induction false} FinishedSent(p: Crypto, c: Conn, master: bytes)
    requires c.Valid() && !c.wr.active && |c.wr.key| == 24 && |c.wr.iv| == 8
    ensures var (wire, wr) := WriteRecord(p, Activate(c.wr), ServerFinished(p, master, c.transcript));
      SendFinished(p, c, master)
        == c.(outbox := c.outbox + (Frame(CT_CHANGE_CIPHER_SPEC, VERSION, [1]) + wire), wr := wr)
  {
    hide Frame, VerifyData, WriteRecord, ServerFinished;
    var ccs := Frame(CT_CHANGE_CIPHER_SPEC, VERSION, [1]);
    WrittenPlain(p, c.wr, Rec(CT_CHANGE_CIPHER_SPEC, [1]));
    assert Send(p, c, Rec(CT_CHANGE_CIPHER_SPEC, [1])) == c.(outbox := c.outbox + ccs);
    var wire := WriteRecord(p, Activate(c.wr), ServerFinished(p, master, c.transcript)).0;
    assert (c.outbox + ccs) + wire == c.outbox + (ccs + wire);
  }

  lemma WrittenPlain(p: Crypto, d: Direction, r: Rec)
    requires d.Valid() && !d.active
    ensures WriteRecord(p, d, r) == (Frame(r.contentType, VERSION, r.content), d)
  {
  }

  // ---- whole runs ----

  /** The flight is what RFC 2246 asks of a client facing this server: hello,
      key exchange, change of cipher and a Finished over the transcript so far. */
  predicate Genuine(p: Crypto, s: Offer, f: ClientFlight)
    requires s.Valid()
  {
    && |f.versions.0| == 2 && |f.versions.1| == 2 && |f.versions.2| == 2
    && GoodHello(f.helloWire, f.hello, f.random)
    && GoodKeyExchange(p, s, f.keyExchange)
    && |f.ccs| <= MAX_FRAGMENT
    && GoodFinished(p, ClientWrites(KeysOf(p, s, f)), f.finFrag, f.fin,
                    MasterOf(p, s, f.keyExchange, f.random), BeforeFinished(s, f))
  }

  function KeysOf(p: Crypto, s: Offer, f: ClientFlight): (kb: bytes)
    requires s.Valid() && GoodKeyExchange(p, s, f.keyExchange)
    ensures |kb| == 104
  {
    KeyBlock(p, MasterOf(p, s, f.keyExchange, f.random), f.random, s.serverRandom)
  }

  /** The handshake messages, without record headers, change of cipher or the
      v2 length header, up to the client's Finished. */
  function BeforeFinished(s: Offer, f: ClientFlight): bytes {
    f.hello + FlightMessages(s) + f.keyExchange
  }

  /** The connection on which HTTP is served after this flight. */
  function Established(p: Crypto, s: Offer, f: ClientFlight, rest: bytes): Conn
    requires s.Valid() && Genuine(p, s, f)
  {
    var kb, master := KeysOf(p, s, f), MasterOf(p, s, f.keyExchange, f.random);
    var transcript := BeforeFinished(s, f) + f.fin;
    var (wire, wr) := WriteRecord(p, ServerWrites(kb), ServerFinished(p, master, transcript));
    Conn(rest, FlightWire(s) + (Frame(CT_CHANGE_CIPHER_SPEC, VERSION, [1]) + wire), transcript,
         Decrypt(p, ClientWrites(kb), CT_HANDSHAKE, f.finFrag).1, wr)
  }

  /** The key block of RFC 2246 section 6.3 for a flight with this master secret. */
  function StandardKeys(p: Crypto, s: Offer, f: ClientFlight, master: bytes): (kb: bytes)
    ensures |kb| == 104
  {
    Prf10Value(p, master, "key expansion", s.serverRandom + f.random, 104)
  }

  /** RFC 2246 section 8.1: the master secret of a flight. */
  function StandardMaster(p: Crypto, s: Offer, f: ClientFlight): bytes
    requires s.Valid() && |f.keyExchange| >= 4 && Premaster(p, f.keyExchange, s.blind).Ok?
  {
    Prf10Value(p, Premaster(p, f.keyExchange, s.blind).value, "master secret", f.random + s.serverRandom, 48)
  }

  /** The handshake messages up to the client's Finished, one after the other. */
  function StandardTranscript(s: Offer, f: ClientFlight): bytes {
    f.hello + ServerHello(s.serverRandom) + CertificateMessage(s.chain) + [14, 0, 0, 0] + f.keyExchange
  }

  lemma SameSecrets(p: Crypto, s: Offer, f: ClientFlight)
    requires s.Valid() && GoodKeyExchange(p, s, f.keyExchange)
    ensures MasterOf(p, s, f.keyExchange, f.random) == StandardMaster(p, s, f)
    ensures KeysOf(p, s, f) == StandardKeys(p, s, f, StandardMaster(p, s, f))
    ensures BeforeFinished(s, f) == StandardTranscript(s, f)
  {
    hide ServerHello, CertificateMessage, Prf10Value, Premaster;
    assert f.hello + (ServerHello(s.serverRandom) + CertificateMessage(s.chain) + HELLO_DONE) + f.keyExchange
      == f.hello + ServerHello(s.serverRandom) + CertificateMessage(s.chain) + [14, 0, 0, 0] + f.keyExchange;
  }

  /** RFC 2246 section 7.4.9 for the client: besides good hello, key exchange and
      framing, a flight is genuine exactly when its last fragment opens under the
      client's part of the key block to a Finished whose 12 bytes are the PRF of
      both digests of all handshake messages so far. */
  lemma {:induction false} GenuineIff(p: Crypto, s: Offer, f: ClientFlight)
    requires s.Valid() && GoodHello(f.helloWire, f.hello, f.random) && GoodKeyExchange(p, s, f.keyExchange)
    requires |f.versions.0| == |f.versions.1| == |f.versions.2| == 2 && |f.ccs| <= 0x4800 && |f.finFrag| <= 0x4800
    ensures f.hello[0] == 1 && f.keyExchange[0] == 16
    ensures Genuine(p, s, f) <==>
      var master := StandardMaster(p, s, f);
      var kb, t := StandardKeys(p, s, f, master), StandardTranscript(s, f);
      && |f.fin| == 16 && f.fin[0] == 20
      && Decrypt(p, Direction(true, 0, kb[40..64], kb[88..96], kb[..20]), 22, f.finFrag).0 == Ok(f.fin)
      && f.fin[4..16] == Prf10Value(p, master, "client finished", p.md5(t) + p.sha1(t), 12)
  {
    hide Prf10Value, Decrypt, Premaster, StandardMaster, StandardKeys, StandardTranscript, MasterOf, KeysOf,
         BeforeFinished, GoodHello;
    HelloType(f.helloWire, f.hello, f.random);
    SameSecrets(p, s, f);
    assert |f.fin| == 16 ==> f.fin[4..16] == f.fin[4..];
  }

  lemma HelloType(wire: bytes, hello: bytes, random: bytes)
    requires GoodHello(wire, hello, random)
    ensures hello != [] && hello[0] == 1
  {
    hide ParseHello, V2Wire, Frame;
  }

  /** RFC 2246 section 7.4.9 for the server: after a genuine flight it has sent its
      hello, chain and done message in the clear, its change of cipher, and, sealed
      under its part of the key block, a Finished over all messages before it. */
  lemma {:induction false} EstablishedIs(p: Crypto, s: Offer, f: ClientFlight, rest: bytes)
    requires s.Valid() && Genuine(p, s, f)
    ensures
      var master := StandardMaster(p, s, f);
      var kb, t := StandardKeys(p, s, f, master), StandardTranscript(s, f) + f.fin;
      var verify := Prf10Value(p, master, "server finished", p.md5(t) + p.sha1(t), 12);
      var (wire, wr) := WriteRecord(p, Direction(true, 0, kb[64..88], kb[96..104], kb[20..40]),
                                    Rec(22, [20, 0, 0, 12] + verify));
      var c := Established(p, s, f, rest);
      && c.transcript == t && c.inbox == rest && c.wr == wr
      && c.outbox == Plain(22, ServerHello(s.serverRandom)) + Plain(22, CertificateMessage(s.chain))
           + Plain(22, [14, 0, 0, 0]) + ([20, 3, 1, 0, 1, 1] + wire)
  {
    hide Prf10Value, Decrypt, Premaster, StandardMaster, StandardKeys, StandardTranscript, MasterOf, KeysOf,
         BeforeFinished, ServerHello, CertificateMessage, Frame, BE, WriteRecord;
    SameSecrets(p, s, f);
    ServerFinishedIs(p, MasterOf(p, s, f.keyExchange, f.random), BeforeFinished(s, f) + f.fin);
    FlightIsPlain(s);
  }

  /** It reads on under the client's part of the key block, from the second record
      and the last block of the client's Finished. */
  lemma {:induction false} EstablishedReads(p: Crypto, s: Offer, f: ClientFlight, rest: bytes)
    requires s.Valid() && Genuine(p, s, f)
    ensures |f.finFrag| >= 8
    ensures var kb := StandardKeys(p, s, f, StandardMaster(p, s, f));
      Established(p, s, f, rest).rd == Direction(true, 1, kb[40..64], f.finFrag[|f.finFrag| - 8..], kb[..20])
  {
    hide Decrypt, Premaster, StandardMaster, StandardKeys, MasterOf, KeysOf, BeforeFinished, GoodHello, FlightWire,
         WriteRecord, ServerFinished;
    SameSecrets(p, s, f);
    DecryptLeaves(p, ClientWrites(KeysOf(p, s, f)), CT_HANDSHAKE, f.finFrag);
  }

  /** A record in the clear. */
  function Plain(contentType: byte, msg: bytes): bytes {
    [contentType, 3, 1] + BE(|msg|, 2) + msg
  }

  lemma FlightIsPlain(s: Offer)
    ensures FlightWire(s) == Plain(22, ServerHello(s.serverRandom)) + Plain(22, CertificateMessage(s.chain))
      + Plain(22, [14, 0, 0, 0])
    ensures Frame(CT_CHANGE_CIPHER_SPEC, VERSION, [1]) == [20, 3, 1, 0, 1, 1]
  {
    hide Frame, ServerHello, CertificateMessage;
    FrameIsPlain(CT_HANDSHAKE, ServerHello(s.serverRandom));
    FrameIsPlain(CT_HANDSHAKE, CertificateMessage(s.chain));
    FrameIsPlain(CT_HANDSHAKE, [14, 0, 0, 0]);
    FrameIsPlain(CT_CHANGE_CIPHER_SPEC, [1]);
    Encode2(1);
  }

  lemma FrameIsPlain(contentType: byte, msg: bytes)
    ensures Frame(contentType, VERSION, msg) == Plain(contentType, msg)
  {
    hide BE;
  }

  lemma ServerFinishedIs(p: Crypto, master: bytes, t: bytes)
    ensures ServerFinished(p, master, t)
      == Rec(22, [20, 0, 0, 12] + Prf10Value(p, master, "server finished", p.md5(t) + p.sha1(t), 12))
  {
    hide Prf10Value;
  }

  /** Every genuine flight is accepted, and leaves exactly this connection. */
  lemma {:induction false} GenuineIsAccepted(p: Crypto, s: Offer, f: ClientFlight, rest: bytes)
    requires s.Valid() && Genuine(p, s, f)
    ensures RunHandshake(p, s, Fresh(Wire(f) + rest))
      == Done(MasterOf(p, s, f.keyExchange, f.random), Established(p, s, f, rest))
  {
    hide Decrypt, Frame, Premaster, MasterSecret, KeyBlock, VerifyData, WriteRecord, FramedHello, ParseHello,
         TakeKeyExchange,
         ReadClientHello, SendFlight, ReadKeyExchange, ReadFinished, SendFinished, ServerHello, CertificateMessage,
         ServerFinished, FlightMessages, FlightWire;
    var r3 := Frame(CT_HANDSHAKE, f.versions.2, f.finFrag) + rest;
    var r2 := Frame(CT_CHANGE_CIPHER_SPEC, f.versions.1, f.ccs) + r3;
    var r1 := Frame(CT_HANDSHAKE, f.versions.0, f.keyExchange) + r2;
    var c := Fresh(Wire(f) + rest);
    assert c.inbox == f.helloWire + r1;
    HelloTaken(p, c, f.helloWire, f.hello, r1);
    var c1 := ReadClientHello(p, c).conn;
    FlightSent(p, s, c1);
    var c2 := SendFlight(p, s, c1);
    var keWire := Frame(CT_HANDSHAKE, f.versions.0, f.keyExchange);
    FrameVersion(CT_HANDSHAKE, f.versions.0, f.keyExchange);
    KeyExchangeTaken(p, s, c2, f.random, keWire, f.keyExchange, r2);
    KeyExchangeResult(p, s, c2.(inbox := r2, transcript := c2.transcript + f.keyExchange), f.keyExchange, f.random);
    var master, c3 := ReadKeyExchange(p, s, c2, f.random).value, ReadKeyExchange(p, s, c2, f.random).conn;
    assert c3.transcript == BeforeFinished(s, f);
    FinishedRead(p, c3, master, f.versions.1, f.ccs, f.versions.2, f.finFrag, f.fin, rest);
    var c4 := ReadFinished(p, c3, master).conn;
    FinishedSent(p, c4, master);
    assert [] + FlightWire(s) == FlightWire(s);
  }

  /** Only genuine flights are accepted: a run that gets as far as serving HTTP
      consumed, in order and nothing else, the messages of one. */
  lemma {:induction false} AcceptedIsGenuine(p: Crypto, s: Offer, inbox: bytes) returns (f: ClientFlight)
    requires s.Valid() && RunHandshake(p, s, Fresh(inbox)).Done?
    ensures Genuine(p, s, f) && inbox == Wire(f) + RunHandshake(p, s, Fresh(inbox)).conn.inbox
  {
    hide Decrypt, Frame, Premaster, MasterSecret, KeyBlock, VerifyData, WriteRecord, FramedHello, ParseHello,
         TakeKeyExchange,
         ReadClientHello, SendFlight, ReadKeyExchange, ReadFinished, SendFinished, ServerHello, CertificateMessage,
         ServerFinished, FlightMessages, FlightWire;
    var c := Fresh(inbox);
    var _, helloWire, hello := HelloOutcome(p, c);
    var random, c1 := ReadClientHello(p, c).value, ReadClientHello(p, c).conn;
    FlightSent(p, s, c1);
    var c2 := SendFlight(p, s, c1);
    var _, keWire, keyExchange := KeyExchangeOutcome(p, s, c2, random);
    var v0 := keWire[1..3];
    var rest := ReadKeyExchange(p, s, c2, random).conn.inbox;
    KeyExchangeResult(p, s, c2.(inbox := rest, transcript := c2.transcript + keyExchange), keyExchange, random);
    var master, c3 := ReadKeyExchange(p, s, c2, random).value, ReadKeyExchange(p, s, c2, random).conn;
    var v1, ccs, v2, finFrag, fin := FinishedAccepted(p, c3, master);
    var c4 := ReadFinished(p, c3, master).conn;
    FinishedSent(p, c4, master);
    f := ClientFlight(helloWire, hello, random, keyExchange, ccs, finFrag, fin, (v0, v1, v2));
    assert c3.transcript == BeforeFinished(s, f);
    var r := c4.inbox;
    assert inbox == helloWire + (Frame(CT_HANDSHAKE, v0, keyExchange)
      + (Frame(CT_CHANGE_CIPHER_SPEC, v1, ccs) + (Frame(CT_HANDSHAKE, v2, finFrag) + r)));
  }

  /** HTTP is served exactly on the client streams that begin with a genuine
      flight, and then on exactly the connection it establishes. */
  lemma {:induction false} ServesExactlyGenuineClients(p: Crypto, s: Offer, inbox: bytes)
    requires s.Valid()
    ensures RunHandshake(p, s, Fresh(inbox)).Done? <==>
      exists f, rest :: Genuine(p, s, f) && inbox == Wire(f) + rest
    ensures forall f, rest :: Genuine(p, s, f) && inbox == Wire(f) + rest ==>
      RunHandshake(p, s, Fresh(inbox)).conn == Established(p, s, f, rest)
  {
    hide RunHandshake, Genuine, Established, Wire;
    forall f, rest | Genuine(p, s, f) && inbox == Wire(f) + rest
      ensures RunHandshake(p, s, Fresh(inbox)).Done?
      ensures RunHandshake(p, s, Fresh(inbox)).conn == Established(p, s, f, rest)
    {
      GenuineIsAccepted(p, s, f, rest);
    }
    if RunHandshake(p, s, Fresh(inbox)).Done? {
      var f := AcceptedIsGenuine(p, s, inbox);
    }
  }

  // ---- runs that fail ----

  /** How far a failed run got: the last handshake message it took in. */
  datatype Stop = AtStart | AtHello | AfterFlight | AfterKeyExchange

  ghost predicate NoHelloAtFront(inbox: bytes) {
    forall wire, hello, more :: FramedHello(wire, hello) ==> inbox != wire + more
  }

  ghost predicate NoKeyExchangeAtFront(inbox: bytes) {
    forall wire, body, more :: FramedKeyExchange(wire, body) ==> inbox != wire + more
  }

  /** The run stopped there. Its transcript holds the handshake messages at the
      front of the stream, each whole and without its header, and the server's
      flight between them: no more, and no fewer than it could take. Apart from
      that flight, sent in the clear, the client was given nothing. */
  ghost predicate StoppedAt(s: Offer, inbox: bytes, c: Conn, stop: Stop,
                            wire: bytes, hello: bytes, random: bytes, keWire: bytes, ke: bytes, more: bytes)
  {
    && !c.wr.active
    && match stop
       case AtStart => c.outbox == [] && c.transcript == [] && NoHelloAtFront(inbox)
       case AtHello =>
         && FramedHello(wire, hello) && ParseHello(wire, hello).Err? && inbox == wire + more
         && c.outbox == [] && c.transcript == hello
       case AfterFlight =>
         && GoodHello(wire, hello, random) && inbox == wire + more && NoKeyExchangeAtFront(more)
         && c.outbox == FlightWire(s) && c.transcript == hello + FlightMessages(s)
       case AfterKeyExchange =>
         && GoodHello(wire, hello, random) && FramedKeyExchange(keWire, ke) && inbox == wire + (keWire + more)
         && c.outbox == FlightWire(s) && c.transcript == hello + FlightMessages(s) + ke
  }

  /** Every failed run stopped at one of these four points. */
  lemma {:induction false} FailedRunsStopCleanly(p: Crypto, s: Offer, inbox: bytes)
    requires s.Valid() && RunHandshake(p, s, Fresh(inbox)).Failed?
    ensures exists stop, wire, hello, random, keWire, ke, more ::
      StoppedAt(s, inbox, RunHandshake(p, s, Fresh(inbox)).conn, stop, wire, hello, random, keWire, ke, more)
  {
    hide FramedHello, ParseHello, FramedKeyExchange, ReadClientHello, SendFlight, ReadKeyExchange, ReadFinished,
         SendFinished, FlightMessages, FlightWire, TakeKeyExchange, NoHelloAtFront, NoKeyExchangeAtFront;
    var c := Fresh(inbox);
    var end := RunHandshake(p, s, c).conn;
    var greeted := ReadClientHello(p, c);
    var taken, wire, hello := HelloOutcome(p, c);
    assert [] + hello == hello;
    if !taken {
      NotTakenMeansNone(p, c);
      assert StoppedAt(s, inbox, end, AtStart, [], [], [], [], [], []);
    } else if greeted.Failed? {
      assert StoppedAt(s, inbox, end, AtHello, wire, hello, [], [], [], greeted.conn.inbox);
    } else {
      var random, c1 := greeted.value, greeted.conn;
      FlightSent(p, s, c1);
      var c2 := SendFlight(p, s, c1);
      assert [] + FlightWire(s) == FlightWire(s);
      var keTaken, keWire, ke := KeyExchangeOutcome(p, s, c2, random);
      var keyed := ReadKeyExchange(p, s, c2, random);
      if !keTaken {
        NoKeyExchangeMeansNone(p, s, c2, random);
        assert StoppedAt(s, inbox, end, AfterFlight, wire, hello, random, [], [], c1.inbox);
      } else {
        FramedIsKeyExchange(keWire, ke);
        KeyExchangeResult(p, s, c2.(inbox := keyed.conn.inbox, transcript := c2.transcript + ke), ke, random);
        if keyed.Done? {
          var c3 := c2.(inbox := keyed.conn.inbox, transcript := c2.transcript + ke);
          KeysKeep(p, c3, keyed.value, random, s.serverRandom);
          FinishedStop(p, keyed.conn, keyed.value);
        }
        assert StoppedAt(s, inbox, end, AfterKeyExchange, wire, hello, random, keWire, ke, keyed.conn.inbox);
      }
    }
  }

  lemma FramedIsKeyExchange(wire: bytes, body: bytes)
    requires FramedKeyExchange(wire, body)
    ensures 4 <= |body| <= MAX_FRAGMENT && body[0] == HS_CLIENT_KEY_EXCHANGE
  {
  }

  lemma KeysKeep(p: Crypto, c: Conn, master: bytes, clientRandom: bytes, serverRandom: bytes)
    ensures var c' := SetupKeys(p, c, master, clientRandom, serverRandom);
      c' == c.(rd := c'.rd, wr := c'.wr) && c'.wr.active == c.wr.active
  {
  }

  /** Where nothing was taken there is no hello to take. */
  lemma NotTakenMeansNone(p: Crypto, c: Conn)
    requires c.Valid() && !c.rd.active && ReadClientHello(p, c).conn.transcript == c.transcript
    ensures NoHelloAtFront(c.inbox)
  {
    hide ReadClientHello, ParseHello;
    forall wire, hello, more | FramedHello(wire, hello) ensures c.inbox != wire + more {
      if c.inbox == wire + more {
        HelloTaken(p, c, wire, hello, more);
      }
    }
  }

  lemma NoKeyExchangeMeansNone(p: Crypto, s: Offer, c: Conn, random: bytes)
    requires c.Valid() && s.Valid() && !c.rd.active && ReadKeyExchange(p, s, c, random).conn.transcript == c.transcript
    ensures NoKeyExchangeAtFront(c.inbox)
  {
    hide ReadKeyExchange, TakeKeyExchange;
    forall wire, body, more | FramedKeyExchange(wire, body) ensures c.inbox != wire + more {
      if c.inbox == wire + more {
        KeyExchangeTaken(p, s, c, random, wire, body, more);
        KeyExchangeKeeps(p, s, c.(inbox := more, transcript := c.transcript + body), body, random);
      }
    }
  }

  lemma KeyExchangeKeeps(p: Crypto, s: Offer, c: Conn, body: bytes, random: bytes)
    requires c.Valid() && s.Valid() && |body| >= 4
    ensures TakeKeyExchange(p, s, c, body, random).conn.transcript == c.transcript
  {
  }

  lemma FinishedStop(p: Crypto, c: Conn, master: bytes)
    requires c.Valid() && |c.rd.key| == 24 && |c.rd.iv| == 8 && ReadFinished(p, c, master).Failed?
    ensures var c' := ReadFinished(p, c, master).conn;
      c'.transcript == c.transcript && c'.outbox == c.outbox && c'.wr == c.wr
  {
    hide VerifyData, ReadRecord;
  }

  // ---- running off the end of a v3 hello ----

  predicate ShortV3Hello(inbox: bytes, version: bytes, hello: bytes, more: bytes) {
    && |version| == 2 && |hello| == 38 && hello[0] == HS_CLIENT_HELLO
    && inbox == Frame(CT_HANDSHAKE, version, hello) + more
  }

  /** The handshake slices out of range exactly on streams that begin with a v3
      hello of 38 bytes. */
  lemma {:induction false} HandshakeOutOfRangeIff(p: Crypto, s: Offer, inbox: bytes)
    requires s.Valid()
    ensures RunHandshake(p, s, Fresh(inbox)).Result() == Err(IndexOutOfRange) <==>
      exists version, hello, more :: ShortV3Hello(inbox, version, hello, more)
  {
    hide ReadClientHello, SendFlight, ReadKeyExchange, ReadFinished, SendFinished, TakeKeyExchange, ParseHello,
         FramedHello, Frame;
    var c := Fresh(inbox);
    var taken, wire, hello := HelloOutcome(p, c);
    if taken {
      if ReadClientHello(p, c).Done? {
        var c1 := ReadClientHello(p, c).conn;
        FlightSent(p, s, c1);
        LaterErrors(p, s, SendFlight(p, s, c1), ReadClientHello(p, c).value);
      } else if ParseHello(wire, hello) == Err(IndexOutOfRange) {
        HelloErrors(wire, hello);
        assert ShortV3Hello(inbox, wire[1..3], hello, ReadClientHello(p, c).conn.inbox);
      }
    }
    forall version, hello, more | ShortV3Hello(inbox, version, hello, more)
      ensures RunHandshake(p, s, Fresh(inbox)).Result() == Err(IndexOutOfRange)
    {
      var wire := Frame(CT_HANDSHAKE, version, hello);
      FrameVersion(CT_HANDSHAKE, version, hello);
      ShortIsFramed(wire, version, hello);
      HelloTaken(p, c, wire, hello, more);
    }
  }

  lemma ShortIsFramed(wire: bytes, version: bytes, hello: bytes)
    requires |version| == 2 && |hello| == 38 && hello[0] == HS_CLIENT_HELLO
    requires wire == Frame(CT_HANDSHAKE, version, hello)
    ensures FramedHello(wire, hello) && ParseHello(wire, hello) == Err(IndexOutOfRange)
  {
    hide BE;
    FrameVersion(CT_HANDSHAKE, version, hello);
  }

  lemma HelloErrors(wire: bytes, hello: bytes)
    requires FramedHello(wire, hello) && ParseHello(wire, hello) == Err(IndexOutOfRange)
    ensures |hello| == 38 && hello[0] == HS_CLIENT_HELLO
    ensures |wire| >= 5 && wire == Frame(CT_HANDSHAKE, wire[1..3], hello)
  {
    hide Offers, RightJustify, FromBE;
  }

  lemma LaterErrors(p: Crypto, s: Offer, c: Conn, random: bytes)
    requires c.Valid() && s.Valid() && !c.rd.active
    ensures var o := ReadKeyExchange(p, s, c, random);
      && o.Result() != Err(IndexOutOfRange)
      && (o.Done? ==> ReadFinished(p, o.conn, o.value).Result() != Err(IndexOutOfRange))
  {
    hide ReadKeyExchange, ReadFinished, FramedKeyExchange, TakeKeyExchange;
    var taken, wire, body := KeyExchangeOutcome(p, s, c, random);
    var o := ReadKeyExchange(p, s, c, random);
    if taken {
      FramedIsKeyExchange(wire, body);
      KeyExchangeResult(p, s, c.(inbox := o.conn.inbox, transcript := c.transcript + body), body, random);
    }
    if o.Done? {
      FinishedErrors(p, o.conn, o.value);
    }
  }

  lemma FinishedErrors(p: Crypto, c: Conn, master: bytes)
    requires c.Valid() && |c.rd.key| == 24 && |c.rd.iv| == 8
    ensures ReadFinished(p, c, master).Result() != Err(IndexOutOfRange)
  {
    hide VerifyData, ReadRecord;
    ReadFailure(p, c.rd, c.inbox);
    var c1 := Read(p, c).conn;
    ReadFailure(p, Activate(c1.rd), c1.inbox);
  }
}
