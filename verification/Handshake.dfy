// The server side of the handshake (tls10.go:223-420, 561-572; RFC 2246
// sections 6.3 and 7.4) as functions on the state of a connection, and what
// every run of it guarantees.
module Handshake {
  import opened Bytes
  import opened Results
  import opened Primitives
  import opened Prf
  import opened Record
  import opened Hello
  import opened Messages

  /** A connection: bytes not yet read, bytes written, the handshake messages so
      far, and the state of each direction. */
  datatype Conn = Conn(inbox: bytes, outbox: bytes, transcript: bytes, rd: Direction, wr: Direction)
  {
    predicate Valid() {
      rd.Valid() && wr.Valid()
    }
  }

  function Fresh(inbox: bytes): Conn {
    Conn(inbox, [], [], PLAIN, PLAIN)
  }

  datatype Outcome<+T> = Done(value: T, conn: Conn) | Failed(error: Error, conn: Conn)
  {
    predicate IsFailure() {
      Failed?
    }

    function PropagateFailure<U>(): Outcome<U>
      requires Failed?
    {
      Failed(error, conn)
    }

    function Extract(): (T, Conn)
      requires Done?
    {
      (value, conn)
    }

    function Result(): Result<T> {
      match this
      case Done(v, _) => Ok(v)
      case Failed(e, _) => Err(e)
    }
  }

  /** What the server brings to a handshake: its certificate chain, its random,
      and the random premaster it falls back on. */
  datatype Offer = Offer(chain: seq<bytes>, serverRandom: bytes, blind: bytes)
  {
    predicate Valid() {
      |serverRandom| == 32 && |blind| == 48
    }
  }

  function Read(p: Crypto, c: Conn): (o: Outcome<Rec>)
    requires c.Valid()
    ensures o.conn.Valid() && o.conn.wr == c.wr && o.conn.rd.active == c.rd.active
    ensures o.conn.rd.key == c.rd.key && |o.conn.rd.iv| == |c.rd.iv|
    ensures |o.conn.inbox| <= |c.inbox| && (o.Done? ==> |o.conn.inbox| < |c.inbox|)
  {
    var r := ReadRecord(p, c.rd, c.inbox);
    var c1 := c.(rd := r.dir, inbox := r.rest);
    match r.result
    case Ok(rec) => Done(rec, c1)
    case Err(e) => Failed(e, c1)
  }

  function Send(p: Crypto, c: Conn, r: Rec): (c': Conn)
    requires c.Valid()
    ensures c'.Valid() && c'.wr.active == c.wr.active
    ensures c'.wr.key == c.wr.key && |c'.wr.iv| == |c.wr.iv|
  {
    var (wire, wr) := WriteRecord(p, c.wr, r);
    c.(outbox := c.outbox + wire, wr := wr)
  }

  function SendHandshake(p: Crypto, c: Conn, msg: bytes): (c': Conn)
    requires c.Valid()
    ensures c'.Valid()
  {
    Send(p, c.(transcript := c.transcript + msg), Rec(CT_HANDSHAKE, msg))
  }

  // ---- 1) ClientHello and the server's first flight ----

  function ReadV2Hello(c: Conn): (o: Outcome<bytes>)
    ensures o.conn.rd == c.rd && o.conn.wr == c.wr && (o.Done? ==> |o.value| == 32)
  {
    match ReadFull(c.inbox, 2)
    case Err(e) => Failed(e, c.(inbox := []))
    case Ok((hdr, tail)) =>
      match ReadFull(tail, FromBE([hdr[0] % 0x80, hdr[1]]))
      case Err(e) => Failed(e, c.(inbox := []))
      case Ok((body, rest)) =>
        var c1 := c.(inbox := rest);
        if |body| < 9 || body[0] != HS_CLIENT_HELLO then Failed(MalformedV2Hello, c1)
        else Answer(ParseV2(body), c1.(transcript := c1.transcript + body))
  }

  function Answer<T>(r: Result<T>, c: Conn): Outcome<T> {
    match r
    case Ok(v) => Done(v, c)
    case Err(e) => Failed(e, c)
  }

  function ReadV3Hello(p: Crypto, c: Conn): (o: Outcome<bytes>)
    requires c.Valid()
    ensures o.conn.Valid() && (o.Done? ==> |o.value| == 32)
  {
    var (rec, c1) :- Read(p, c);
    var body := rec.content;
    if rec.contentType != CT_HANDSHAKE || |body| < 4 || body[0] != HS_CLIENT_HELLO then Failed(ExpectedClientHello, c1)
    else Answer(ParseV3(body), c1.(transcript := c1.transcript + body))
  }

  function ReadClientHello(p: Crypto, c: Conn): (o: Outcome<bytes>)
    requires c.Valid()
    ensures o.conn.Valid() && (o.Done? ==> |o.value| == 32)
  {
    if c.inbox == [] then Failed(Eof, c)
    else if c.inbox[0] >= 0x80 then ReadV2Hello(c)
    else ReadV3Hello(p, c)
  }

  const HELLO_DONE: bytes := [HS_SERVER_HELLO_DONE, 0, 0, 0]

  function SendFlight(p: Crypto, s: Offer, c: Conn): (c': Conn)
    requires c.Valid()
    ensures c'.Valid()
  {
    var c1 := SendHandshake(p, c, ServerHello(s.serverRandom));
    var c2 := SendHandshake(p, c1, CertificateMessage(s.chain));
    SendHandshake(p, c2, HELLO_DONE)
  }

  // ---- 2) ClientKeyExchange ----

  function MasterSecret(p: Crypto, premaster: bytes, clientRandom: bytes, serverRandom: bytes): bytes {
    Prf10Value(p, premaster, "master secret", clientRandom + serverRandom, 48)
  }

  function KeyBlock(p: Crypto, master: bytes, clientRandom: bytes, serverRandom: bytes): (kb: bytes)
    ensures |kb| == 104
  {
    Prf10Value(p, master, "key expansion", serverRandom + clientRandom, 2 * MAC_LEN + 2 * KEY_LEN + 2 * BLOCK_LEN)
  }

  /** The direction keyed with the client's write keys, and with the server's (RFC 2246 section 6.3). */
  function ClientWrites(kb: bytes): Direction
    requires |kb| == 104
  {
    Direction(true, 0, kb[40..64], kb[88..96], kb[..20])
  }

  function ServerWrites(kb: bytes): Direction
    requires |kb| == 104
  {
    Direction(true, 0, kb[64..88], kb[96..104], kb[20..40])
  }

  /** RFC 2246 section 6.3: the key block is the two MAC secrets, the two keys
      and the two IVs, the client's first each time. */
  lemma KeyBlockOrder(kb: bytes)
    requires |kb| == 104
    ensures var c, s := ClientWrites(kb), ServerWrites(kb);
      && kb == c.mac + s.mac + c.key + s.key + c.iv + s.iv
      && |c.mac| == |s.mac| == MAC_LEN && |c.key| == |s.key| == KEY_LEN && |c.iv| == |s.iv| == BLOCK_LEN
  {
    var c, s := ClientWrites(kb), ServerWrites(kb);
    assert kb[..40] == c.mac + s.mac;
    assert kb[40..88] == c.key + s.key;
    assert kb[88..] == c.iv + s.iv;
    assert kb == kb[..40] + (kb[40..88] + kb[88..]);
  }

  /** setupKeys: new keys on both sides, not yet in use. */
  function SetupKeys(p: Crypto, c: Conn, master: bytes, clientRandom: bytes, serverRandom: bytes): Conn {
    var kb := KeyBlock(p, master, clientRandom, serverRandom);
    c.(rd := ClientWrites(kb).(active := c.rd.active, seqNo := c.rd.seqNo),
       wr := ServerWrites(kb).(active := c.wr.active, seqNo := c.wr.seqNo))
  }

  function ReadKeyExchange(p: Crypto, s: Offer, c: Conn, clientRandom: bytes): (o: Outcome<bytes>)
    requires c.Valid() && s.Valid()
    ensures o.conn.Valid()
    ensures o.Done? ==> |o.conn.rd.key| == |o.conn.wr.key| == 24 && |o.conn.rd.iv| == |o.conn.wr.iv| == 8
  {
    var (rec, c1) :- Read(p, c);
    var body := rec.content;
    if rec.contentType != CT_HANDSHAKE || |body| < 4 || body[0] != HS_CLIENT_KEY_EXCHANGE then Failed(Unexpected, c1)
    else
      TakeKeyExchange(p, s, c1.(transcript := c1.transcript + body), body, clientRandom)
  }

  /** What the server does with a ClientKeyExchange already in the transcript. */
  function TakeKeyExchange(p: Crypto, s: Offer, c: Conn, body: bytes, clientRandom: bytes): (o: Outcome<bytes>)
    requires c.Valid() && s.Valid() && |body| >= 4
    ensures o.conn.Valid()
    ensures o.Done? ==> |o.conn.rd.key| == |o.conn.wr.key| == 24 && |o.conn.rd.iv| == |o.conn.wr.iv| == 8
  {
    var (premaster, _) :- Answer(Premaster(p, body, s.blind), c);
    var master := MasterSecret(p, premaster, clientRandom, s.serverRandom);
    Done(master, SetupKeys(p, c, master, clientRandom, s.serverRandom))
  }

  // ---- 3) ChangeCipherSpec and Finished, both ways ----

  function VerifyData(p: Crypto, master: bytes, purpose: string, transcript: bytes): (v: bytes)
    ensures |v| == 12
  {
    Prf10Value(p, master, purpose, FinishedHash(p, transcript), 12)
  }

  function Activate(d: Direction): Direction {
    d.(active := true, seqNo := 0)
  }

  function ReadFinished(p: Crypto, c: Conn, master: bytes): (o: Outcome<()>)
    requires c.Valid() && |c.rd.key| == 24 && |c.rd.iv| == 8
    ensures o.conn.Valid() && o.conn.wr == c.wr
  {
    var (ccs, c1) :- Read(p, c);
    if ccs.contentType != CT_CHANGE_CIPHER_SPEC then Failed(Unexpected, c1)
    else
      var c2 := c1.(rd := Activate(c1.rd));
      var (rec, c3) :- Read(p, c2);
      var fin := rec.content;
      if rec.contentType != CT_HANDSHAKE || |fin| != 16 || fin[0] != HS_FINISHED then Failed(Unexpected, c3)
      else if fin[4..16] != VerifyData(p, master, "client finished", c2.transcript) then Failed(FinishedMismatch, c3)
      else Done((), c3.(transcript := c3.transcript + fin))
  }

  function ServerFinished(p: Crypto, master: bytes, transcript: bytes): Rec {
    Rec(CT_HANDSHAKE, [HS_FINISHED, 0, 0, 12] + VerifyData(p, master, "server finished", transcript))
  }

  function SendFinished(p: Crypto, c: Conn, master: bytes): (c': Conn)
    requires c.Valid() && |c.wr.key| == 24 && |c.wr.iv| == 8
    ensures c'.Valid()
  {
    var c1 := Send(p, c, Rec(CT_CHANGE_CIPHER_SPEC, [1]));
    var c2 := c1.(wr := Activate(c1.wr));
    Send(p, c2, ServerFinished(p, master, c.transcript))
  }

  // ---- the whole handshake ----

  function RunHandshake(p: Crypto, s: Offer, c: Conn): (o: Outcome<bytes>)
    requires c.Valid() && s.Valid()
    ensures o.conn.Valid()
  {
    var (clientRandom, c1) :- ReadClientHello(p, c);
    var c2 := SendFlight(p, s, c1);
    var (master, c3) :- ReadKeyExchange(p, s, c2, clientRandom);
    var (_, c4) :- ReadFinished(p, c3, master);
    Done(master, SendFinished(p, c4, master))
  }
}
