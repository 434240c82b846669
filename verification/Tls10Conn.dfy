// The connection object of tls10.go and its methods, each proved to do what the
// functions of the other modules say.
module Tls10 {
  import opened Bytes
  import opened Results
  import opened Primitives
  import Cbc
  import opened Prf
  import opened Record
  import opened Channel
  import opened Hello
  import opened Messages
  import opened Handshake
  import opened Http
  import opened Session

  class Tls10Conn {
    const p: Crypto

    var inbox: bytes   // what the peer has sent and the code not yet read
    var outbox: bytes  // what the code has written to the peer

    var transcript: bytes

    var readActive: bool
    var writeActive: bool
    var readSeq: uint64
    var writeSeq: uint64
    var readKey: bytes
    var writeKey: bytes
    var readIV: bytes
    var writeIV: bytes
    var readMAC: bytes
    var writeMAC: bytes

    ghost function ReadSide(): Direction
      reads this
    {
      Direction(readActive, readSeq, readKey, readIV, readMAC)
    }

    ghost function WriteSide(): Direction
      reads this
    {
      Direction(writeActive, writeSeq, writeKey, writeIV, writeMAC)
    }

    ghost function State(): Conn
      reads this
    {
      Conn(inbox, outbox, transcript, ReadSide(), WriteSide())
    }

    ghost predicate Valid()
      reads this
    {
      State().Valid()
    }

    /** A method's result together with the state it leaves behind. */
    ghost function With<T>(r: Result<T>): Outcome<T>
      reads this
    {
      Answer(r, State())
    }

    constructor (p: Crypto, inbox: bytes)
      ensures State() == Fresh(inbox) && Valid() && this.p == p
    {
      this.p := p;
      this.inbox, outbox, transcript := inbox, [], [];
      readActive, writeActive, readSeq, writeSeq := false, false, 0, 0;
      readKey, writeKey, readIV, writeIV, readMAC, writeMAC := [], [], [], [], [], [];
    }

    /** io.ReadFull on the connection. */
    method ReadFully(n: nat) returns (r: Result<bytes>)
      modifies this`inbox
      ensures match ReadFull(old(inbox), n)
              case Ok((b, rest)) => r == Ok(b) && inbox == rest
              case Err(e) => r == Err(e) && inbox == []
    {
      if n <= |inbox| {
        r := Ok(inbox[..n]);
        inbox := inbox[n..];
      } else {
        r := Err(if inbox == [] then Eof else UnexpectedEof);
        inbox := [];
      }
    }

    method RecordMAC(key: bytes, seqNo: uint64, contentType: byte, content: bytes) returns (mac: bytes)
      ensures mac == p.hmacSha1(key, MacInput(seqNo, Rec(contentType, content))) && |mac| == MAC_LEN
    {
      var hdr := BE(seqNo, 8) + [contentType, VERSION[0], VERSION[1]] + BE(|content|, 2);
      mac := p.hmacSha1(key, hdr + content);
    }

    method Decrypt(contentType: byte, frag: bytes) returns (r: Result<bytes>)
      requires Valid() && readActive
      modifies this`readIV, this`readSeq
      ensures (r, ReadSide()) == Record.Decrypt(p, old(ReadSide()), contentType, frag)
    {
      if |frag| < BLOCK_LEN || |frag| % BLOCK_LEN != 0 {
        return Err(BadCbcLength);
      }
      var plain := Cbc.Decrypt(p, readKey, readIV, frag);
      readIV := frag[|frag| - BLOCK_LEN..];

      var padLen := (plain[|plain| - 1] as int) + 1;
      if padLen > |plain| - MAC_LEN {
        return Err(BadPadding);
      }
      var rec := plain[..|plain| - padLen];
      if |rec| < MAC_LEN {
        return Err(ShorterThanMac);
      }
      var content := rec[..|rec| - MAC_LEN];
      var gotMAC := rec[|rec| - MAC_LEN..];

      var wantMAC := RecordMAC(readMAC, readSeq, contentType, content);
      if gotMAC != wantMAC {
        return Err(BadRecordMac);
      }
      readSeq := (readSeq + 1) % TWO_64;
      return Ok(content);
    }

    method ReadRecord() returns (r: Result<Rec>)
      requires Valid()
      modifies this`inbox, this`readIV, this`readSeq
      ensures With(r) == Read(p, old(State()))
    {
      hide Record.Decrypt;
      var hdr :- ReadFully(5);
      var length := FromBE(hdr[3..5]);
      if length > MAX_FRAGMENT {
        return Err(RecordTooLarge);
      }
      var frag :- ReadFully(length);
      if !readActive {
        return Ok(Rec(hdr[0], frag));
      }
      var content :- Decrypt(hdr[0], frag);
      return Ok(Rec(hdr[0], content));
    }

    method AppendPadding(content: bytes, mac: bytes) returns (plain: bytes)
      requires |mac| == MAC_LEN
      ensures var k := PadLen(|content| + MAC_LEN);
        plain == content + mac + Filler(k - 1) + [k - 1]
    {
      plain := content + mac;
      var padLen := BLOCK_LEN - (|plain| % BLOCK_LEN);
      if padLen == 0 {
        padLen := BLOCK_LEN;
      }
      var i := 0;
      while i < padLen
        invariant 0 <= i <= padLen
        invariant plain == content + mac + seq(i, _ => padLen - 1)
      {
        plain := plain + [padLen - 1];
        i := i + 1;
      }
      assert seq(padLen, _ => padLen - 1) == Filler(padLen - 1) + [padLen - 1];
    }

    method WriteRecord(contentType: byte, content: bytes)
      requires Valid()
      modifies this`outbox, this`writeIV, this`writeSeq
      ensures State() == Send(p, old(State()), Rec(contentType, content))
    {
      hide Filler, RecordMac, BE, Cbc.Encrypt, Frame, Layout;
      var payload;
      if !writeActive {
        payload := content;
      } else {
        var mac := RecordMAC(writeMAC, writeSeq, contentType, content);
        IsRecordMac(p, WriteSide(), Rec(contentType, content));
        var plain := AppendPadding(content, mac);
        IsPlaintext(p, WriteSide(), Rec(contentType, content), mac, plain);
        payload := Cbc.Encrypt(p, writeKey, writeIV, plain);
        writeIV := payload[|payload| - BLOCK_LEN..];
        writeSeq := (writeSeq + 1) % TWO_64;
      }
      assert payload == Payload(p, old(WriteSide()), Rec(contentType, content));
      Encode2(|payload|);
      var rec := [contentType, VERSION[0], VERSION[1]];
      rec := rec + [|payload| / 256 % 256, |payload| % 256];
      rec := rec + payload;
      IsFrame(contentType, payload, rec);
      outbox := outbox + rec;
    }

    method WriteHandshake(msg: bytes)
      requires Valid()
      modifies this`transcript, this`outbox, this`writeIV, this`writeSeq
      ensures State() == SendHandshake(p, old(State()), msg)
    {
      transcript := transcript + msg;
      WriteRecord(CT_HANDSHAKE, msg);
    }

    method ReadClientHello() returns (r: Result<bytes>)
      requires Valid()
      modifies this`inbox, this`readIV, this`readSeq, this`transcript
      ensures With(r) == Handshake.ReadClientHello(p, old(State()))
    {
      if inbox == [] {
        return Err(Eof);
      }
      if inbox[0] >= 0x80 {
        r := ReadV2Hello();
      } else {
        r := ReadV3Hello();
      }
    }

    method ReadV2Hello() returns (r: Result<bytes>)
      requires Valid()
      modifies this`inbox, this`transcript
      ensures With(r) == Handshake.ReadV2Hello(old(State()))
    {
      hide ParseV2;
      var hdr :- ReadFully(2);
      var recLen := FromBE([hdr[0] % 0x80, hdr[1]]);
      var body :- ReadFully(recLen);
      if |body| < 9 || body[0] != HS_CLIENT_HELLO {
        return Err(MalformedV2Hello);
      }
      transcript := transcript + body;
      r := V2Fields(body);
    }

    method ReadV3Hello() returns (r: Result<bytes>)
      requires Valid()
      modifies this`inbox, this`readIV, this`readSeq, this`transcript
      ensures With(r) == Handshake.ReadV3Hello(p, old(State()))
    {
      hide Read, ParseV3;
      var rec :- ReadRecord();
      var body := rec.content;
      if rec.contentType != CT_HANDSHAKE || |body| < 4 || body[0] != HS_CLIENT_HELLO {
        return Err(ExpectedClientHello);
      }
      transcript := transcript + body;
      r := V3Fields(body);
    }

    method SetupKeys(master: bytes, clientRandom: bytes, serverRandom: bytes)
      modifies this`readMAC, this`writeMAC, this`readIV, this`writeIV, this`readKey, this`writeKey
      ensures State() == Handshake.SetupKeys(p, old(State()), master, clientRandom, serverRandom)
    {
      hide Prf10Value, KeyBlock, ClientWrites, ServerWrites;
      var kb := Prf10(p, master, "key expansion", serverRandom + clientRandom,
                      2 * MAC_LEN + 2 * KEY_LEN + 2 * BLOCK_LEN);
      readMAC := kb[0..MAC_LEN];
      writeMAC := kb[MAC_LEN..2 * MAC_LEN];
      var cKey := kb[2 * MAC_LEN..2 * MAC_LEN + KEY_LEN];
      var sKey := kb[2 * MAC_LEN + KEY_LEN..2 * MAC_LEN + 2 * KEY_LEN];
      var ivs := 2 * MAC_LEN + 2 * KEY_LEN;
      readIV := kb[ivs..ivs + BLOCK_LEN];
      writeIV := kb[ivs + BLOCK_LEN..ivs + 2 * BLOCK_LEN];
      readKey := cKey;
      writeKey := sKey;
      KeysCut(kb);
      IsKeyBlock(p, master, clientRandom, serverRandom);
    }

    method HandshakeAndServe(s: Offer, keyIsRsa: bool, answer: Request -> bytes) returns (r: Result<()>)
      requires Valid() && s.Valid()
      modifies this
      ensures With(r) == if keyIsRsa then Serve(p, s, answer, old(State())) else Failed(KeyNotRsa, old(State()))
    {
      if !keyIsRsa {
        return Err(KeyNotRsa);
      }
      hide Handshake.ReadClientHello, SendFlight, ReadKeyExchange, ReadFinished, SendFinished, ServeHttp;
      var clientRandom :- ReadClientHello();
      SendFlightStep(s);
      var master :- KeyExchangeStep(s, clientRandom);
      var _ :- FinishedStep(master);
      SendFinishedStep(master);
      r := ServeHTTP(answer);
    }

    /** Steps 2 and 3 of handshakeAndServe. */
    method SendFlightStep(s: Offer)
      requires Valid() && s.Valid()
      modifies this`transcript, this`outbox, this`writeIV, this`writeSeq
      ensures State() == SendFlight(p, s, old(State()))
    {
      hide SendHandshake, ServerHello, CertificateMessage;
      var sh := BuildServerHello(s.serverRandom);
      WriteHandshake(sh);
      var cert := BuildCertificate(s.chain);
      WriteHandshake(cert);
      WriteHandshake([HS_SERVER_HELLO_DONE, 0, 0, 0]);
    }

    /** Step 4 of handshakeAndServe. */
    method KeyExchangeStep(s: Offer, clientRandom: bytes) returns (r: Result<bytes>)
      requires Valid() && s.Valid()
      modifies this
      ensures With(r) == ReadKeyExchange(p, s, old(State()), clientRandom)
    {
      hide Read, Prf10Value, Premaster, Handshake.SetupKeys;
      var rec :- ReadRecord();
      var body := rec.content;
      if rec.contentType != CT_HANDSHAKE || |body| < 4 || body[0] != HS_CLIENT_KEY_EXCHANGE {
        return Err(Unexpected);
      }
      transcript := transcript + body;
      var premaster :- DecryptPremaster(p, body, s.blind);
      var master := Prf10(p, premaster, "master secret", clientRandom + s.serverRandom, 48);
      SetupKeys(master, clientRandom, s.serverRandom);
      return Ok(master);
    }

    /** Step 5 of handshakeAndServe. */
    method FinishedStep(master: bytes) returns (r: Result<()>)
      requires Valid() && |readKey| == 24 && |readIV| == 8
      modifies this
      ensures With(r) == ReadFinished(p, old(State()), master)
    {
      hide Read, Prf10Value, FinishedHash;
      var ccs :- ReadRecord();
      if ccs.contentType != CT_CHANGE_CIPHER_SPEC {
        return Err(Unexpected);
      }
      readActive, readSeq := true, 0;
      var clientVerify := Prf10(p, master, "client finished", FinishedHash(p, transcript), 12);
      var rec :- ReadRecord();
      var fin := rec.content;
      if rec.contentType != CT_HANDSHAKE || |fin| != 16 || fin[0] != HS_FINISHED {
        return Err(Unexpected);
      }
      if fin[4..16] != clientVerify {
        return Err(FinishedMismatch);
      }
      transcript := transcript + fin;
      return Ok(());
    }

    /** Step 6 of handshakeAndServe. */
    method SendFinishedStep(master: bytes)
      requires Valid() && |writeKey| == 24 && |writeIV| == 8
      modifies this
      ensures State() == SendFinished(p, old(State()), master)
    {
      hide Send, Prf10Value, FinishedHash;
      WriteRecord(CT_CHANGE_CIPHER_SPEC, [1]);
      writeActive, writeSeq := true, 0;
      var serverVerify := Prf10(p, master, "server finished", FinishedHash(p, transcript), 12);
      var serverFin := [HS_FINISHED, 0, 0, 12] + serverVerify;
      WriteRecord(CT_HANDSHAKE, serverFin);
    }

    method ReadAppData() returns (r: Result<bytes>)
      requires Valid()
      modifies this`inbox, this`readIV, this`readSeq
      ensures With(r) == Session.ReadAppData(p, old(State()))
    {
      hide Read;
      while true
        invariant Valid()
        invariant Session.ReadAppData(p, State()) == Session.ReadAppData(p, old(State()))
        decreases |inbox|
      {
        ghost var c := State();
        var rec :- ReadRecord();
        if rec.contentType == CT_APPLICATION_DATA {
          return Ok(rec.content);
        } else if rec.contentType == CT_ALERT {
          return Err(Eof);
        }
        assert Session.ReadAppData(p, c) == Session.ReadAppData(p, State());
      }
    }

    method ServeHTTP(answer: Request -> bytes) returns (r: Result<()>)
      requires Valid()
      modifies this
      ensures With(r) == ServeHttp(p, answer, old(State()), [])
    {
      hide Session.ReadAppData, Parse, SendAll, Fragments;
      var buf: bytes := [];
      while true
        invariant Valid()
        invariant ServeHttp(p, answer, State(), buf) == ServeHttp(p, answer, old(State()), [])
        decreases |inbox|
      {
        var chunk :- ReadAppData();
        buf := buf + chunk;
        var parsed := ParseHTTPRequest(buf);
        match parsed {
          case Incomplete =>
          case OutOfRange =>
            return Err(IndexOutOfRange);
          case Complete(req) =>
            SendReply(answer(req));
            return Ok(());
        }
      }
    }

    /** The end of serveHTTP: the reply in records of at most 2^14 bytes. */
    method SendReply(reply: bytes)
      requires Valid()
      modifies this`outbox, this`writeIV, this`writeSeq
      ensures State() == SendAll(p, old(State()), AppRecs(Fragments(reply)))
    {
      hide Send, SendAll;
      var resp := reply;
      while |resp| > MAX_PLAINTEXT
        invariant Valid()
        invariant SendAll(p, State(), AppRecs(Fragments(resp))) == SendAll(p, old(State()), AppRecs(Fragments(reply)))
      {
        SendFirst(p, State(), resp);
        WriteRecord(CT_APPLICATION_DATA, resp[..MAX_PLAINTEXT]);
        resp := resp[MAX_PLAINTEXT..];
      }
      SendFirst(p, State(), resp);
      WriteRecord(CT_APPLICATION_DATA, resp);
    }
  }

  /** Sending a reply starts with sending its first record. */
  lemma SendFirst(p: Crypto, c: Conn, resp: bytes)
    requires c.Valid()
    ensures var first := Send(p, c, Rec(CT_APPLICATION_DATA, Fragments(resp)[0]));
      SendAll(p, c, AppRecs(Fragments(resp)))
        == if |resp| > MAX_PLAINTEXT then SendAll(p, first, AppRecs(Fragments(resp[MAX_PLAINTEXT..]))) else first
  {
    hide Send, SendAll, AppRecs;
    var f := Fragments(resp);
    var first, rest := Rec(CT_APPLICATION_DATA, f[0]), AppRecs(f[1..]);
    AppRecsFirst(f);
    SendOne(p, c, first, rest);
    if |resp| > MAX_PLAINTEXT {
      assert f[1..] == Fragments(resp[MAX_PLAINTEXT..]);
    } else {
      assert |rest| == 0;
      SendNone(p, Send(p, c, first));
    }
  }

  lemma SendNone(p: Crypto, c: Conn)
    requires c.Valid()
    ensures SendAll(p, c, []) == c
  {
    assert c.outbox + [] == c.outbox;
  }

  lemma SendOne(p: Crypto, c: Conn, r: Rec, more: seq<Rec>)
    requires c.Valid()
    ensures SendAll(p, c, [r] + more) == SendAll(p, Send(p, c, r), more)
  {
    hide Record.WriteRecord;
    var (wire, d) := Record.WriteRecord(p, c.wr, r);
    var (rest, _) := WriteAll(p, d, more);
    assert ([r] + more)[1..] == more;
    assert c.outbox + (wire + rest) == (c.outbox + wire) + rest;
  }

  lemma KeysCut(kb: bytes)
    requires |kb| == 104
    ensures ClientWrites(kb) == Direction(true, 0, kb[40..64], kb[88..96], kb[0..20])
    ensures ServerWrites(kb) == Direction(true, 0, kb[64..88], kb[96..104], kb[20..40])
  {
  }

  lemma IsKeyBlock(p: Crypto, master: bytes, clientRandom: bytes, serverRandom: bytes)
    ensures KeyBlock(p, master, clientRandom, serverRandom)
      == Prf10Value(p, master, "key expansion", serverRandom + clientRandom, 104)
  {
  }

  lemma IsPlaintext(p: Crypto, d: Direction, r: Rec, mac: bytes, plain: bytes)
    requires mac == RecordMac(p, d, r)
    requires var k := PadLen(|r.content| + MAC_LEN); plain == r.content + mac + Filler(k - 1) + [k - 1]
    ensures plain == Plaintext(p, d, r)
  {
  }

  lemma IsFrame(contentType: byte, frag: bytes, rec: bytes)
    requires rec == [contentType, VERSION[0], VERSION[1]] + BE(|frag|, 2) + frag
    ensures rec == Frame(contentType, VERSION, frag)
  {
    hide BE;
    assert [contentType, VERSION[0], VERSION[1]] == [contentType] + VERSION;
  }

  lemma IsRecordMac(p: Crypto, d: Direction, r: Rec)
    ensures RecordMac(p, d, r) == p.hmacSha1(d.mac, MacInput(d.seqNo, r))
  {
  }
}
