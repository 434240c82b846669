// The server's handshake messages and the client's key exchange
// (tls10.go:503-559; RFC 2246 section 7.4).
module Messages {
  import opened Bytes
  import opened Results
  import opened Primitives
  import opened Record

  const HS_SERVER_HELLO: byte := 2
  const HS_CERTIFICATE: byte := 11
  const HS_SERVER_HELLO_DONE: byte := 14
  const HS_CLIENT_KEY_EXCHANGE: byte := 16
  const HS_FINISHED: byte := 20

  /** A handshake message with its 3-byte length filled in. */
  function WithLength(msg: bytes): (m: bytes)
    requires |msg| >= 4
    ensures |m| == |msg|
  {
    msg[..1] + BE(|msg| - 4, 3) + msg[4..]
  }

  lemma Encode3(n: nat)
    ensures BE(n, 3) == [n / 0x1_0000 % 256, n / 256 % 256, n % 256]
  {
    Encode2(n / 256);
  }

  method PutHSLen(msg: array<byte>)
    requires msg.Length >= 4
    modifies msg
    ensures msg[..] == WithLength(old(msg[..]))
  {
    var n := msg.Length - 4;
    msg[1] := n / 0x1_0000 % 256;
    msg[2] := n / 256 % 256;
    msg[3] := n % 256;
    Encode3(n);
  }

  function ServerHello(serverRandom: bytes): bytes {
    WithLength([HS_SERVER_HELLO, 0, 0, 0] + VERSION + serverRandom + [0x00] + [0x00, 0x0a] + [0x00])
  }

  /** RFC 2246 section 7.4.1.3: length, version, random, no session id, the
      3DES suite and no compression, each in its place. */
  lemma ServerHelloFields(serverRandom: bytes)
    requires |serverRandom| == 32
    ensures var m := ServerHello(serverRandom);
      && |m| == 42 && m[0] == 2 && FromBE(m[1..4]) == 38
      && m[4..6] == [3, 1] && m[6..38] == serverRandom && m[38] == 0 && m[39..41] == [0x00, 0x0a] && m[41] == 0
  {
    hide BE, FromBE;
    var b := [HS_SERVER_HELLO, 0, 0, 0] + VERSION + serverRandom + [0x00] + [0x00, 0x0a] + [0x00];
    assert b[4..6] == VERSION && b[6..38] == serverRandom && b[39..41] == [0x00, 0x0a];
    WithLengthHeader(b);
    WithLengthTail(b, 4, 6);
    WithLengthTail(b, 6, 38);
    WithLengthTail(b, 38, 39);
    WithLengthTail(b, 39, 41);
    WithLengthTail(b, 41, 42);
    var m := WithLength(b);
    assert m[38] == m[38..39][0] && m[41] == m[41..42][0];
    Fits3(38);
  }

  lemma WithLengthHeader(msg: bytes)
    requires |msg| >= 4
    ensures WithLength(msg)[0] == msg[0] && WithLength(msg)[1..4] == BE(|msg| - 4, 3)
  {
    hide BE;
  }

  lemma WithLengthTail(msg: bytes, i: nat, j: nat)
    requires 4 <= i <= j <= |msg|
    ensures WithLength(msg)[i..j] == msg[i..j]
  {
    hide BE;
    AfterPrefix(msg[..1] + BE(|msg| - 4, 3), msg[4..], i, j);
    Subslice(msg, 4, |msg|, i, j);
  }

  /** The type stays, the length of what follows is filled in modulo 2^24, and
      the rest stays. */
  lemma WithLengthFields(msg: bytes)
    requires |msg| >= 4
    ensures var m := WithLength(msg);
      m[0] == msg[0] && FromBE(m[1..4]) == (|msg| - 4) % 0x100_0000 && m[4..] == msg[4..]
  {
    hide BE, FromBE;
    WithLengthHeader(msg);
    assert WithLength(msg)[4..] == msg[4..];
    Capacities();
    DecodeEncode(|msg| - 4, 3);
  }

  /** RFC 2246 appendix A: the numbers of content types and handshake messages. */
  lemma MessageNumbers(chain: seq<bytes>, enc: bytes)
    ensures CT_CHANGE_CIPHER_SPEC == 20 && CT_ALERT == 21 && CT_HANDSHAKE == 22 && CT_APPLICATION_DATA == 23
    ensures HS_SERVER_HELLO_DONE == 14 && HS_FINISHED == 20
    ensures CertificateMessage(chain)[0] == HS_CERTIFICATE == 11
    ensures KeyExchange(enc)[0] == HS_CLIENT_KEY_EXCHANGE == 16
  {
  }

  method BuildServerHello(serverRandom: bytes) returns (msg: bytes)
    ensures msg == ServerHello(serverRandom)
  {
    var b := [HS_SERVER_HELLO, 0, 0, 0];
    b := b + VERSION;
    b := b + serverRandom;
    b := b + [0x00];
    b := b + [0x00, 0x0a];
    b := b + [0x00];
    msg := FillLength(b);
  }

  /** putHSLen on a freshly built message. */
  method FillLength(b: bytes) returns (msg: bytes)
    requires |b| >= 4
    ensures msg == WithLength(b)
  {
    var a := new byte[|b|](i requires 0 <= i < |b| => b[i]);
    assert a[..] == b;
    PutHSLen(a);
    msg := a[..];
  }

  // ---- certificates ----

  function CertList(chain: seq<bytes>): bytes {
    if chain == [] then [] else BE(|chain[0]|, 3) + chain[0] + CertList(chain[1..])
  }

  function CertificateMessage(chain: seq<bytes>): (m: bytes)
    ensures |m| == 7 + |CertList(chain)|
  {
    WithLength([HS_CERTIFICATE, 0, 0, 0] + BE(|CertList(chain)|, 3) + CertList(chain))
  }

  lemma {:induction false} CertListAppend(a: seq<bytes>, der: bytes)
    ensures CertList(a + [der]) == CertList(a) + BE(|der|, 3) + der
  {
    if a != [] {
      assert (a + [der])[1..] == a[1..] + [der];
      CertListAppend(a[1..], der);
    } else {
      assert (a + [der])[1..] == [];
    }
  }

  method BuildCertificate(chain: seq<bytes>) returns (msg: bytes)
    ensures msg == CertificateMessage(chain)
  {
    var certs: bytes := [];
    var k := 0;
    while k < |chain|
      invariant 0 <= k <= |chain|
      invariant certs == CertList(chain[..k])
    {
      var der := chain[k];
      var n := |der|;
      Encode3(n);
      CertListAppend(chain[..k], der);
      assert chain[..k + 1] == chain[..k] + [der];
      certs := certs + [n / 0x1_0000 % 256, n / 256 % 256, n % 256];
      certs := certs + der;
      k := k + 1;
    }
    assert chain[..k] == chain;
    var n := |certs|;
    Encode3(n);
    var b := [HS_CERTIFICATE, 0, 0, 0];
    b := b + [n / 0x1_0000 % 256, n / 256 % 256, n % 256];
    b := b + certs;
    msg := FillLength(b);
  }

  /** The receiver's reading of a certificate_list, by its nested lengths. */
  function DecodeList(b: bytes): Option<seq<bytes>>
    decreases |b|
  {
    if b == [] then Some([])
    else if |b| < 3 then None
    else
      var n := FromBE(b[..3]);
      if 3 + n > |b| then None
      else
        match DecodeList(b[3 + n..])
        case None => None
        case Some(more) => Some([b[3..3 + n]] + more)
  }

  function DecodeCertificate(msg: bytes): Option<seq<bytes>> {
    if |msg| < 7 || msg[0] != HS_CERTIFICATE then None
    else if FromBE(msg[1..4]) != |msg| - 4 || FromBE(msg[4..7]) != |msg| - 7 then None
    else DecodeList(msg[7..])
  }

  lemma {:induction false} DecodeCertList(chain: seq<bytes>)
    requires |CertList(chain)| < 0x100_0000
    ensures DecodeList(CertList(chain)) == Some(chain)
  {
    if chain != [] {
      hide BE, FromBE;
      var b, n := CertList(chain), |chain[0]|;
      assert b[..3] == BE(n, 3) && b[3..3 + n] == chain[0] && b[3 + n..] == CertList(chain[1..]);
      Fits3(n);
      DecodeCertList(chain[1..]);
      assert chain == [chain[0]] + chain[1..];
    }
  }

  /** A client reading the nested lengths gets the chain back in order exactly
      when the message body fits the 24-bit length. */
  lemma {:induction false} CertificateRoundTrip(chain: seq<bytes>)
    ensures DecodeCertificate(CertificateMessage(chain)) == Some(chain) <==> |CertList(chain)| + 3 < 0x100_0000
  {
    hide BE, FromBE, CertList;
    var msg, certs := CertificateMessage(chain), CertList(chain);
    assert msg[1..4] == BE(|msg| - 4, 3);
    assert msg[4..] == BE(|certs|, 3) + certs;
    assert msg[4..7] == BE(|certs|, 3) && msg[7..] == certs;
    Fits3(|msg| - 4);
    Fits3(|certs|);
    if |certs| + 3 < 0x100_0000 {
      DecodeCertList(chain);
    }
  }

  // ---- key exchange ----

  function KeyExchange(enc: bytes): (m: bytes)
    ensures |m| == 6 + |enc|
  {
    WithLength([HS_CLIENT_KEY_EXCHANGE, 0, 0, 0] + BE(|enc|, 2) + enc)
  }

  /** The premaster secret the server goes on with. `blind` is the random value
      it falls back on when decryption fails. */
  function Premaster(p: Crypto, cke: bytes, blind: bytes): (r: Result<bytes>)
    requires |cke| >= 4 && |blind| == 48
    ensures r.Ok? ==> |r.value| == 48
  {
    var body := cke[4..];
    if |body| < 2 then Err(ShortKeyExchange)
    else
      var encLen := FromBE(body[0..2]);
      if 2 + encLen > |body| then Err(BadKeyExchangeLength)
      else
        match p.rsaDecrypt(body[2..2 + encLen])
        case Some(dec) => Ok(if |dec| == 48 then dec else VERSION + blind[2..])
        case None => Ok(VERSION + blind[2..])
  }

  method DecryptPremaster(p: Crypto, cke: bytes, blind: bytes) returns (r: Result<bytes>)
    requires |cke| >= 4 && |blind| == 48
    ensures r == Premaster(p, cke, blind)
  {
    var body := cke[4..];
    if |body| < 2 {
      return Err(ShortKeyExchange);
    }
    var encLen := FromBE(body[0..2]);
    if 2 + encLen > |body| {
      return Err(BadKeyExchangeLength);
    }
    var enc := body[2..2 + encLen];
    var premaster := new byte[48](i requires 0 <= i < 48 => blind[i]);
    premaster[0] := VERSION[0];
    premaster[1] := VERSION[1];
    var dec := p.rsaDecrypt(enc);
    if dec.Some? && |dec.value| == 48 {
      forall i | 2 <= i < 48 {
        premaster[i] := dec.value[i];
      }
      premaster[0] := dec.value[0];
      premaster[1] := dec.value[1];
      assert premaster[..] == dec.value;
    } else {
      assert premaster[..] == VERSION + blind[2..];
    }
    r := Ok(premaster[..]);
  }

  /** A key exchange whose body is too short for its length field, or for the
      length in it, fails. Any other gives the decrypted 48 bytes, or, when
      decryption fails or gives another length, version 3.1 and 46 random bytes.
      What follows the announced bytes does not matter. */
  lemma PremasterCases(p: Crypto, header: bytes, enc: bytes, rest: bytes, blind: bytes)
    requires |header| == 4 && |blind| == 48 && |enc| < 0x1_0000
    ensures Premaster(p, header + (BE(|enc|, 2) + enc + rest), blind) == match p.rsaDecrypt(enc)
      case Some(dec) => Ok(if |dec| == 48 then dec else [3, 1] + blind[2..])
      case None => Ok([3, 1] + blind[2..])
  {
    hide BE, FromBE;
    var body := BE(|enc|, 2) + enc + rest;
    assert (header + body)[4..] == body;
    Fits2(|enc|);
    assert body[0..2] == BE(|enc|, 2) && body[2..2 + |enc|] == enc;
  }

  lemma {:induction false} PremasterFailsIff(p: Crypto, cke: bytes, blind: bytes)
    requires |cke| >= 4 && |blind| == 48
    ensures Premaster(p, cke, blind).Ok? <==>
      exists enc, rest :: |enc| < 0x1_0000 && cke == cke[..4] + (BE(|enc|, 2) + enc + rest)
  {
    hide BE, FromBE;
    var body := cke[4..];
    if Premaster(p, cke, blind).Ok? {
      var n := FromBE(body[0..2]);
      Decode2(body[0..2]);
      EncodeDecode(body[0..2]);
      assert body == BE(|body[2..2 + n]|, 2) + body[2..2 + n] + body[2 + n..];
    }
    forall enc, rest | |enc| < 0x1_0000 && cke == cke[..4] + (BE(|enc|, 2) + enc + rest)
      ensures Premaster(p, cke, blind).Ok?
    {
      PremasterCases(p, cke[..4], enc, rest, blind);
    }
  }

  /** The server recovers the premaster secret of any honest key exchange. */
  lemma PremasterRecovered(p: Crypto, premaster: bytes, r: bytes, blind: bytes)
    requires |premaster| == 48 && |blind| == 48
    requires |p.rsaEncrypt(premaster, r)| < 0x1_0000
    ensures Premaster(p, KeyExchange(p.rsaEncrypt(premaster, r)), blind) == Ok(premaster)
  {
    hide BE, FromBE;
    var enc := p.rsaEncrypt(premaster, r);
    var body := KeyExchange(enc)[4..];
    assert body == BE(|enc|, 2) + enc;
    Fits2(|enc|);
    assert body[0..2] == BE(|enc|, 2) && body[2..2 + |enc|] == enc;
  }
}
