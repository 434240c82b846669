// What a console gets from a replaying server: the session, the routing and the
// replay together (tls10.go:239-715, dnas.go:162-183).
module Delivery {
  import opened Bytes
  import opened Results
  import opened Primitives
  import opened Prf
  import opened Text
  import opened Record
  import opened RegionCipher
  import opened LongestFirst
  import opened Http
  import opened HttpReply
  import opened Handshake
  import opened Client
  import opened Session
  import opened Replay
  import opened Dispatch

  /** A console opens a connect reply with the envelope key and then with the
      keys that the digests of its own request give. */
  function OpenReply(p: Crypto, req: bytes, reply: bytes): bytes
    requires |req| >= 0x134 && |reply| >= 0x148
  {
    var sum1, sum2 := p.sha1(req[0x34..0x134]), p.sha1(req[0x48..0x134]);
    var inner := DecryptRegion(p, reply, 0x28, 0x120, ENV_KEY, ENV_SEED);
    DecryptRegion(p, inner, 0xc8, 0x20, sum2 + sum1[..4], sum1[4..12])
  }

  /** A request of the client that the site replays from this gateway. */
  predicate Asks(site: Site, chunks: seq<bytes>, g: Gateway, e: Endpoint) {
    && Sendable(chunks) && Parse(Concat(chunks)).Complete?
    && ReplayTarget(site, Parse(Concat(chunks)).req) == Some((g, e))
  }

  lemma ReplayedResponse(p: Crypto, site: Site, req: Request, g: Gateway, e: Endpoint)
    requires ReplayTarget(site, req) == Some((g, e))
    ensures Respond(p, site, req) == HttpResponse(Ascii("image/gif"), Replay.Answer(p, g, site.mode, e, req.body))
  {
    hide Replay.Answer, EndpointOf, DnsRules.ProxyFor, HttpResponse;
  }

  lemma ImageType()
    ensures var image := Ascii("image/gif"); TrimSpace(image) == image && 13 !in image
  {
    AsciiWord(Ascii("image/gif"));
    TrimWord(Ascii("image/gif"));
    NoReturnInWord(Ascii("image/gif"));
  }

  /** Through handshake, records, parsing and routing, the console reads as body
      of its reply exactly what the replay answers to the body of its request. */
  lemma {:induction false} ConsoleReads(p: Crypto, s: Offer, ch: Choice, site: Site, chunks: seq<bytes>,
                                        g: Gateway, e: Endpoint)
    requires Willing(p, s, ch) && Asks(site, chunks, g, e)
    requires |Replay.Answer(p, g, site.mode, e, Parse(Concat(chunks)).req.body)| <= MAX_INT64
    ensures Respond(p, site, Parse(Concat(chunks)).req) != []
    ensures ReplyBody(Heard(p, s, ch, req => Respond(p, site, req), chunks))
      == Some(Replay.Answer(p, g, site.mode, e, Parse(Concat(chunks)).req.body))
  {
    hide Heard, Willing, Parse, Respond, ReplayTarget, Replay.Answer, ReplyBody, HttpResponse, TrimSpace;
    var req := Parse(Concat(chunks)).req;
    ReplayedResponse(p, site, req, g, e);
    HeardIsReply(p, s, ch, req => Respond(p, site, req), chunks);
    ImageType();
    ResponseReadsIff(Ascii("image/gif"), Replay.Answer(p, g, site.mode, e, req.body));
  }

  lemma SealedOpens(p: Crypto, packet: bytes, req: bytes)
    requires |req| >= KEY_REQUEST && |packet| >= 0x148
    ensures var sum1, sum2 := p.sha1(req[0x34..0x134]), p.sha1(req[0x48..0x134]);
      OpenReply(p, req, Sealed(p, packet, Keys(sum2[..8], sum2[8..16], sum2[16..20] + sum1[..4], sum1[4..12])))
        == packet
  {
    hide Sealed, DecryptRegion;
    var sum1, sum2 := p.sha1(req[0x34..0x134]), p.sha1(req[0x48..0x134]);
    var k := Keys(sum2[..8], sum2[8..16], sum2[16..20] + sum1[..4], sum1[4..12]);
    assert k.k1 + k.k2 + k.k3 == sum2 + sum1[..4];
    ConnectInvertible(p, packet, k);
  }

  /** An honest console that asks the connect endpoint for a captured packet
      recovers that packet from what it reads. */
  lemma {:induction false} ConsoleRecoversPacket(p: Crypto, s: Offer, ch: Choice, site: Site, chunks: seq<bytes>,
                                                 g: Gateway, packet: bytes)
    requires Willing(p, s, ch) && Asks(site, chunks, g, Connect) && site.mode != Always
    requires LoadReply(g, Parse(Concat(chunks)).req.body, CONNECT_ID) == Reply(packet)
    requires |Parse(Concat(chunks)).req.body| >= KEY_REQUEST && 0x148 <= |packet| <= MAX_INT64
    ensures Respond(p, site, Parse(Concat(chunks)).req) != []
    ensures var reply := ReplyBody(Heard(p, s, ch, req => Respond(p, site, req), chunks));
      && reply.Some? && |reply.value| == |packet|
      && OpenReply(p, Parse(Concat(chunks)).req.body, reply.value) == packet
  {
    hide Heard, Willing, Parse, Respond, ReplayTarget, ReplyBody, LoadReply, Sealed, ConnectReply, OpenReply;
    var body := Parse(Concat(chunks)).req.body;
    BothPassesOrNone(p, g, site.mode, body, packet);
    SealedOpens(p, packet, body);
    ConsoleReads(p, s, ch, site, chunks, g, Connect);
  }

  /** The same for the others endpoint, which replays in the clear: the body the
      console reads is the capture under its own query type. */
  lemma {:induction false} ConsoleReadsCapture(p: Crypto, s: Offer, ch: Choice, site: Site, chunks: seq<bytes>,
                                               g: Gateway, packet: bytes)
    requires Willing(p, s, ch) && Asks(site, chunks, g, Others) && site.mode != Always && |packet| <= MAX_INT64
    requires var req := Parse(Concat(chunks)).req.body;
      |req| >= 0x1b + 8 && CaptureUnder(g, req, 0x1b, req[1]) == Some(packet)
    ensures Respond(p, site, Parse(Concat(chunks)).req) != []
    ensures ReplyBody(Heard(p, s, ch, req => Respond(p, site, req), chunks)) == Some(packet)
  {
    hide Heard, Willing, Parse, Respond, ReplayTarget, ReplyBody, Replay.Answer, CaptureUnder;
    OthersAnswers(p, g, site.mode, Parse(Concat(chunks)).req.body);
    ConsoleReads(p, s, ch, site, chunks, g, Others);
  }

  /** In always mode the console reads success.raw with its own query type in the
      second byte, from either endpoint. */
  lemma {:induction false} ConsoleReadsSuccess(p: Crypto, s: Offer, ch: Choice, site: Site, chunks: seq<bytes>,
                                               g: Gateway, e: Endpoint, reply: bytes)
    requires Willing(p, s, ch) && Asks(site, chunks, g, e) && site.mode == Always
    requires g.success == Some(reply) && 2 <= |reply| <= MAX_INT64 && |Parse(Concat(chunks)).req.body| >= 2
    ensures Respond(p, site, Parse(Concat(chunks)).req) != []
    ensures ReplyBody(Heard(p, s, ch, req => Respond(p, site, req), chunks))
      == Some(reply[..1] + [Parse(Concat(chunks)).req.body[1]] + reply[2..])
  {
    hide Heard, Willing, Parse, Respond, ReplayTarget, ReplyBody, Replay.Answer;
    AlwaysAnswers(p, g, e, Parse(Concat(chunks)).req.body);
    ConsoleReads(p, s, ch, site, chunks, g, e);
  }
}
