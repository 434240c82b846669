// Answering a DNAS query from captured replies (dnas.go:45-240), and the mode
// switch in front of it (tls10.go:663-687).
module Replay {
  import opened Bytes
  import opened Results
  import opened Primitives
  import opened RegionCipher
  import opened Hex

  /** A gateway directory: the captured packets by name, success.raw and error.raw. */
  datatype Gateway = Gateway(packets: map<string, bytes>, success: Option<bytes>, failure: Option<bytes>)

  // ---- keys ----

  datatype Keys = Keys(k1: bytes, k2: bytes, k3: bytes, seed: bytes)

  const KEY_REQUEST := 0x48 + 0xec

  /** deriveKeys: two digests of the request, spliced as hex text. */
  function DeriveKeys(p: Crypto, req: bytes): Option<Keys> {
    if |req| < KEY_REQUEST then None
    else
      var chksum1 := EncodeHex(p.sha1(req[0x34..0x34 + 0x100]));
      var chksum2 := EncodeHex(p.sha1(req[0x48..0x48 + 0xec]));
      var fullkey := chksum2[..0x14 * 2] + chksum1[..0x0c * 2];
      match (DecodeHex(fullkey[0x00..0x10]), DecodeHex(fullkey[0x10..0x20]),
             DecodeHex(fullkey[0x20..0x30]), DecodeHex(fullkey[0x30..0x40]))
      case (Some(k1), Some(k2), Some(k3), Some(seed)) => Some(Keys(k1, k2, k3, seed))
      case _ => None
  }

  /** The splicing is plain slicing of the two digests; it only fails on a short request. */
  lemma DerivedKeys(p: Crypto, req: bytes)
    ensures DeriveKeys(p, req) ==
      if |req| < KEY_REQUEST then None
      else
        var sum1, sum2 := p.sha1(req[0x34..0x134]), p.sha1(req[0x48..0x134]);
        Some(Keys(sum2[..8], sum2[8..16], sum2[16..20] + sum1[..4], sum1[4..12]))
  {
    if |req| >= KEY_REQUEST {
      hide EncodeHex, DecodeHex;
      var sum1, sum2 := p.sha1(req[0x34..0x134]), p.sha1(req[0x48..0x134]);
      var key := sum2 + sum1[..12];
      HexSlice(sum1, 0, 12);
      assert sum1[0..12] == sum1[..12];
      HexAppend(sum2, sum1[..12]);
      var fullkey := EncodeHex(sum2)[..40] + EncodeHex(sum1)[..24];
      assert fullkey == EncodeHex(key);
      KeyPart(key, 0, 8);
      KeyPart(key, 8, 16);
      KeyPart(key, 16, 24);
      KeyPart(key, 24, 32);
      assert key[0..8] == sum2[..8] && key[8..16] == sum2[8..16];
      assert key[16..24] == sum2[16..20] + sum1[..4] && key[24..32] == sum1[4..12];
    }
  }

  lemma KeyPart(key: bytes, i: nat, j: nat)
    requires i <= j <= |key|
    ensures DecodeHex(EncodeHex(key)[2 * i..2 * j]) == Some(key[i..j])
  {
    HexSlice(key, i, j);
    HexRoundTrip(key[i..j]);
  }

  // ---- captured packets ----

  const CONNECT_ID := 0x2c
  const OTHERS_ID := 0x1b

  function PacketName(req: bytes, gameIDOff: nat): Option<string> {
    if |req| < gameIDOff + 8 || |req| < 4 then None
    else Some(CaptureName(req[gameIDOff..gameIDOff + 8], req[0..4]))
  }

  function CaptureName(gameID: bytes, qrytype: bytes): string {
    EncodeHex(gameID) + "_" + EncodeHex(qrytype)
  }

  /** Sixteen lower-case hex digits for the game ID, an underscore, and eight for
      the query type. */
  lemma PacketNameDigits(req: bytes, off: nat)
    requires PacketName(req, off).Some?
    ensures var n := PacketName(req, off).value;
      && |n| == 25 && n[16] == '_'
      && (forall i :: 0 <= i < 8 ==> n[2 * i..2 * i + 2] == Digits(req[off + i]))
      && forall i :: 0 <= i < 4 ==> n[17 + 2 * i..17 + 2 * i + 2] == Digits(req[i])
  {
    hide EncodeHex;
    var id, op, n := req[off..off + 8], req[0..4], PacketName(req, off).value;
    forall i | 0 <= i < 8 ensures n[2 * i..2 * i + 2] == Digits(req[off + i]) {
      HexDigits(id, i);
    }
    forall i | 0 <= i < 4 ensures n[17 + 2 * i..17 + 2 * i + 2] == Digits(req[i]) {
      HexDigits(op, i);
    }
  }

  function Digits(b: byte): string {
    ["0123456789abcdef"[b / 16], "0123456789abcdef"[b % 16]]
  }

  /** Two requests ask for the same capture exactly when game ID and query type agree. */
  lemma PacketNameIff(a: bytes, b: bytes, off: nat)
    requires PacketName(a, off).Some? && PacketName(b, off).Some?
    ensures PacketName(a, off) == PacketName(b, off) <==> a[off..off + 8] == b[off..off + 8] && a[0..4] == b[0..4]
  {
    if PacketName(a, off) == PacketName(b, off) {
      var n := PacketName(a, off).value;
      assert n[..16] == EncodeHex(a[off..off + 8]) && n[..16] == EncodeHex(b[off..off + 8]);
      assert n[17..] == EncodeHex(a[0..4]) && n[17..] == EncodeHex(b[0..4]);
      HexInjective(a[off..off + 8], b[off..off + 8]);
      HexInjective(a[0..4], b[0..4]);
    }
  }

  function LoadPacket(g: Gateway, name: string): Option<bytes> {
    if '/' in name || '\\' in name then None
    else if name in g.packets then Some(g.packets[name])
    else None
  }

  /** The guard against path separators never rejects a name made by packetName. */
  lemma LoadsByName(g: Gateway, req: bytes, off: nat)
    requires PacketName(req, off).Some?
    ensures var name := PacketName(req, off).value;
      LoadPacket(g, name) == if name in g.packets then Some(g.packets[name]) else None
  {
    EncodesToHexText(req[off..off + 8]);
    EncodesToHexText(req[0..4]);
  }

  const OP_INSTALL: byte := 0x10
  const OP_NORMAL: byte := 0x18
  const OP_UNIQUE_ID: byte := 0x08

  datatype Loaded = Reply(packet: bytes) | Missing(name: string) | MalformedRequest

  function LoadReply(g: Gateway, req: bytes, off: nat): Loaded {
    match PacketName(req, off)
    case None => MalformedRequest
    case Some(name) =>
      match LoadPacket(g, name)
      case Some(packet) => Reply(packet)
      case None =>
        if req[1] == OP_INSTALL then Relabelled(g, req, off, name, [OP_NORMAL, OP_UNIQUE_ID]) else Missing(name)
  }

  /** The first capture under one of these operations, marked as an install reply. */
  function Relabelled(g: Gateway, req: bytes, off: nat, name: string, ops: seq<byte>): Loaded
    requires |req| >= 4 && |req| >= off + 8
  {
    if ops == [] then Missing(name)
    else
      match LoadPacket(g, PacketName(req[1 := ops[0]], off).value)
      case Some(packet) => if |packet| < 2 then MalformedRequest else Reply(packet[1 := OP_INSTALL])
      case None => Relabelled(g, req, off, name, ops[1..])
  }

  /** loadReply. The request is only read: the method may not modify it. */
  method FindReply(g: Gateway, req: array<byte>, off: nat) returns (r: Loaded)
    ensures r == LoadReply(g, req[..], off)
  {
    var name := PacketName(req[..], off);
    if name.None? {
      return MalformedRequest;
    }
    var packet := LoadPacket(g, name.value);
    if packet.Some? {
      return Reply(packet.value);
    }
    if req[1] == OP_INSTALL {
      var ops := [OP_NORMAL, OP_UNIQUE_ID];
      var k := 0;
      while k < |ops|
        invariant 0 <= k <= |ops|
        invariant LoadReply(g, req[..], off) == Relabelled(g, req[..], off, name.value, ops[k..])
      {
        var other := new byte[req.Length](i requires 0 <= i < req.Length reads req => req[i]);
        other[1] := ops[k];
        assert other[..] == req[..][1 := ops[k]];
        var otherName := PacketName(other[..], off);
        packet := LoadPacket(g, otherName.value);
        if packet.Some? {
          if |packet.value| < 2 {
            return MalformedRequest;
          }
          var marked := new byte[|packet.value|](i requires 0 <= i < |packet.value| => packet.value[i]);
          marked[1] := OP_INSTALL;
          assert marked[..] == packet.value[1 := OP_INSTALL];
          return Reply(marked[..]);
        }
        k := k + 1;
      }
    }
    return Missing(name.value);
  }

  /** The capture of the same title under another operation. */
  function CaptureUnder(g: Gateway, req: bytes, off: nat, op: byte): Option<bytes>
    requires |req| >= 4 && |req| >= off + 8
  {
    var name := CaptureName(req[off..off + 8], [req[0], op, req[2], req[3]]);
    if name in g.packets then Some(g.packets[name]) else None
  }

  lemma CaptureFound(g: Gateway, req: bytes, off: nat, op: byte)
    requires |req| >= 4 && |req| >= off + 8 && off >= 2
    ensures LoadPacket(g, PacketName(req[1 := op], off).value) == CaptureUnder(g, req, off, op)
  {
    var other := req[1 := op];
    assert other[off..off + 8] == req[off..off + 8];
    assert other[0..4] == [req[0], op, req[2], req[3]];
    LoadsByName(g, other, off);
  }

  /** An install query gets its own capture unchanged, else the title's normal
      capture, else its unique-ID capture, with nothing but byte 1 changed to
      0x10; a fallback capture too short to relabel makes the request fail. */
  lemma InstallFallback(g: Gateway, req: bytes, off: nat)
    requires PacketName(req, off).Some? && off >= 2 && req[1] == OP_INSTALL
    ensures LoadReply(g, req, off) ==
      match (CaptureUnder(g, req, off, OP_INSTALL), CaptureUnder(g, req, off, OP_NORMAL),
             CaptureUnder(g, req, off, OP_UNIQUE_ID))
      case (Some(own), _, _) => Reply(own)
      case (None, Some(normal), _) => if |normal| < 2 then MalformedRequest else Reply(normal[1 := OP_INSTALL])
      case (None, None, Some(unique)) => if |unique| < 2 then MalformedRequest else Reply(unique[1 := OP_INSTALL])
      case (None, None, None) => Missing(PacketName(req, off).value)
  {
    hide LoadPacket, CaptureUnder, CaptureName;
    assert req[1 := OP_INSTALL] == req;
    CaptureFound(g, req, off, OP_INSTALL);
    CaptureFound(g, req, off, OP_NORMAL);
    CaptureFound(g, req, off, OP_UNIQUE_ID);
    var name, ops := PacketName(req, off).value, [OP_NORMAL, OP_UNIQUE_ID];
    var last: seq<byte> := ops[1..];
    var none: seq<byte> := last[1..];
    assert last == [OP_UNIQUE_ID] && none == [];
    assert Relabelled(g, req, off, name, none) == Missing(name);
    assert Relabelled(g, req, off, name, last) ==
      match CaptureUnder(g, req, off, OP_UNIQUE_ID)
      case Some(unique) => if |unique| < 2 then MalformedRequest else Reply(unique[1 := OP_INSTALL])
      case None => Missing(name);
  }

  /** Any other query is answered by its own capture only. */
  lemma OtherQueries(g: Gateway, req: bytes, off: nat)
    requires PacketName(req, off).Some? && off >= 2 && req[1] != OP_INSTALL
    ensures LoadReply(g, req, off) ==
      match CaptureUnder(g, req, off, req[1])
      case Some(own) => Reply(own)
      case None => Missing(PacketName(req, off).value)
  {
    hide CaptureUnder;
    assert req[1 := req[1]] == req;
    CaptureFound(g, req, off, req[1]);
  }

  // ---- replies ----

  datatype Mode = Off | Fallback | Always

  datatype Endpoint = Connect | Others

  function ErrorRaw(g: Gateway): bytes {
    match g.failure
    case Some(b) => b
    case None => []
  }

  function SuccessReply(g: Gateway, req: bytes): bytes {
    match g.success
    case None => ErrorRaw(g)
    case Some(reply) => if |req| > 1 && |reply| > 1 then reply[1 := req[1]] else reply
  }

  method BuildSuccessReply(g: Gateway, req: bytes) returns (r: bytes)
    ensures r == SuccessReply(g, req)
  {
    if g.success.None? {
      return ErrorRaw(g);
    }
    var file := g.success.value;
    var reply := new byte[|file|](i requires 0 <= i < |file| => file[i]);
    assert reply[..] == file;
    if |req| > 1 && reply.Length > 1 {
      reply[1] := req[1];
    }
    r := reply[..];
  }

  function MissingPacketReply(g: Gateway, mode: Mode, req: bytes): bytes {
    if mode == Fallback then SuccessReply(g, req) else ErrorRaw(g)
  }

  const ENV_K1: bytes := [0xeb, 0x71, 0x14, 0x16, 0xcb, 0x0a, 0xb0, 0x16]
  const ENV_K2: bytes := [0xae, 0x19, 0x01, 0x74, 0xb5, 0xce, 0x63, 0x39]
  const ENV_K3: bytes := [0x7b, 0x01, 0xb9, 0x18, 0x80, 0x14, 0x5e, 0x34]
  const ENV_KEY: bytes := ENV_K1 + ENV_K2 + ENV_K3
  const ENV_SEED: bytes := [0xc5, 0x10, 0xa6, 0x40, 0x0a, 0x9b, 0x02, 0x2f]

  /** Both encryption passes over a captured packet. */
  function Sealed(p: Crypto, packet: bytes, k: Keys): (out: bytes)
    requires |packet| >= 0x148 && |k.k1 + k.k2 + k.k3| == 24 && |k.seed| == 8
    ensures |out| == |packet|
  {
    EncryptRegion(p, EncryptRegion(p, packet, 0xc8, 0x20, k.k1 + k.k2 + k.k3, k.seed), 0x28, 0x120, ENV_KEY, ENV_SEED)
  }

  function ConnectReply(p: Crypto, g: Gateway, mode: Mode, req: bytes): bytes {
    match LoadReply(g, req, CONNECT_ID)
    case MalformedRequest => ErrorRaw(g)
    case Missing(_) => MissingPacketReply(g, mode, req)
    case Reply(packet) =>
      match DeriveKeys(p, req)
      case None => ErrorRaw(g)
      case Some(k) =>
        DerivedKeys(p, req);
        if |packet| < 0x148 then ErrorRaw(g) else Sealed(p, packet, k)
  }

  method BuildConnectReply(p: Crypto, g: Gateway, mode: Mode, req: array<byte>) returns (r: bytes)
    ensures r == ConnectReply(p, g, mode, req[..])
  {
    hide EncryptRegion, LoadReply;
    var loaded := FindReply(g, req, CONNECT_ID);
    if loaded.MalformedRequest? {
      return ErrorRaw(g);
    }
    if loaded.Missing? {
      return MissingPacketReply(g, mode, req[..]);
    }
    var file := loaded.packet;
    var packet := new byte[|file|](i requires 0 <= i < |file| => file[i]);
    assert packet[..] == file;
    var keys := DeriveKeys(p, req[..]);
    if keys.None? {
      return ErrorRaw(g);
    }
    DerivedKeys(p, req[..]);
    var k := keys.value;
    var fault := Encrypt3n(p, packet, 0xc8, 0x20, k.k1, k.k2, k.k3, k.seed);
    if fault.Some? {
      return ErrorRaw(g);
    }
    fault := Encrypt3n(p, packet, 0x28, 0x120, ENV_K1, ENV_K2, ENV_K3, ENV_SEED);
    if fault.Some? {
      return ErrorRaw(g);
    }
    r := packet[..];
  }

  function OthersReply(g: Gateway, mode: Mode, req: bytes): bytes {
    match LoadReply(g, req, OTHERS_ID)
    case MalformedRequest => ErrorRaw(g)
    case Missing(_) => MissingPacketReply(g, mode, req)
    case Reply(packet) => packet
  }

  /** The replay part of dispatch. */
  function Answer(p: Crypto, g: Gateway, mode: Mode, e: Endpoint, req: bytes): bytes {
    if mode == Always then SuccessReply(g, req)
    else if e == Others then OthersReply(g, mode, req)
    else ConnectReply(p, g, mode, req)
  }

  // ---- what a connect reply is ----

  /** Opening the envelope and then the region keyed by the request gives back
      the captured packet; bytes before 0x28 and from 0x148 on are the packet's own. */
  lemma ConnectInvertible(p: Crypto, packet: bytes, k: Keys)
    requires |packet| >= 0x148 && |k.k1 + k.k2 + k.k3| == 24 && |k.seed| == 8
    ensures var reply := Sealed(p, packet, k);
      var inner := DecryptRegion(p, reply, 0x28, 0x120, ENV_KEY, ENV_SEED);
      DecryptRegion(p, inner, 0xc8, 0x20, k.k1 + k.k2 + k.k3, k.seed) == packet
      && reply[..0x28] == packet[..0x28] && reply[0x148..] == packet[0x148..]
  {
    hide EncryptRegion, DecryptRegion;
    var key := k.k1 + k.k2 + k.k3;
    var inner := EncryptRegion(p, packet, 0xc8, 0x20, key, k.seed);
    RegionInverse(p, packet, 0xc8, 0x20, key, k.seed);
    RegionInverse(p, inner, 0x28, 0x120, ENV_KEY, ENV_SEED);
    RegionParts(p, packet, 0xc8, 0x20, key, k.seed);
    RegionParts(p, inner, 0x28, 0x120, ENV_KEY, ENV_SEED);
    Subslice(packet, 0, 0xc8, 0, 0x28);
    Subslice(inner, 0, 0xc8, 0, 0x28);
    assert packet[0xe8..][0x148 - 0xe8..] == packet[0x148..];
    assert inner[0xe8..][0x148 - 0xe8..] == inner[0x148..];
  }

  /** The replies to two requests from one packet are equal up to 0xc8 and from 0x148 on. */
  lemma ConnectCausal(p: Crypto, packet: bytes, k: Keys, k': Keys)
    requires |packet| >= 0x148
    requires |k.k1 + k.k2 + k.k3| == 24 && |k.seed| == 8
    requires |k'.k1 + k'.k2 + k'.k3| == 24 && |k'.seed| == 8
    ensures Sealed(p, packet, k)[..0xc8] == Sealed(p, packet, k')[..0xc8]
    ensures Sealed(p, packet, k)[0x148..] == Sealed(p, packet, k')[0x148..]
  {
    hide EncryptRegion;
    var a := EncryptRegion(p, packet, 0xc8, 0x20, k.k1 + k.k2 + k.k3, k.seed);
    var b := EncryptRegion(p, packet, 0xc8, 0x20, k'.k1 + k'.k2 + k'.k3, k'.seed);
    RegionParts(p, packet, 0xc8, 0x20, k.k1 + k.k2 + k.k3, k.seed);
    RegionParts(p, packet, 0xc8, 0x20, k'.k1 + k'.k2 + k'.k3, k'.seed);
    RegionCausal(p, a, b, 0x28, 0x120, 0xa0, ENV_KEY, ENV_SEED);
    ConnectInvertible(p, packet, k);
    ConnectInvertible(p, packet, k');
  }

  /** A connect request with a capture is answered by both passes or, when the
      request is too short for keys or the packet for the envelope, by error.raw:
      never by a packet encrypted only once. */
  lemma {:induction false} BothPassesOrNone(p: Crypto, g: Gateway, mode: Mode, req: bytes, packet: bytes)
    requires LoadReply(g, req, CONNECT_ID) == Reply(packet)
    ensures ConnectReply(p, g, mode, req) ==
      if |req| >= 0x134 && |packet| >= 0x148 then
        var sum1, sum2 := p.sha1(req[0x34..0x134]), p.sha1(req[0x48..0x134]);
        Sealed(p, packet, Keys(sum2[..8], sum2[8..16], sum2[16..20] + sum1[..4], sum1[4..12]))
      else if g.failure.Some? then g.failure.value else []
  {
    hide DeriveKeys, Sealed;
    DerivedKeys(p, req);
  }

  // ---- the modes ----

  function IdOffset(e: Endpoint): nat {
    if e == Connect then CONNECT_ID else OTHERS_ID
  }

  /** The request is well-formed, but no capture it may be answered from exists. */
  predicate Uncaptured(g: Gateway, req: bytes, off: nat) {
    && off >= 2 && |req| >= off + 8
    && CaptureUnder(g, req, off, req[1]).None?
    && (req[1] == OP_INSTALL ==>
         CaptureUnder(g, req, off, OP_NORMAL).None? && CaptureUnder(g, req, off, OP_UNIQUE_ID).None?)
  }

  lemma MissingIffUncaptured(g: Gateway, req: bytes, off: nat)
    requires off >= 2
    ensures LoadReply(g, req, off).Missing? <==> Uncaptured(g, req, off)
  {
    hide CaptureUnder, LoadReply;
    if PacketName(req, off).Some? {
      if req[1] == OP_INSTALL {
        InstallFallback(g, req, off);
      } else {
        OtherQueries(g, req, off);
      }
    } else {
      ShortIsMalformed(g, req, off);
    }
  }

  /** Fallback mode differs from off mode only for uncaptured requests: off
      answers error.raw there, and fallback success.raw with the request's
      operation, or error.raw if there is none. */
  lemma {:induction false} FallbackRefinesOff(p: Crypto, g: Gateway, e: Endpoint, req: bytes)
    ensures !Uncaptured(g, req, IdOffset(e)) ==> Answer(p, g, Fallback, e, req) == Answer(p, g, Off, e, req)
    ensures Uncaptured(g, req, IdOffset(e)) ==>
      && Answer(p, g, Off, e, req) == (if g.failure.Some? then g.failure.value else [])
      && Answer(p, g, Fallback, e, req) ==
           match g.success
           case None => (if g.failure.Some? then g.failure.value else [])
           case Some(reply) => if |reply| > 1 then reply[1 := req[1]] else reply
  {
    hide LoadReply, Sealed, DeriveKeys;
    MissingIffUncaptured(g, req, IdOffset(e));
  }

  /** What the others endpoint answers outside always mode: the capture as it is,
      for an install query without its own the relabelled one, error.raw for a
      short request. */
  lemma {:induction false} OthersAnswers(p: Crypto, g: Gateway, mode: Mode, req: bytes)
    requires mode != Always
    ensures |req| < 0x1b + 8 ==> Answer(p, g, mode, Others, req) == if g.failure.Some? then g.failure.value else []
    ensures |req| >= 0x1b + 8 ==>
      match CaptureUnder(g, req, 0x1b, req[1])
      case Some(packet) => Answer(p, g, mode, Others, req) == packet
      case None =>
        req[1] == 0x10 ==>
          match FirstOf(CaptureUnder(g, req, 0x1b, 0x18), CaptureUnder(g, req, 0x1b, 0x08))
          case Some(other) => |other| >= 2 ==> Answer(p, g, mode, Others, req) == other[1 := 0x10]
          case None => true
  {
    hide CaptureUnder, LoadReply;
    if |req| < 0x1b + 8 {
      ShortIsMalformed(g, req, OTHERS_ID);
    } else if req[1] == OP_INSTALL {
      InstallFallback(g, req, OTHERS_ID);
    } else {
      OtherQueries(g, req, OTHERS_ID);
    }
  }

  function FirstOf<T>(a: Option<T>, b: Option<T>): Option<T> {
    if a.Some? then a else b
  }

  /** What the connect endpoint finds: the same captures, at the connect layout's
      game ID; a short request gets error.raw in every mode but always. */
  lemma {:induction false} ConnectFinds(p: Crypto, g: Gateway, mode: Mode, req: bytes)
    ensures |req| < 0x2c + 8 && mode != Always ==>
      Answer(p, g, mode, Connect, req) == if g.failure.Some? then g.failure.value else []
    ensures |req| >= 0x2c + 8 ==>
      match CaptureUnder(g, req, 0x2c, req[1])
      case Some(packet) => LoadReply(g, req, CONNECT_ID) == Reply(packet)
      case None =>
        req[1] == 0x10 ==>
          match FirstOf(CaptureUnder(g, req, 0x2c, 0x18), CaptureUnder(g, req, 0x2c, 0x08))
          case Some(other) => |other| >= 2 ==> LoadReply(g, req, CONNECT_ID) == Reply(other[1 := 0x10])
          case None => true
  {
    hide CaptureUnder, LoadReply;
    if |req| < 0x2c + 8 {
      ShortIsMalformed(g, req, CONNECT_ID);
    } else if req[1] == OP_INSTALL {
      InstallFallback(g, req, CONNECT_ID);
    } else {
      OtherQueries(g, req, CONNECT_ID);
    }
  }

  /** In always mode no capture is ever used: both endpoints answer success.raw
      with its second byte set to the request's, or error.raw, or nothing. */
  lemma {:induction false} AlwaysAnswers(p: Crypto, g: Gateway, e: Endpoint, req: bytes)
    ensures Answer(p, g, Always, e, req) == match (g.success, g.failure)
      case (Some(reply), _) => if |req| > 1 && |reply| > 1 then reply[..1] + [req[1]] + reply[2..] else reply
      case (None, Some(error)) => error
      case (None, None) => []
  {
    if g.success.Some? && |req| > 1 && |g.success.value| > 1 {
      var reply := g.success.value;
      assert reply[1 := req[1]] == reply[..1] + [req[1]] + reply[2..];
    }
  }

  /** The envelope keys and seed, as 32-bit numbers. */
  lemma EnvelopeKeys()
    ensures ENV_K1 == BE(0xeb711416, 4) + BE(0xcb0ab016, 4) && ENV_K2 == BE(0xae190174, 4) + BE(0xb5ce6339, 4)
    ensures ENV_K3 == BE(0x7b01b918, 4) + BE(0x80145e34, 4) && ENV_SEED == BE(0xc510a640, 4) + BE(0x0a9b022f, 4)
    ensures ENV_KEY == ENV_K1 + ENV_K2 + ENV_K3
  {
    hide BE;
    Spelled(0xeb711416, 0xcb0ab016, ENV_K1);
    Spelled(0xae190174, 0xb5ce6339, ENV_K2);
    Spelled(0x7b01b918, 0x80145e34, ENV_K3);
    Spelled(0xc510a640, 0x0a9b022f, ENV_SEED);
  }

  lemma Spelled(high: nat, low: nat, b: bytes)
    requires |b| == 8
    requires b[0] == high / 0x100_0000 % 256 && b[1] == high / 0x1_0000 % 256
    requires b[2] == high / 256 % 256 && b[3] == high % 256
    requires b[4] == low / 0x100_0000 % 256 && b[5] == low / 0x1_0000 % 256
    requires b[6] == low / 256 % 256 && b[7] == low % 256
    ensures b == BE(high, 4) + BE(low, 4)
  {
    hide BE;
    Encode4(high);
    Encode4(low);
  }

  lemma ShortIsMalformed(g: Gateway, req: bytes, off: nat)
    requires PacketName(req, off).None?
    ensures LoadReply(g, req, off) == MalformedRequest
  {
  }
}
