// The two forms of ClientHello (tls10.go:341-420, 484-501; RFC 2246 section
// 7.4.1.2 and appendix E.1).
module Hello {
  import opened Bytes
  import opened Results

  const HS_CLIENT_HELLO: byte := 1

  /** Whether TLS_RSA_WITH_3DES_EDE_CBC_SHA (0x000a) is in the list, at a
      multiple of 3 bytes in a v2 list and of 2 bytes in a v3 list. */
  predicate Offers(list: bytes, v2: bool) {
    if v2 then exists k :: 0 <= k < |list| / 3 && list[3 * k] == 0 && list[3 * k + 1] == 0 && list[3 * k + 2] == 0x0a
    else exists k :: 0 <= k < |list| / 2 && list[2 * k] == 0 && list[2 * k + 1] == 0x0a
  }

  /** The entry that stands for the cipher. */
  function Wanted(v2: bool): (w: bytes)
    ensures |w| == Width(v2)
  {
    if v2 then [0, 0, 10] else [0, 10]
  }

  function Width(v2: bool): nat {
    if v2 then 3 else 2
  }

  /** A list of whole entries, and less than one entry more, offers the cipher
      exactly when one entry is 00 00 0a, or 00 0a in a v3 list. */
  lemma {:induction false} OffersIff(entries: seq<bytes>, more: bytes, v2: bool)
    requires |more| < Width(v2) && forall k :: 0 <= k < |entries| ==> |entries[k]| == Width(v2)
    ensures Offers(Concat(entries) + more, v2) <==> (if v2 then [0, 0, 10] else [0, 10]) in entries
  {
    hide Concat, Offers, Width;
    var w, list := Width(v2), Concat(entries) + more;
    EntryLength(entries, w);
    ModUnique(|list|, w, |entries|, |more|);
    forall k | 0 <= k < |entries| ensures Aligned(list, w, k, entries[k]) {
      EntryAt(entries, w, k);
      assert list[w * k..w * k + w] == Concat(entries)[w * k..w * k + w];
    }
    OffersAligned(list, v2);
    if k :| 0 <= k < |list| / w && Aligned(list, w, k, Wanted(v2)) {
      assert Aligned(list, w, k, entries[k]);
    }
    if Wanted(v2) in entries {
      var k :| 0 <= k < |entries| && entries[k] == Wanted(v2);
      assert Aligned(list, w, k, Wanted(v2));
    }
  }

  predicate Aligned(list: bytes, w: nat, k: nat, entry: bytes) {
    0 <= w * k && w * k + w <= |list| && list[w * k..w * k + w] == entry
  }

  lemma OffersAligned(list: bytes, v2: bool)
    ensures Width(v2) > 0
    ensures Offers(list, v2) <==> exists k :: 0 <= k < |list| / Width(v2) && Aligned(list, Width(v2), k, Wanted(v2))
  {
    var w := Width(v2);
    forall k | 0 <= k < |list| / w
      ensures 0 <= w * k && w * k + w <= |list| && (Aligned(list, w, k, Wanted(v2)) <==> EntryIs(list, w * k, v2))
    {
      var e := list[w * k..w * k + w];
      assert forall i :: 0 <= i < w ==> e[i] == list[w * k + i];
    }
  }

  predicate EntryIs(list: bytes, i: nat, v2: bool)
    requires i + Width(v2) <= |list|
  {
    if v2 then list[i] == 0 && list[i + 1] == 0 && list[i + 2] == 10 else list[i] == 0 && list[i + 1] == 10
  }

  lemma {:induction false} EntryLength(entries: seq<bytes>, w: nat)
    requires forall k :: 0 <= k < |entries| ==> |entries[k]| == w
    ensures |Concat(entries)| == w * |entries|
  {
    if entries != [] {
      EntryLength(entries[1..], w);
    }
  }

  lemma {:induction false} EntryAt(entries: seq<bytes>, w: nat, k: nat)
    requires k < |entries| && forall k :: 0 <= k < |entries| ==> |entries[k]| == w
    ensures 0 <= w * k && w * k + w <= |Concat(entries)| && Concat(entries)[w * k..w * k + w] == entries[k]
  {
    if k > 0 {
      EntryAt(entries[1..], w, k - 1);
      var first, later := entries[0], Concat(entries[1..]);
      AfterPrefix(first, later, w + w * (k - 1), w + w * (k - 1) + w);
      assert w * k == w + w * (k - 1);
    }
  }

  method OffersCipher(list: bytes, v2: bool) returns (found: bool)
    ensures found == Offers(list, v2)
  {
    if v2 {
      var i := 0;
      ghost var n := 0;
      while i + 3 <= |list|
        invariant i == 3 * n && 0 <= n <= |list| / 3
        invariant forall k :: 0 <= k < n ==> !(list[3 * k] == 0 && list[3 * k + 1] == 0 && list[3 * k + 2] == 0x0a)
        decreases |list| - i
      {
        if list[i] == 0 && list[i + 1] == 0x00 && list[i + 2] == 0x0a {
          return true;
        }
        i, n := i + 3, n + 1;
      }
      return false;
    }
    var i := 0;
    ghost var n := 0;
    while i + 2 <= |list|
      invariant i == 2 * n && 0 <= n <= |list| / 2
      invariant forall k :: 0 <= k < n ==> !(list[2 * k] == 0 && list[2 * k + 1] == 0x0a)
      decreases |list| - i
    {
      if list[i] == 0x00 && list[i + 1] == 0x0a {
        return true;
      }
      i, n := i + 2, n + 1;
    }
    return false;
  }

  /** The 32-byte random a challenge stands for: right-justified with leading
      zeros, or its last 32 bytes. */
  function RightJustify(challenge: bytes): (random: bytes)
    ensures |random| == 32
  {
    if |challenge| <= 32 then Zeros(32 - |challenge|) + challenge
    else challenge[|challenge| - 32..]
  }

  /** Read as a number, the random is the challenge modulo 256^32. */
  lemma RandomIsChallenge(challenge: bytes)
    ensures RightJustify(challenge) == BE(FromBE(challenge), 32)
    ensures |challenge| <= 32 ==> FromBE(RightJustify(challenge)) == FromBE(challenge)
  {
    hide BE, FromBE, RightJustify;
    LowBytes(challenge, 32);
    JustifyCases(challenge);
    if |challenge| <= 32 {
      LeadingZeros(32 - |challenge|, challenge);
    }
  }

  lemma JustifyCases(challenge: bytes)
    ensures RightJustify(challenge)
      == if 32 <= |challenge| then challenge[|challenge| - 32..] else Zeros(32 - |challenge|) + challenge
    ensures |challenge| <= 32 ==> RightJustify(challenge) == Zeros(32 - |challenge|) + challenge
  {
  }

  lemma {:induction false} LeadingZeros(n: nat, b: bytes)
    ensures FromBE(Zeros(n) + b) == FromBE(b)
  {
    var s := Zeros(n) + b;
    if b != [] {
      assert s[..|s| - 1] == Zeros(n) + b[..|b| - 1];
      LeadingZeros(n, b[..|b| - 1]);
    } else if n > 0 {
      assert s[..|s| - 1] == Zeros(n - 1) + [];
      LeadingZeros(n - 1, []);
    }
  }

  method ChallengeRandom(challenge: bytes) returns (result: bytes)
    ensures result == RightJustify(challenge)
  {
    var random := new byte[32](_ => 0);
    var tail, cl := challenge, |challenge|;
    if cl > 32 {
      tail := tail[cl - 32..];
      cl := 32;
    }
    var i := 0;
    while i < cl
      invariant 0 <= i <= cl == |tail| <= 32
      invariant forall j :: 0 <= j < 32 - cl ==> random[j] == 0
      invariant forall j :: 0 <= j < i ==> random[32 - cl + j] == tail[j]
    {
      random[32 - cl + i] := tail[i];
      i := i + 1;
    }
    result := random[..];
    Justified(result, tail);
  }

  lemma Justified(random: bytes, tail: bytes)
    requires |random| == 32 && |tail| <= 32
    requires forall j :: 0 <= j < 32 - |tail| ==> random[j] == 0
    requires forall j :: 0 <= j < |tail| ==> random[32 - |tail| + j] == tail[j]
    ensures random == Zeros(32 - |tail|) + tail
  {
  }

  /** What an SSLv2-compatible hello body yields after its type and length check. */
  function ParseV2(body: bytes): (r: Result<bytes>)
    requires |body| >= 9
    ensures r.Ok? ==> |r.value| == 32
  {
    var csl := FromBE(body[3..5]);
    var sil := FromBE(body[5..7]);
    var cl := FromBE(body[7..9]);
    if 9 + csl + sil + cl > |body| then Err(V2FieldOverflow)
    else if !Offers(body[9..9 + csl], true) then Err(CipherNotOffered)
    else Ok(RightJustify(body[9 + csl + sil..9 + csl + sil + cl]))
  }

  /** What a v3 ClientHello message yields. At 34 bytes after the header the
      Go code reads one byte past the end. */
  function ParseV3(body: bytes): (r: Result<bytes>)
    requires |body| >= 4
    ensures r.Ok? ==> |r.value| == 32
  {
    var p := body[4..];
    if |p| < 34 then Err(ShortClientHello)
    else if |p| == 34 then Err(IndexOutOfRange)
    else
      var off := 35 + p[34] as int;
      if off + 2 > |p| then Err(MalformedClientHello)
      else
        var csLen := FromBE(p[off..off + 2]);
        if off + 2 + csLen > |p| then Err(MalformedSuites)
        else if !Offers(p[off + 2..off + 2 + csLen], false) then Err(CipherNotOffered)
        else Ok(p[2..34])
  }

  method V2Fields(body: bytes) returns (r: Result<bytes>)
    requires |body| >= 9
    ensures r == ParseV2(body)
  {
    hide Offers, RightJustify, FromBE;
    var csl := FromBE(body[3..5]);
    var sil := FromBE(body[5..7]);
    var cl := FromBE(body[7..9]);
    if 9 + csl + sil + cl > |body| {
      return Err(V2FieldOverflow);
    }
    var offered := OffersCipher(body[9..9 + csl], true);
    if !offered {
      return Err(CipherNotOffered);
    }
    var random := ChallengeRandom(body[9 + csl + sil..9 + csl + sil + cl]);
    return Ok(random);
  }

  method V3Fields(body: bytes) returns (r: Result<bytes>)
    requires |body| >= 4
    ensures r == ParseV3(body)
  {
    var m := body[4..];
    if |m| < 34 {
      return Err(ShortClientHello);
    }
    var random := m[2..34];
    var off := 34;
    if off == |m| {
      return Err(IndexOutOfRange);
    }
    var sidLen := m[off] as int;
    off := off + 1 + sidLen;
    if off + 2 > |m| {
      return Err(MalformedClientHello);
    }
    var csLen := FromBE(m[off..off + 2]);
    off := off + 2;
    if off + csLen > |m| {
      return Err(MalformedSuites);
    }
    var offered := OffersCipher(m[off..off + csLen], false);
    if !offered {
      return Err(CipherNotOffered);
    }
    return Ok(random);
  }

  // ---- encoders, as a client builds these messages ----

  /** The fields of a v2 hello after its type and version. */
  function V2Tail(specs: bytes, sessionId: bytes, challenge: bytes): bytes {
    BE(|specs|, 2) + BE(|sessionId|, 2) + BE(|challenge|, 2) + specs + sessionId + challenge
  }

  function V2Body(specs: bytes, sessionId: bytes, challenge: bytes): bytes {
    [HS_CLIENT_HELLO, 3, 1] + V2Tail(specs, sessionId, challenge)
  }

  predicate Short(b: bytes) {
    |b| < 0x1_0000
  }

  /** Any v2 hello, whatever its version and whatever follows, is parsed to the
      random its challenge stands for, exactly when the cipher is among its specs. */
  lemma ParseV2Fields(head: bytes, specs: bytes, sessionId: bytes, challenge: bytes, rest: bytes)
    requires |head| == 3 && Short(specs) && Short(sessionId) && Short(challenge)
    ensures ParseV2(head + V2Tail(specs, sessionId, challenge) + rest)
      == if Offers(specs, true) then Ok(RightJustify(challenge)) else Err(CipherNotOffered)
  {
    hide Offers, RightJustify, V2Tail, BE, FromBE;
    V2Parts(head, specs, sessionId, challenge, rest);
    Fits2(|specs|);
    Fits2(|sessionId|);
    Fits2(|challenge|);
  }

  lemma V2Parts(head: bytes, specs: bytes, sessionId: bytes, challenge: bytes, rest: bytes)
    requires |head| == 3
    ensures var body := head + V2Tail(specs, sessionId, challenge) + rest;
      var a := 9 + |specs|;
      var b := a + |sessionId|;
      && |body| == b + |challenge| + |rest|
      && body[3..5] == BE(|specs|, 2) && body[5..7] == BE(|sessionId|, 2) && body[7..9] == BE(|challenge|, 2)
      && body[9..a] == specs && body[b..b + |challenge|] == challenge
  {
    var x, y, z := BE(|specs|, 2), BE(|sessionId|, 2), BE(|challenge|, 2);
    hide BE;
    var fixed, more := head + x + y + z, specs + sessionId + challenge + rest;
    var body := head + V2Tail(specs, sessionId, challenge) + rest;
    assert body == fixed + more;
    FixedParts(head, x, y, z, more);
    AfterPrefix(fixed, more, 9, 9 + |specs|);
    var b := 9 + |specs| + |sessionId|;
    AfterPrefix(fixed, more, b, b + |challenge|);
  }

  lemma FixedParts(head: bytes, x: bytes, y: bytes, z: bytes, more: bytes)
    requires |head| == 3 && |x| == |y| == |z| == 2
    ensures var s := (head + x + y + z) + more; s[3..5] == x && s[5..7] == y && s[7..9] == z
  {
    var s := (head + x + y + z) + more;
    assert s == head + (x + (y + (z + more)));
    AfterPrefix(head, x + (y + (z + more)), 3, 5);
    AfterPrefix(head, x + (y + (z + more)), 5, 7);
    AfterPrefix(head, x + (y + (z + more)), 7, 9);
  }

  /** The v2 parse yields a random exactly on the bodies that hold the announced
      fields, with the cipher among the specs. */
  lemma {:induction false} ParseV2Iff(body: bytes, random: bytes)
    requires |body| >= 9
    ensures ParseV2(body) == Ok(random) <==>
      exists specs, sessionId, challenge, rest ::
        && Short(specs) && Short(sessionId) && Short(challenge)
        && body == body[..3] + V2Tail(specs, sessionId, challenge) + rest
        && Offers(specs, true) && random == RightJustify(challenge)
  {
    hide Offers, RightJustify, V2Tail, ParseV2;
    if ParseV2(body) == Ok(random) {
      var specs, sessionId, challenge, rest := V2Split(body);
    }
    forall specs, sessionId, challenge, rest |
      && Short(specs) && Short(sessionId) && Short(challenge)
      && body == body[..3] + V2Tail(specs, sessionId, challenge) + rest
      && Offers(specs, true) && random == RightJustify(challenge)
      ensures ParseV2(body) == Ok(random)
    {
      ParseV2Fields(body[..3], specs, sessionId, challenge, rest);
    }
  }

  lemma V2Split(body: bytes) returns (specs: bytes, sessionId: bytes, challenge: bytes, rest: bytes)
    requires |body| >= 9 && ParseV2(body).Ok?
    ensures Short(specs) && Short(sessionId) && Short(challenge)
    ensures body == body[..3] + V2Tail(specs, sessionId, challenge) + rest
    ensures Offers(specs, true) && ParseV2(body) == Ok(RightJustify(challenge))
  {
    hide Offers, RightJustify, FromBE, BE;
    var a := 9 + FromBE(body[3..5]);
    var b := a + FromBE(body[5..7]);
    var c := b + FromBE(body[7..9]);
    specs, sessionId, challenge, rest := body[9..a], body[a..b], body[b..c], body[c..];
    EncodeDecode(body[3..5]);
    EncodeDecode(body[5..7]);
    EncodeDecode(body[7..9]);
    Decode2(body[3..5]);
    Decode2(body[5..7]);
    Decode2(body[7..9]);
    assert body == body[..3] + (body[3..5] + body[5..7] + body[7..9] + specs + sessionId + challenge) + rest;
  }

  lemma ParseV2Body(specs: bytes, sessionId: bytes, challenge: bytes)
    requires |specs| < 0x1_0000 && |sessionId| < 0x1_0000 && |challenge| < 0x1_0000
    ensures ParseV2(V2Body(specs, sessionId, challenge))
      == if Offers(specs, true) then Ok(RightJustify(challenge)) else Err(CipherNotOffered)
  {
    hide Offers, RightJustify, V2Tail, ParseV2;
    ParseV2Fields([HS_CLIENT_HELLO, 3, 1], specs, sessionId, challenge, []);
    var body := V2Body(specs, sessionId, challenge);
    assert body + [] == body;
  }

  lemma V2BodyParts(specs: bytes, sessionId: bytes, challenge: bytes)
    ensures var body := V2Body(specs, sessionId, challenge);
      |body| == 9 + |specs| + |sessionId| + |challenge| && body[0] == HS_CLIENT_HELLO
  {
    hide BE;
  }

  /** The fields of a v3 hello after its header. */
  function V3Tail(version: bytes, random: bytes, sessionId: bytes, suites: bytes): bytes
    requires |sessionId| < 256
  {
    version + random + [|sessionId|] + sessionId + BE(|suites|, 2) + suites
  }

  /** Any v3 hello, whatever its version and whatever follows, is parsed to its
      random, exactly when the suite is offered. */
  lemma ParseV3Fields(header: bytes, version: bytes, random: bytes, sessionId: bytes, suites: bytes, rest: bytes)
    requires |header| == 4 && |version| == 2 && |random| == 32 && |sessionId| < 256 && Short(suites)
    ensures ParseV3(header + V3Tail(version, random, sessionId, suites) + rest)
      == if Offers(suites, false) then Ok(random) else Err(CipherNotOffered)
  {
    hide Offers, BE, FromBE;
    var body := header + V3Tail(version, random, sessionId, suites) + rest;
    V3Parts(version, random, sessionId, suites, rest);
    assert body[4..] == V3Tail(version, random, sessionId, suites) + rest;
    Fits2(|suites|);
  }

  lemma V3Parts(version: bytes, random: bytes, sessionId: bytes, suites: bytes, rest: bytes)
    requires |version| == 2 && |random| == 32 && |sessionId| < 256
    ensures var p := V3Tail(version, random, sessionId, suites) + rest;
      var off := 35 + |sessionId|;
      && |p| == off + 2 + |suites| + |rest| && p[2..34] == random && p[34] == |sessionId|
      && p[off..off + 2] == BE(|suites|, 2) && p[off + 2..off + 2 + |suites|] == suites
  {
    hide BE;
  }

  /** The v3 parse yields a random exactly on the messages that hold the
      announced fields, with the suite among those offered. */
  lemma {:induction false} ParseV3Iff(body: bytes, random: bytes)
    requires |body| >= 4
    ensures ParseV3(body) == Ok(random) <==>
      exists version, sessionId, suites, rest ::
        && |version| == 2 && |random| == 32 && |sessionId| < 256 && Short(suites)
        && body == body[..4] + V3Tail(version, random, sessionId, suites) + rest
        && Offers(suites, false)
  {
    hide Offers, V3Tail, ParseV3;
    if ParseV3(body) == Ok(random) {
      var version, sessionId, suites, rest := V3Split(body);
    }
    forall version, sessionId, suites, rest |
      && |version| == 2 && |random| == 32 && |sessionId| < 256 && Short(suites)
      && body == body[..4] + V3Tail(version, random, sessionId, suites) + rest
      && Offers(suites, false)
      ensures ParseV3(body) == Ok(random)
    {
      ParseV3Fields(body[..4], version, random, sessionId, suites, rest);
    }
  }

  lemma V3Split(body: bytes) returns (version: bytes, sessionId: bytes, suites: bytes, rest: bytes)
    requires |body| >= 4 && ParseV3(body).Ok?
    ensures |version| == 2 && |sessionId| < 256 && Short(suites) && Offers(suites, false)
    ensures body == body[..4] + V3Tail(version, ParseV3(body).value, sessionId, suites) + rest
  {
    hide Offers, FromBE, BE;
    var p := body[4..];
    var off := 35 + p[34] as int;
    var end := off + 2 + FromBE(p[off..off + 2]);
    version, sessionId, suites, rest := p[..2], p[35..off], p[off + 2..end], p[end..];
    EncodeDecode(p[off..off + 2]);
    Decode2(p[off..off + 2]);
    assert p == (version + p[2..34] + [p[34]] + sessionId + p[off..off + 2] + suites) + rest;
    assert body == body[..4] + p;
  }

  /** Parsing a v3 hello stays in range for every message but those of exactly 38 bytes. */
  lemma V3OutOfRangeIff(body: bytes)
    requires |body| >= 4
    ensures ParseV3(body) == Err(IndexOutOfRange) <==> |body| == 38
  {
  }

  lemma V3OutOfRangeExample()
    ensures ParseV3([HS_CLIENT_HELLO, 0, 0, 34] + Zeros(34)) == Err(IndexOutOfRange)
  {
  }
}
