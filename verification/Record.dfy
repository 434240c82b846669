// The record layer, one direction at a time (tls10.go:128-221; RFC 2246 section 6).
module Record {
  import opened Bytes
  import opened Results
  import opened Primitives
  import Cbc

  const CT_CHANGE_CIPHER_SPEC: byte := 20
  const CT_ALERT: byte := 21
  const CT_HANDSHAKE: byte := 22
  const CT_APPLICATION_DATA: byte := 23

  const MAC_LEN := 20
  const KEY_LEN := 24
  const BLOCK_LEN := 8
  const MAX_PLAINTEXT := 0x4000
  const MAX_FRAGMENT := MAX_PLAINTEXT + 2048

  datatype Rec = Rec(contentType: byte, content: bytes)

  /** The state of one direction of a connection. */
  datatype Direction = Direction(active: bool, seqNo: uint64, key: bytes, iv: bytes, mac: bytes)
  {
    predicate Valid() {
      active ==> |key| == KEY_LEN && |iv| == BLOCK_LEN
    }
  }

  const PLAIN := Direction(false, 0, [], [], [])

  /** uint64 increment. */
  function Next(n: uint64): uint64 {
    (n + 1) % TWO_64
  }

  // ---- the MAC ----

  function MacInput(seqNo: uint64, r: Rec): bytes {
    BE(seqNo, 8) + [r.contentType, 3, 1] + BE(|r.content|, 2) + r.content
  }

  function RecordMac(p: Crypto, d: Direction, r: Rec): (m: bytes)
    ensures |m| == MAC_LEN
  {
    p.hmacSha1(d.mac, MacInput(d.seqNo, r))
  }

  /** Position, type and content are all determined by what is authenticated,
      even where the two-byte length field has wrapped around. */
  lemma MacInputInjective(s1: uint64, r1: Rec, s2: uint64, r2: Rec)
    requires MacInput(s1, r1) == MacInput(s2, r2)
    ensures s1 == s2 && r1 == r2
  {
    var a, b := MacInput(s1, r1), MacInput(s2, r2);
    assert a[..8] == BE(s1, 8) && b[..8] == BE(s2, 8);
    Capacities();
    EncodeInjective(s1, s2, 8);
    assert a[8] == r1.contentType && b[8] == r2.contentType;
    assert a[13..] == r1.content && b[13..] == r2.content;
  }

  /** RFC 2246 section 6.2.3.1, field by field: sequence number, type, version,
      the low 16 bits of the length, content. */
  lemma MacInputFields(seqNo: uint64, r: Rec)
    ensures var m := MacInput(seqNo, r);
      && |m| == 13 + |r.content| && FromBE(m[..8]) == seqNo
      && m[8] == r.contentType && m[9..11] == [3, 1]
      && FromBE(m[11..13]) == |r.content| % 0x1_0000 && m[13..] == r.content
  {
    hide BE, FromBE;
    var m := MacInput(seqNo, r);
    assert m[..8] == BE(seqNo, 8) && m[11..13] == BE(|r.content|, 2);
    Capacities();
    DecodeEncode(seqNo, 8);
    Encode2(|r.content|);
  }

  // ---- writing ----

  /** What is encrypted: content, MAC, filler and the length of the filler. */
  function Layout(p: Crypto, d: Direction, r: Rec, filler: bytes): (l: bytes)
    requires |filler| < 256
    ensures |l| == |r.content| + MAC_LEN + |filler| + 1
  {
    r.content + RecordMac(p, d, r) + filler + [|filler|]
  }

  /** The number of padding bytes writeRecord adds, 1 to 8. */
  function PadLen(n: nat): (k: nat)
    ensures 1 <= k <= BLOCK_LEN && (n + k) % BLOCK_LEN == 0
  {
    BLOCK_LEN - n % BLOCK_LEN
  }

  /** n copies of the byte n. */
  function Filler(n: byte): (f: bytes)
    ensures |f| == n
  {
    seq(n, _ => n)
  }

  function Plaintext(p: Crypto, d: Direction, r: Rec): (l: bytes)
    ensures |l| % BLOCK_LEN == 0 && |r.content| + 21 <= |l| <= |r.content| + 28
  {
    Layout(p, d, r, Filler(PadLen(|r.content| + MAC_LEN) - 1))
  }

  function Payload(p: Crypto, d: Direction, r: Rec): (frag: bytes)
    requires d.Valid()
    ensures |frag| == PayloadLen(d, |r.content|)
  {
    if !d.active then r.content else Cbc.Encrypt(p, d.key, d.iv, Plaintext(p, d, r))
  }

  function PayloadLen(d: Direction, n: nat): nat {
    if !d.active then n else n + MAC_LEN + PadLen(n + MAC_LEN)
  }

  /** The direction after one record with this fragment was sealed or opened. */
  function Advance(d: Direction, frag: bytes): (d': Direction)
    requires d.Valid()
    requires d.active ==> |frag| >= BLOCK_LEN
    ensures d'.Valid()
  {
    if !d.active then d else d.(iv := frag[|frag| - BLOCK_LEN..], seqNo := Next(d.seqNo))
  }

  /** A record on the wire; the length field keeps the low 16 bits. */
  function Frame(contentType: byte, version: bytes, frag: bytes): bytes {
    [contentType] + version + BE(|frag|, 2) + frag
  }

  const VERSION: bytes := [3, 1]

  /** The bytes writeRecord sends and the direction it leaves behind. */
  function WriteRecord(p: Crypto, d: Direction, r: Rec): (w: (bytes, Direction))
    requires d.Valid()
    ensures w.1.Valid() && w.1.active == d.active
    ensures w.1.key == d.key && w.1.mac == d.mac && |w.1.iv| == |d.iv|
  {
    var frag := Payload(p, d, r);
    (Frame(r.contentType, VERSION, frag), Advance(d, frag))
  }

  /** RFC 2246 section 6.2.3.2: what is encrypted is the content, its MAC, and k
      bytes with the value k-1 that fill the last block. */
  lemma PlaintextFields(p: Crypto, d: Direction, r: Rec)
    ensures var l, n := Plaintext(p, d, r), |r.content|;
      var k := |l| - n - 20;
      && |l| % 8 == 0 && 1 <= k <= 8
      && l[..n] == r.content && l[n..n + 20] == p.hmacSha1(d.mac, MacInput(d.seqNo, r))
      && forall i :: n + 20 <= i < |l| ==> l[i] == k - 1
  {
    hide MacInput;
  }

  /** The bytes on the wire: type, version 3.1, the low 16 bits of the length,
      and the fragment, which in the clear is the content and in use its CBC
      encryption; the next record is chained to its last block. */
  lemma RecordOnWire(p: Crypto, d: Direction, r: Rec)
    requires d.Valid()
    ensures var (w, d') := WriteRecord(p, d, r);
      var frag := if d.active then Cbc.Encrypt(p, d.key, d.iv, Plaintext(p, d, r)) else r.content;
      && |w| == 5 + |frag| && w[0] == r.contentType && w[1..3] == [3, 1]
      && FromBE(w[3..5]) == |frag| % 0x1_0000 && w[5..] == frag
      && d' == if d.active then d.(iv := frag[|frag| - 8..], seqNo := (d.seqNo + 1) % 0x1_0000_0000_0000_0000) else d
  {
    hide BE, FromBE, Plaintext, Cbc.Encrypt;
    var w, frag := WriteRecord(p, d, r).0, Payload(p, d, r);
    FrameFields(r.contentType, VERSION, frag, []);
    assert w + [] == w && w[3..5] == BE(|frag|, 2) && w[1..3] == VERSION;
    Encode2(|frag|);
  }

  // ---- reading ----

  /** io.ReadFull: n bytes and the rest, or the end of the stream. */
  function ReadFull(input: bytes, n: nat): Result<(bytes, bytes)> {
    if n <= |input| then Ok((input[..n], input[n..]))
    else if input == [] then Err(Eof)
    else Err(UnexpectedEof)
  }

  /** The content of a decrypted fragment once padding and MAC are checked. */
  function Unwrap(p: Crypto, d: Direction, contentType: byte, plain: bytes): Result<bytes>
    requires |plain| > 0
  {
    var padLen := (plain[|plain| - 1] as int) + 1;
    if padLen > |plain| - MAC_LEN then Err(BadPadding)
    else
      var rec := plain[..|plain| - padLen];
      if |rec| < MAC_LEN then Err(ShorterThanMac)
      else
        var content := rec[..|rec| - MAC_LEN];
        if rec[|rec| - MAC_LEN..] != RecordMac(p, d, Rec(contentType, content)) then Err(BadRecordMac)
        else Ok(content)
  }

  /** The IV moves on with every well-sized fragment, the sequence number only with an accepted one. */
  function Decrypt(p: Crypto, d: Direction, contentType: byte, frag: bytes): (r: (Result<bytes>, Direction))
    requires d.Valid() && d.active
    ensures r.1.Valid() && r.1.active && r.1.key == d.key && r.1.mac == d.mac
  {
    if |frag| < BLOCK_LEN || |frag| % BLOCK_LEN != 0 then (Err(BadCbcLength), d)
    else
      var d1 := d.(iv := frag[|frag| - BLOCK_LEN..]);
      match Unwrap(p, d, contentType, Cbc.Decrypt(p, d.key, d.iv, frag))
      case Err(e) => (Err(e), d1)
      case Ok(content) => (Ok(content), d1.(seqNo := Next(d.seqNo)))
  }

  /** What one call of readRecord returns, and the direction and unread bytes it leaves. */
  datatype Reading = Reading(result: Result<Rec>, dir: Direction, rest: bytes)

  function ReadRecord(p: Crypto, d: Direction, input: bytes): (r: Reading)
    requires d.Valid()
    ensures r.dir.Valid() && r.dir.active == d.active
    ensures r.dir.key == d.key && r.dir.mac == d.mac && |r.dir.iv| == |d.iv|
    ensures r.result.Ok? ==> |r.rest| < |input|
    ensures |r.rest| <= |input|
  {
    match ReadFull(input, 5)
    case Err(e) => Reading(Err(e), d, [])
    case Ok((hdr, tail)) =>
      var length := FromBE(hdr[3..5]);
      if length > MAX_FRAGMENT then Reading(Err(RecordTooLarge), d, tail)
      else
        match ReadFull(tail, length)
        case Err(e) => Reading(Err(e), d, [])
        case Ok((frag, rest)) =>
          if !d.active then Reading(Ok(Rec(hdr[0], frag)), d, rest)
          else
            match Decrypt(p, d, hdr[0], frag)
            case (Err(e), d1) => Reading(Err(e), d1, rest)
            case (Ok(content), d1) => Reading(Ok(Rec(hdr[0], content)), d1, rest)
  }

  /** What decrypt leaves behind: the IV is the last block of any fragment of
      whole blocks, accepted or not; the sequence number counts accepted ones. */
  lemma DecryptLeaves(p: Crypto, d: Direction, contentType: byte, frag: bytes)
    requires d.Valid() && d.active
    ensures var (result, d') := Decrypt(p, d, contentType, frag);
      var sized := |frag| >= 8 && |frag| % 8 == 0;
      && (result == Err(BadCbcLength) <==> !sized)
      && d' == d.(iv := if sized then frag[|frag| - 8..] else d.iv,
                  seqNo := if result.Ok? then (d.seqNo + 1) % 0x1_0000_0000_0000_0000 else d.seqNo)
  {
    hide RecordMac, Cbc.Decrypt;
  }

  // ---- what decrypt accepts ----

  /** Decrypt succeeds with this content exactly on fragments whose plaintext is
      content, its MAC, any filler of 0 to 255 bytes, and the filler's length. */
  lemma DecryptAccepts(p: Crypto, d: Direction, contentType: byte, frag: bytes, content: bytes)
    requires d.Valid() && d.active
    ensures Decrypt(p, d, contentType, frag).0 == Ok(content) <==>
      (|frag| >= BLOCK_LEN && |frag| % BLOCK_LEN == 0 &&
       exists filler: bytes :: |filler| < 256 &&
         Cbc.Decrypt(p, d.key, d.iv, frag) == Layout(p, d, Rec(contentType, content), filler))
  {
    if Decrypt(p, d, contentType, frag).0 == Ok(content) {
      var filler := AcceptedLayout(p, d, contentType, frag);
    }
    if |frag| >= BLOCK_LEN && |frag| % BLOCK_LEN == 0 {
      forall filler: bytes
        | |filler| < 256 && Cbc.Decrypt(p, d.key, d.iv, frag) == Layout(p, d, Rec(contentType, content), filler)
        ensures Decrypt(p, d, contentType, frag).0 == Ok(content)
      {
        LayoutAccepted(p, d, Rec(contentType, content), filler, frag);
      }
    }
  }

  lemma AcceptedLayout(p: Crypto, d: Direction, contentType: byte, frag: bytes) returns (filler: bytes)
    requires d.Valid() && d.active && Decrypt(p, d, contentType, frag).0.Ok?
    ensures |filler| < 256 && |frag| >= BLOCK_LEN && |frag| % BLOCK_LEN == 0
    ensures Cbc.Decrypt(p, d.key, d.iv, frag)
      == Layout(p, d, Rec(contentType, Decrypt(p, d, contentType, frag).0.value), filler)
  {
    hide MacInput;
    var plain := Cbc.Decrypt(p, d.key, d.iv, frag);
    var last := |plain| - 1;
    var n := plain[last] as int;
    filler := plain[last - n..last];
    var rec := plain[..last - n];
    var content := rec[..|rec| - MAC_LEN];
    assert rec == content + rec[|rec| - MAC_LEN..];
    assert plain == rec + filler + [plain[last]];
  }

  lemma LayoutAccepted(p: Crypto, d: Direction, r: Rec, filler: bytes, frag: bytes)
    requires d.Valid() && d.active && |filler| < 256
    requires |frag| >= BLOCK_LEN && |frag| % BLOCK_LEN == 0
    requires Cbc.Decrypt(p, d.key, d.iv, frag) == Layout(p, d, r, filler)
    ensures Decrypt(p, d, r.contentType, frag) == (Ok(r.content), Advance(d, frag))
  {
    hide Layout, Cbc.Decrypt, Unwrap;
    LayoutUnwraps(p, d, r, filler);
  }

  lemma LayoutUnwraps(p: Crypto, d: Direction, r: Rec, filler: bytes)
    requires |filler| < 256
    ensures Unwrap(p, d, r.contentType, Layout(p, d, r, filler)) == Ok(r.content)
  {
    hide Layout, RecordMac;
    LayoutParts(p, d, r, filler);
  }

  lemma LayoutParts(p: Crypto, d: Direction, r: Rec, filler: bytes)
    requires |filler| < 256
    ensures var l := Layout(p, d, r, filler);
      && l[|l| - 1] == |filler|
      && l[..|l| - (|filler| + 1)] == r.content + RecordMac(p, d, r)
      && (r.content + RecordMac(p, d, r))[..|r.content|] == r.content
      && (r.content + RecordMac(p, d, r))[|r.content|..] == RecordMac(p, d, r)
  {
    hide RecordMac;
  }

  /** Whatever legal padding the peer chose, opening recovers the content and
      leaves the direction exactly where the peer's write left its own. */
  lemma OpenSealed(p: Crypto, d: Direction, r: Rec, filler: bytes)
    requires d.Valid() && d.active && |filler| < 256
    requires (|r.content| + MAC_LEN + |filler| + 1) % BLOCK_LEN == 0
    ensures var frag := Cbc.Encrypt(p, d.key, d.iv, Layout(p, d, r, filler));
      Decrypt(p, d, r.contentType, frag) == (Ok(r.content), Advance(d, frag))
  {
    hide Decrypt, RecordMac, Cbc.Encrypt, Cbc.Decrypt;
    var plain := Layout(p, d, r, filler);
    Cbc.DecryptEncrypt(p, d.key, d.iv, plain);
    LayoutAccepted(p, d, r, filler, Cbc.Encrypt(p, d.key, d.iv, plain));
  }

  /** The check for a record shorter than its MAC can never fire: the padding
      check before it has already rejected such records. */
  lemma ShorterThanMacIsDead(p: Crypto, d: Direction, contentType: byte, frag: bytes)
    requires d.Valid() && d.active
    ensures Decrypt(p, d, contentType, frag).0 != Err(ShorterThanMac)
  {
  }

  // ---- one record there and back ----

  lemma ReadFramed(p: Crypto, d: Direction, contentType: byte, version: bytes, frag: bytes, rest: bytes)
    requires d.Valid() && |version| == 2 && |frag| <= MAX_FRAGMENT
    ensures ReadRecord(p, d, Frame(contentType, version, frag) + rest)
      == if !d.active then Reading(Ok(Rec(contentType, frag)), d, rest)
         else match Decrypt(p, d, contentType, frag)
              case (Err(e), d1) => Reading(Err(e), d1, rest)
              case (Ok(content), d1) => Reading(Ok(Rec(contentType, content)), d1, rest)
  {
    hide Decrypt, Frame, BE, FromBE;
    FrameFields(contentType, version, frag, rest);
    Encode2(|frag|);
  }

  lemma FrameFields(contentType: byte, version: bytes, frag: bytes, rest: bytes)
    requires |version| == 2
    ensures var input := Frame(contentType, version, frag) + rest;
      && |input| == 5 + |frag| + |rest|
      && input[..5][0] == contentType && input[..5][3..5] == BE(|frag|, 2)
      && input[5..][..|frag|] == frag && input[5..][|frag|..] == rest
  {
    hide BE;
    var input := Frame(contentType, version, frag) + rest;
    assert input[5..] == frag + rest;
  }

  /** A mirrored reader gets the record back, with equal state afterwards. */
  lemma ReadBack(p: Crypto, d: Direction, r: Rec, rest: bytes)
    requires d.Valid() && PayloadLen(d, |r.content|) <= MAX_FRAGMENT
    ensures var (wire, d') := WriteRecord(p, d, r);
      ReadRecord(p, d, wire + rest) == Reading(Ok(r), d', rest)
  {
    hide Frame, ReadRecord, Decrypt, Layout;
    ReadFramed(p, d, r.contentType, VERSION, Payload(p, d, r), rest);
    if d.active {
      OpenSealed(p, d, r, Filler(PadLen(|r.content| + MAC_LEN) - 1));
    }
  }

  /** No accepted content is longer than the length field says. */
  lemma ShortRead(p: Crypto, d: Direction, input: bytes)
    requires d.Valid() && |input| >= 5
    ensures var r := ReadRecord(p, d, input).result;
      r.Ok? ==> |r.value.content| <= FromBE(input[..5][3..5]) <= MAX_FRAGMENT
  {
  }

  lemma TooLongIsNotRead(p: Crypto, d: Direction, r: Rec, rest: bytes)
    requires d.Valid() && PayloadLen(d, |r.content|) > MAX_FRAGMENT
    ensures ReadRecord(p, d, WriteRecord(p, d, r).0 + rest).result != Ok(r)
  {
    hide Frame, ReadRecord, BE, FromBE, Payload;
    var frag := Payload(p, d, r);
    FrameFields(r.contentType, VERSION, frag, rest);
    Encode2(|frag|);
    ShortRead(p, d, Frame(r.contentType, VERSION, frag) + rest);
    assert |r.content| + 28 >= |frag|;
    assert |frag| < 0x1_0000 ==> |frag| % 0x1_0000 == |frag|;
  }

  /** The limit of 2^14+2048 bytes is the exact condition: a longer fragment is
      refused, or cut short by its two-byte length field. */
  lemma ReadBackIff(p: Crypto, d: Direction, r: Rec, rest: bytes)
    requires d.Valid()
    ensures ReadRecord(p, d, WriteRecord(p, d, r).0 + rest).result == Ok(r) <==>
      PayloadLen(d, |r.content|) <= 0x4000 + 2048
  {
    hide ReadRecord, WriteRecord, PayloadLen;
    if PayloadLen(d, |r.content|) <= MAX_FRAGMENT {
      ReadBack(p, d, r, rest);
    } else {
      TooLongIsNotRead(p, d, r, rest);
    }
  }

  lemma WithinPlaintextFits(d: Direction, n: nat)
    requires n <= MAX_PLAINTEXT
    ensures PayloadLen(d, n) <= MAX_FRAGMENT
  {
  }
}
