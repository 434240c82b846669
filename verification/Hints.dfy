// Which certificate a client is shown: the region hints DNS lookups leave behind
// (hints.go; dns.go:52-74).
module Hints {
  import opened Bytes
  import opened Prf
  import opened Results
  import opened Text
  import opened LongestFirst
  import opened DnsRules
  import opened DnsMessage

  // ---- regionFromName ----

  function DnasSuffix(): bytes {
    Ascii(".dnas.playstation.org")
  }

  /** strings.LastIndexByte for a dot. */
  function LastDot(s: bytes): (i: int)
    ensures -1 <= i < |s|
    ensures i >= 0 ==> s[i] == DOT
    ensures forall j :: i < j < |s| ==> s[j] != DOT
  {
    if s == [] then -1 else if s[|s| - 1] == DOT then |s| - 1 else LastDot(s[..|s| - 1])
  }

  function RegionFromName(name: bytes): Option<bytes> {
    var n := QueryName(name);
    if !HasSuffix(n, DnasSuffix()) then None
    else
      var rest := TrimSuffix(n, DnasSuffix());
      if rest == [] then None
      else
        var region := rest[LastDot(rest) + 1..];
        if region == [] then None else Some(region)
  }

  /** The region is the one label in front of dnas.playstation.org, whatever
      comes before it, letter case and a trailing dot aside. */
  lemma RegionIff(name: bytes, region: bytes)
    ensures RegionFromName(name) == Some(region) <==>
      (region != [] && DOT !in region &&
       exists before: bytes :: (before == [] || before[|before| - 1] == DOT) &&
         QueryName(name) == before + region + Ascii(".dnas.playstation.org"))
  {
    hide QueryName, DnasSuffix, LastDot, RegionFromName;
    SuffixText();
    if RegionFromName(name) == Some(region) {
      var before := BeforeRegion(name, region);
    }
    forall before: bytes | (before == [] || before[|before| - 1] == DOT)
      && QueryName(name) == before + region + Ascii(".dnas.playstation.org") && region != [] && DOT !in region
      ensures RegionFromName(name) == Some(region)
    {
      RegionAt(name, before, region);
    }
  }

  lemma SuffixText()
    ensures DnasSuffix() == Ascii(".dnas.playstation.org")
  {
  }

  lemma BeforeRegion(name: bytes, region: bytes) returns (before: bytes)
    requires RegionFromName(name) == Some(region)
    ensures region != [] && DOT !in region
    ensures before == [] || before[|before| - 1] == DOT
    ensures QueryName(name) == before + region + DnasSuffix()
  {
    hide QueryName, DnasSuffix, LastDot;
    var n, suffix := QueryName(name), DnasSuffix();
    var rest := n[..|n| - |suffix|];
    assert n == rest + suffix;
    AfterLastDot(rest);
    before := rest[..LastDot(rest) + 1];
  }

  lemma AfterLastDot(s: bytes)
    ensures var i := LastDot(s) + 1;
      s == s[..i] + s[i..] && DOT !in s[i..] && (s[..i] == [] || s[..i][i - 1] == DOT)
  {
    hide LastDot;
    var i := LastDot(s) + 1;
    forall j | 0 <= j < |s[i..]| ensures s[i..][j] != DOT {
      assert s[i..][j] == s[i + j];
    }
  }

  lemma RegionAt(name: bytes, before: bytes, region: bytes)
    requires (before == [] || before[|before| - 1] == DOT) && QueryName(name) == before + region + DnasSuffix()
    requires region != [] && DOT !in region
    ensures RegionFromName(name) == Some(region)
  {
    hide QueryName, DnasSuffix, LastDot;
    var n, suffix, rest := QueryName(name), DnasSuffix(), before + region;
    assert n[..|n| - |suffix|] == rest && n[|n| - |suffix|..] == suffix;
    LabelAfter(before, region);
  }

  lemma LabelAfter(before: bytes, region: bytes)
    requires (before == [] || before[|before| - 1] == DOT) && DOT !in region
    ensures (before + region)[LastDot(before + region) + 1..] == region
  {
    var rest := before + region;
    assert forall j :: |before| <= j < |rest| ==> rest[j] == region[j - |before|];
    assert before != [] ==> rest[|before| - 1] == DOT;
    assert rest[|before|..] == region;
  }

  // ---- one DNS query ----

  datatype Decision = Forward | Redirect(resp: bytes, region: Option<bytes>)

  function Decide(rules: seq<DnsRule>, query: bytes): Decision {
    match ParseQuestion(query)
    case None => Forward
    case Some(q) =>
      if q.qtype != 1 then Forward
      else
        match Lookup(rules, q.name)
        case None => Forward
        case Some(ip) =>
          match AResponse(query, ip)
          case Answered(resp) => Redirect(resp, RegionFromName(q.name))
          case _ => Forward
  }

  /** A query is answered here exactly when it is an A question for a name some
      rule covers with an IPv4 address; the message itself never gets in the way. */
  lemma RedirectsIff(rules: seq<DnsRule>, query: bytes)
    ensures Decide(rules, query).Redirect? <==>
      (ParseQuestion(query).Some? && ParseQuestion(query).value.qtype == 1 &&
       Lookup(rules, ParseQuestion(query).value.name).Some? &&
       To4(Lookup(rules, ParseQuestion(query).value.name).value).Some?)
  {
    hide ParseQuestion, Lookup, Response, To4;
    var q := ParseQuestion(query);
    if q.Some? && Lookup(rules, q.value.name).Some? && To4(Lookup(rules, q.value.name).value).Some? {
      ReadableIsAnswerable(query, Lookup(rules, q.value.name).value);
    }
  }

  /** What a redirect is: an answer that a resolver reads as the address of a rule
      for the asked name, and the note of exactly the label in front of the DNAS
      domain, if the name is in it. */
  lemma {:induction false} RedirectIs(rules: seq<DnsRule>, query: bytes, a: bytes)
    requires ParseQuestion(query).Some? && ParseQuestion(query).value.qtype == 1 && |a| == 4
    requires var ip := Lookup(rules, ParseQuestion(query).value.name);
      ip == Some(a) || ip == Some([0, 0, 0, 0, 0, 0, 0, 0, 0, 0, 0xff, 0xff] + a)
    ensures var name, d := ParseQuestion(query).value.name, Decide(rules, query);
      && d.Redirect?
      && |d.resp| >= 16 && DecodeRecord(d.resp, |d.resp| - 16) == Some(ARecord(name, 1, 1, 300, a))
      && ParseQuestion(d.resp) == ParseQuestion(query) && d.resp[..2] == query[..2]
      && d.region == RegionFromName(name)
  {
    hide FromBE, JoinDots, ScanName, Lookup, AResponse, RegionFromName, DecodeRecord, To4;
    var ip := Lookup(rules, ParseQuestion(query).value.name).value;
    To4Iff(ip, a);
    AnswerDecodes(query, ip, a);
    ReadableIsAnswerable(query, ip);
  }

  /** A console that asks for a host under <region>.dnas.playstation.org and is
      redirected leaves exactly that region as its hint. */
  lemma {:induction false} RegionNoted(rules: seq<DnsRule>, query: bytes, ip: bytes, before: bytes, region: bytes)
    requires Decide(rules, query).Redirect? && region != [] && DOT !in region
    requires before == [] || before[|before| - 1] == DOT
    requires QueryName(ParseQuestion(query).value.name) == before + region + Ascii(".dnas.playstation.org")
    ensures Noted(rules, Query(ip, query), ip) == Some(region)
  {
    hide ParseQuestion, Lookup, AResponse, RegionFromName, QueryName;
    RegionIff(ParseQuestion(query).value.name, region);
  }

  /** A legal query whose one label is the three bytes "a.b" is covered by a rule
      for "b", although "b" is not made of its last labels. */
  lemma DottedLabelExample()
    ensures var labels := [Ascii("a.b")];
      var query := [0, 0, 1, 0, 0, 1, 0, 0, 0, 0, 0, 0] + EncodeName(labels) + [0, 1, 0, 1];
      && Legal(labels)
      && ParseQuestion(query) == Some(Question(Ascii("a.b"), 1))
      && Covers(QueryName(Ascii("a.b")), Ascii("b")) && !LastLabels(labels, Ascii("b"))
  {
    var dotted := Ascii("a.b");
    var labels := [dotted];
    assert dotted == [97, 46, 98] && Ascii("b") == [98];
    var header: bytes := [0, 0, 1, 0, 0, 1, 0, 0, 0, 0, 0, 0];
    Decode2(header[4..6]);
    Encode2(1);
    QueryParses(header, labels, 1, [0, 1], []);
    assert header + EncodeName(labels) + BE(1, 2) + [0, 1] + [] == header + EncodeName(labels) + [0, 1, 0, 1];
    assert QueryName(dotted) == dotted;
    assert dotted[1..] == [DOT] + [98];
  }

  class RegionHints {
    var byIP: map<bytes, bytes>

    constructor ()
      ensures byIP == map[]
    {
      byIP := map[];
    }

    method Set(ip: bytes, region: bytes)
      modifies this
      ensures byIP == old(byIP)[ip := region]
    {
      byIP := byIP[ip := region];
    }

    method Get(ip: bytes) returns (r: Option<bytes>)
      ensures r == Hint(byIP, ip)
    {
      if ip in byIP {
        return Some(byIP[ip]);
      }
      return None;
    }
  }

  function Hint(byIP: map<bytes, bytes>, ip: bytes): Option<bytes> {
    if ip in byIP then Some(byIP[ip]) else None
  }

  /** handle: redirects or forwards, and notes the region of a redirected name
      where hints are kept. */
  method Handle(rules: seq<DnsRule>, hints: RegionHints?, src: bytes, query: bytes) returns (d: Decision)
    modifies hints
    ensures d == Decide(rules, query)
    ensures hints != null ==> hints.byIP == Step(rules, old(hints.byIP), Query(src, query))
  {
    hide ParseQuestion, Lookup, AResponse, RegionFromName;
    var q := ParseQuestionLoop(query);
    if q.Some? && q.value.qtype == 1 {
      var ip := LookupIP(rules, q.value.name);
      if ip.Some? {
        var built := BuildAResponse(query, ip.value);
        if built.Answered? {
          var region := RegionFromName(q.value.name);
          if region.Some? && hints != null {
            hints.Set(src, region.value);
          }
          return Redirect(built.resp, region);
        }
      }
    }
    return Forward;
  }

  // ---- runs ----

  datatype Event = Query(ip: bytes, query: bytes) | Connect(ip: bytes)

  /** The region an event notes for a client. */
  function Noted(rules: seq<DnsRule>, e: Event, ip: bytes): Option<bytes> {
    if e.Query? && e.ip == ip && Decide(rules, e.query).Redirect? then Decide(rules, e.query).region else None
  }

  function Step(rules: seq<DnsRule>, byIP: map<bytes, bytes>, e: Event): map<bytes, bytes> {
    match Noted(rules, e, e.ip)
    case Some(region) => byIP[e.ip := region]
    case None => byIP
  }

  function Run(rules: seq<DnsRule>, events: seq<Event>): map<bytes, bytes> {
    if events == [] then map[] else Step(rules, Run(rules, events[..|events| - 1]), events[|events| - 1])
  }

  /** After any run the hint for a client is what its own latest redirected
      region lookup noted, and there is none exactly when it made none. */
  lemma {:induction false} HintIsLatest(rules: seq<DnsRule>, events: seq<Event>, ip: bytes)
    ensures Hint(Run(rules, events), ip).None? <==>
      forall i :: 0 <= i < |events| ==> Noted(rules, events[i], ip).None?
    ensures Hint(Run(rules, events), ip).Some? ==>
      exists i :: 0 <= i < |events| && Noted(rules, events[i], ip) == Hint(Run(rules, events), ip) &&
        forall j :: i < j < |events| ==> Noted(rules, events[j], ip).None?
  {
    hide Noted, Hint, Step;
    if events == [] {
      NoHint(ip);
    } else {
      var front, n := events[..|events| - 1], |events| - 1;
      HintIsLatest(rules, front, ip);
      HintAfter(rules, Run(rules, front), events[n], ip);
      assert forall i :: 0 <= i < n ==> front[i] == events[i];
    }
  }

  lemma NoHint(ip: bytes)
    ensures Hint(map[], ip).None?
  {
  }

  lemma HintAfter(rules: seq<DnsRule>, byIP: map<bytes, bytes>, e: Event, ip: bytes)
    ensures Hint(Step(rules, byIP, e), ip)
      == if Noted(rules, e, ip).Some? then Noted(rules, e, ip) else Hint(byIP, ip)
  {
    hide Decide;
  }

  function Own(events: seq<Event>, ip: bytes): seq<Event> {
    if events == [] then []
    else Own(events[..|events| - 1], ip) + (if events[|events| - 1].ip == ip then [events[|events| - 1]] else [])
  }

  lemma OnlyOwnNoted(rules: seq<DnsRule>, e: Event, ip: bytes)
    ensures Noted(rules, e, ip).Some? ==> e.ip == ip
  {
  }

  /** What other clients do never changes a client's hint. */
  lemma {:induction false} OthersDoNotMatter(rules: seq<DnsRule>, events: seq<Event>, ip: bytes)
    ensures Hint(Run(rules, events), ip) == Hint(Run(rules, Own(events, ip)), ip)
  {
    hide Noted, Hint, Step;
    if events != [] {
      var front, last := events[..|events| - 1], events[|events| - 1];
      OthersDoNotMatter(rules, front, ip);
      HintAfter(rules, Run(rules, front), last, ip);
      HintAfter(rules, Run(rules, Own(front, ip)), last, ip);
      OnlyOwnNoted(rules, last, ip);
      if last.ip == ip {
        var own := Own(front, ip) + [last];
        assert own[..|own| - 1] == Own(front, ip);
      } else {
        assert Own(events, ip) == Own(front, ip);
      }
    }
  }

  // ---- certFor ----

  /** The certificate for a connection; hints are absent when DNS is disabled. */
  function CertFor<C>(certs: map<bytes, C>, defaultRegion: bytes, hints: Option<map<bytes, bytes>>, ip: bytes): C
    requires defaultRegion in certs
  {
    match hints
    case None => certs[defaultRegion]
    case Some(byIP) =>
      match Hint(byIP, ip)
      case Some(region) => if region in certs then certs[region] else certs[defaultRegion]
      case None => certs[defaultRegion]
  }

  /** Without a usable hint the default certificate is shown: when no hints are
      kept, none is known for the client, or there is no certificate for it. */
  lemma CertForDefault<C>(certs: map<bytes, C>, defaultRegion: bytes, hints: Option<map<bytes, bytes>>, ip: bytes)
    requires defaultRegion in certs
    requires hints.Some? && ip in hints.value ==> hints.value[ip] !in certs
    ensures CertFor(certs, defaultRegion, hints, ip) == certs[defaultRegion]
  {
  }

  /** A console that looks up its region's gateway and then connects is shown
      that region's certificate, whatever happened before the lookup and
      whatever other clients do, or it itself short of another such lookup,
      in between. */
  lemma {:induction false} LookupThenConnect<C>(rules: seq<DnsRule>, certs: map<bytes, C>, defaultRegion: bytes,
                             before: seq<Event>, query: bytes, between: seq<Event>, ip: bytes,
                             front: bytes, region: bytes)
    requires defaultRegion in certs && region in certs
    requires Decide(rules, query).Redirect? && region != [] && DOT !in region
    requires front == [] || front[|front| - 1] == DOT
    requires QueryName(ParseQuestion(query).value.name) == front + region + Ascii(".dnas.playstation.org")
    requires forall i :: 0 <= i < |between| ==> Noted(rules, between[i], ip).None?
    ensures CertFor(certs, defaultRegion, Some(Run(rules, before + [Query(ip, query)] + between)), ip) == certs[region]
  {
    hide Noted, Run, Decide, QueryName, ParseQuestion;
    RegionNoted(rules, query, ip, front, region);
    var events, k := before + [Query(ip, query)] + between, |before|;
    HintIsLatest(rules, events, ip);
    assert events[k] == Query(ip, query);
    assert forall j :: k < j < |events| ==> events[j] == between[j - k - 1];
    assert Noted(rules, events[k], ip).Some?;
    var i :| 0 <= i < |events| && Noted(rules, events[i], ip) == Hint(Run(rules, events), ip) &&
      forall j :: i < j < |events| ==> Noted(rules, events[j], ip).None?;
    assert i == k;
  }
}
