// The redirect rules of the DNS server (config.go:56-66, 113-138; dns.go:76-86;
// main.go:141-153) and the proxy prefixes (proxy.go:63-75).
module DnsRules {
  import opened Bytes
  import opened Results
  import opened Text
  import opened LongestFirst

  /** A suffix and an IP; a nil IP is the empty slice. */
  type DnsRule = Rule<bytes>

  function NormalizeName(s: bytes): bytes {
    Lower(TrimSuffix(TrimSpace(s), [DOT]))
  }

  /** rulesFromSuffixes: the suffixes that are not empty once normalized. */
  function SuffixRules(suffixes: seq<bytes>, defaultIP: bytes): seq<DnsRule> {
    if suffixes == [] then []
    else
      var front, name := SuffixRules(suffixes[..|suffixes| - 1], defaultIP), NormalizeName(suffixes[|suffixes| - 1]);
      if name != [] then front + [Rule(name, defaultIP)] else front
  }

  method RulesFromSuffixes(suffixes: seq<bytes>, defaultIP: bytes) returns (rules: seq<DnsRule>)
    ensures rules == SuffixRules(suffixes, defaultIP)
  {
    rules := [];
    var k := 0;
    while k < |suffixes|
      invariant 0 <= k <= |suffixes|
      invariant rules == SuffixRules(suffixes[..k], defaultIP)
    {
      assert suffixes[..k + 1][..k] == suffixes[..k];
      var s := NormalizeName(suffixes[k]);
      if s != [] {
        rules := rules + [Rule(s, defaultIP)];
      }
      k := k + 1;
    }
    assert suffixes[..k] == suffixes;
  }

  /** The rules the server starts with: the config file's before the built-in ones. */
  function Configured(extra: seq<DnsRule>, suffixes: seq<bytes>, ip: bytes): seq<DnsRule> {
    StableSort(Dedupe(extra + SuffixRules(suffixes, ip)))
  }

  method Configure(extra: seq<DnsRule>, suffixes: seq<bytes>, ip: bytes) returns (rules: seq<DnsRule>)
    ensures rules == Configured(extra, suffixes, ip)
  {
    rules := extra;
    var builtIn := RulesFromSuffixes(suffixes, ip);
    rules := rules + builtIn;
    rules := DedupeRules(rules);
    var a := new DnsRule[|rules|](i requires 0 <= i < |rules| => rules[i]);
    assert a[..] == rules;
    SortLongestFirst(a);
    rules := a[..];
  }

  function QueryName(name: bytes): bytes {
    Lower(TrimSuffix(name, [DOT]))
  }

  predicate Covers(name: bytes, suffix: bytes) {
    name == suffix || HasSuffix(name, [DOT] + suffix)
  }

  function Covering(name: bytes): bytes -> bool {
    suffix => Covers(name, suffix)
  }

  function Lookup(rules: seq<DnsRule>, name: bytes): Option<bytes> {
    match FirstMatch(rules, Covering(QueryName(name)))
    case Some(r) => IPOf(r)
    case None => None
  }

  /** The IP of a rule, or nil. */
  function IPOf(r: DnsRule): Option<bytes> {
    if r.value == [] then None else Some(r.value)
  }

  method LookupIP(rules: seq<DnsRule>, name: bytes) returns (ip: Option<bytes>)
    ensures ip == Lookup(rules, name)
  {
    var q := QueryName(name);
    var k := 0;
    while k < |rules|
      invariant 0 <= k <= |rules|
      invariant FirstMatch(rules, Covering(q)) == FirstMatch(rules[k..], Covering(q))
    {
      var r := rules[k];
      if q == r.key || HasSuffix(q, [DOT] + r.key) {
        return IPOf(r);
      }
      k := k + 1;
    }
    return None;
  }

  // ---- names ----

  /** Letter case does not matter to a lookup, nor does one dot at the end. */
  lemma {:induction false} LookupFolds(rules: seq<DnsRule>, a: bytes, b: bytes)
    requires |a| == |b| && forall i :: 0 <= i < |a| ==> SameLetter(a[i], b[i])
    requires a == [] || a[|a| - 1] != 46
    ensures Lookup(rules, a) == Lookup(rules, b) == Lookup(rules, b + [46])
  {
    hide Lookup, Lower;
    assert b == [] || b[|b| - 1] != 46;
    assert (b + [46])[..|b|] == b;
    LowerIff(a, Lower(b));
    LowerIff(b, Lower(b));
    forall i | 0 <= i < |a| ensures SameLetter(a[i], Lower(b)[i]) {
      assert SameLetter(a[i], b[i]) && SameLetter(b[i], Lower(b)[i]);
    }
    assert QueryName(a) == Lower(b) && QueryName(b) == Lower(b) && QueryName(b + [46]) == Lower(b);
    SameQuery(rules, a, b);
    SameQuery(rules, b, b + [46]);
  }

  lemma SameQuery(rules: seq<DnsRule>, a: bytes, b: bytes)
    requires QueryName(a) == QueryName(b)
    ensures Lookup(rules, a) == Lookup(rules, b)
  {
  }

  /** A name in lower case without a final dot is looked up as it is. */
  lemma PlainQuery(name: bytes)
    requires (name == [] || name[|name| - 1] != 46) && forall i :: 0 <= i < |name| ==> !(65 <= name[i] <= 90)
    ensures QueryName(name) == name
  {
    LowerIff(name, name);
  }

  /** A suffix is brought to the form of a looked-up name, without white space around it. */
  lemma SuffixForm(front: bytes, name: bytes, back: bytes)
    requires TrimSpace(front + name + back) == name
    ensures NormalizeName(front + name + back) == QueryName(name)
  {
    hide TrimSpace;
  }

  /** The built-in rules are those of the suffixes that are not empty in that
      form, all with the default address. */
  lemma {:induction false} SuffixRulesSpec(suffixes: seq<bytes>, ip: bytes, r: DnsRule)
    ensures r in SuffixRules(suffixes, ip) <==>
      r.key != [] && r.value == ip && exists s :: s in suffixes && NormalizeName(s) == r.key
  {
    hide NormalizeName;
    if suffixes != [] {
      var front, last := suffixes[..|suffixes| - 1], suffixes[|suffixes| - 1];
      SuffixRulesSpec(front, ip, r);
      assert suffixes == front + [last];
    }
  }

  /** The suffix of a rule covers a name exactly when the name is the suffix or
      ends in a dot and the suffix. */
  lemma CoversIff(name: bytes, suffix: bytes)
    ensures Covers(name, suffix) <==> name == suffix || exists front :: name == front + [46] + suffix
  {
    SuffixIff(name, [DOT] + suffix);
    if front :| name == front + [46] + suffix {
      assert name == front + ([DOT] + suffix);
    }
    if front :| name == front + ([DOT] + suffix) {
      assert name == front + [46] + suffix;
    }
  }

  // ---- what a lookup finds ----

  /** The answer is that of the longest suffix covering the name, the earliest
      rule on ties, and when every rule has an IP, none exactly when no rule
      covers it. */
  lemma {:induction false} LookupSpec(rules: seq<DnsRule>, name: bytes)
    ensures var found := Lookup(StableSort(Dedupe(rules)), name);
      var q := QueryName(name);
      && (if exists i :: 0 <= i < |rules| && Covers(q, rules[i].key)
          then exists i :: IsBest(rules, Covering(q), i)
                           && found == if rules[i].value == [] then None else Some(rules[i].value)
          else found == None)
      && ((forall r :: r in rules ==> r.value != []) ==>
            (found.None? <==> forall i :: 0 <= i < |rules| ==> !Covers(q, rules[i].key)))
  {
    var matches := Covering(QueryName(name));
    SortedFirstMatchIsBest(Dedupe(rules), matches);
    DedupeKeepsBest(rules, matches);
    BestSpec(rules, matches);
  }

  lemma {:induction false} DedupeUnneeded(rules: seq<DnsRule>, name: bytes)
    ensures Lookup(StableSort(rules), name) == Lookup(StableSort(Dedupe(rules)), name)
  {
    var matches := Covering(QueryName(name));
    SortedFirstMatchIsBest(rules, matches);
    SortedFirstMatchIsBest(Dedupe(rules), matches);
    DedupeKeepsBest(rules, matches);
  }

  /** Two suffixes of one length that cover a name are the same. */
  lemma CoversDetermined(name: bytes, a: bytes, b: bytes)
    requires Covers(name, a) && Covers(name, b) && |a| == |b|
    ensures a == b
  {
    if name != a {
      SuffixDetermined(name, [DOT] + a, [DOT] + b);
      assert a == ([DOT] + a)[1..] && b == ([DOT] + b)[1..];
    }
  }

  /** Rules with distinct suffixes may be listed in any order. */
  lemma {:induction false} ReorderingUnnoticed(a: seq<DnsRule>, b: seq<DnsRule>, name: bytes)
    requires DistinctKeys(a) && (forall r :: r in a <==> r in b)
    ensures Lookup(StableSort(Dedupe(a)), name) == Lookup(StableSort(Dedupe(b)), name)
  {
    var q := QueryName(name);
    var matches := Covering(q);
    forall k1, k2 | matches(k1) && matches(k2) && |k1| == |k2| ensures k1 == k2 {
      CoversDetermined(q, k1, k2);
    }
    OrderIrrelevant(a, b, matches);
    SortedFirstMatchIsBest(Dedupe(a), matches);
    SortedFirstMatchIsBest(Dedupe(b), matches);
    DedupeKeepsBest(a, matches);
    DedupeKeepsBest(b, matches);
  }

  /** A rule of the config file for exactly this name decides, whatever else is
      configured; among several such rules, the first. */
  lemma ConfigFileOverrides(extra: seq<DnsRule>, suffixes: seq<bytes>, ip: bytes, name: bytes, k: nat)
    requires k < |extra| && extra[k].key == QueryName(name) && !HasKey(extra[..k], extra[k].key)
    ensures Lookup(Configured(extra, suffixes, ip), name) == if extra[k].value == [] then None else Some(extra[k].value)
  {
    hide StableSort, Dedupe, SuffixRules, Lookup, QueryName, HasSuffix;
    var rules, q := extra + SuffixRules(suffixes, ip), QueryName(name);
    assert rules[k] == extra[k];
    var i := LookupBest(rules, name, k);
    assert forall j :: 0 <= j < k ==> extra[..k][j].key != extra[k].key && rules[j] == extra[j];
    LongerNeverCovers(q, rules[i].key);
    CoversDetermined(q, rules[i].key, rules[k].key);
  }

  lemma LookupBest(rules: seq<DnsRule>, name: bytes, k: nat) returns (i: nat)
    requires k < |rules| && Covers(QueryName(name), rules[k].key)
    ensures IsBest(rules, Covering(QueryName(name)), i) && Covers(QueryName(name), rules[i].key)
    ensures Lookup(StableSort(Dedupe(rules)), name) == IPOf(rules[i])
  {
    hide StableSort, Dedupe, Lookup, QueryName, Covers;
    LookupSpec(rules, name);
    i :| IsBest(rules, Covering(QueryName(name)), i) && Lookup(StableSort(Dedupe(rules)), name) == IPOf(rules[i]);
  }

  lemma LongerNeverCovers(name: bytes, suffix: bytes)
    requires Covers(name, suffix)
    ensures |suffix| <= |name|
  {
  }

  predicate DotFree(labels: seq<bytes>) {
    forall i :: 0 <= i < |labels| ==> DOT !in labels[i]
  }

  /** The suffix is made of the name's last labels, or of all of them. */
  ghost predicate LastLabels(labels: seq<bytes>, suffix: bytes) {
    suffix == JoinDots(labels) || exists k :: 0 < k < |labels| && suffix == JoinDots(labels[k..])
  }

  /** Matching is on label boundaries for exactly the names whose labels hold no
      dot: then, and only then, the suffixes covering the name are those made of
      its last labels. */
  lemma {:induction false} LabelBoundariesIff(labels: seq<bytes>)
    ensures (forall suffix :: Covers(JoinDots(labels), suffix) <==> LastLabels(labels, suffix)) <==> DotFree(labels)
  {
    hide Covers, LastLabels, DotFree;
    if DotFree(labels) {
      forall suffix ensures Covers(JoinDots(labels), suffix) <==> LastLabels(labels, suffix) {
        CoversLabels(labels, suffix);
      }
    } else {
      var suffix := DottedBreaks(labels);
    }
  }

  lemma {:induction false} CoversLabels(labels: seq<bytes>, suffix: bytes)
    requires DotFree(labels)
    ensures Covers(JoinDots(labels), suffix) <==> LastLabels(labels, suffix)
  {
    var name := JoinDots(labels);
    if |labels| <= 1 {
      NoDotNoSuffix(name, suffix);
    } else {
      var tail := labels[1..];
      CoversLabels(tail, suffix);
      LastOfTail(labels, suffix);
      if Covers(JoinDots(tail), suffix) {
        SuffixExtends(labels[0], JoinDots(tail), suffix);
      }
      if Covers(name, suffix) && name != suffix {
        SuffixOfJoin(labels[0], JoinDots(tail), suffix);
      }
    }
  }

  lemma JoinTail(labels: seq<bytes>)
    requires |labels| > 1
    ensures JoinDots(labels) == labels[0] + ([DOT] + JoinDots(labels[1..]))
  {
  }

  /** The last labels of a name are all of them or the last labels of the rest. */
  lemma LastOfTail(labels: seq<bytes>, suffix: bytes)
    requires |labels| > 1
    ensures LastLabels(labels, suffix) <==> suffix == JoinDots(labels) || LastLabels(labels[1..], suffix)
    ensures JoinDots(labels) == labels[0] + ([DOT] + JoinDots(labels[1..]))
  {
    hide JoinDots;
    JoinTail(labels);
    var tail := labels[1..];
    assert labels[1..] == tail;
    assert forall k :: 0 < k < |tail| ==> tail[k..] == labels[k + 1..];
    if k :| 0 < k < |labels| && suffix == JoinDots(labels[k..]) {
      assert k == 1 || tail[k - 1..] == labels[k..];
    }
  }

  lemma NoDotNoSuffix(name: bytes, suffix: bytes)
    requires DOT !in name
    ensures !HasSuffix(name, [DOT] + suffix)
  {
    var at := |name| - |suffix| - 1;
    assert at >= 0 ==> name[at..][0] == name[at] && name[at] in name;
  }

  /** Behind a dot inside a label starts a suffix that covers the name but is
      not made of its last labels. */
  lemma {:induction false} DottedBreaks(labels: seq<bytes>) returns (suffix: bytes)
    requires !DotFree(labels)
    ensures Covers(JoinDots(labels), suffix) && !LastLabels(labels, suffix)
    decreases |labels|
  {
    hide JoinDots;
    var name := JoinDots(labels);
    JoinOne(labels);
    if |labels| > 1 {
      JoinTail(labels);
    }
    if DOT in labels[0] {
      var o :| 0 <= o < |labels[0]| && labels[0][o] == DOT;
      suffix := name[o + 1..];
      assert name[o..] == [DOT] + suffix;
      forall k | 0 < k < |labels| ensures suffix != JoinDots(labels[k..]) {
        LaterIsShorter(labels, k);
      }
    } else {
      suffix := DottedBreaks(labels[1..]);
      SuffixExtends(labels[0], JoinDots(labels[1..]), suffix);
      LongerNeverCovers(JoinDots(labels[1..]), suffix);
      LastOfTail(labels, suffix);
    }
  }

  lemma JoinOne(labels: seq<bytes>)
    ensures |labels| == 1 ==> JoinDots(labels) == labels[0]
  {
  }

  lemma {:induction false} LaterIsShorter(labels: seq<bytes>, k: nat)
    requires 0 < k < |labels|
    ensures |JoinDots(labels[k..])| < |JoinDots(labels)| - |labels[0]|
  {
    hide JoinDots;
    JoinTail(labels);
    if k > 1 {
      LaterIsShorter(labels[1..], k - 1);
      assert labels[1..][k - 1..] == labels[k..];
    }
  }

  lemma SuffixExtends(first: bytes, rest: bytes, suffix: bytes)
    requires Covers(rest, suffix)
    ensures Covers(first + ([DOT] + rest), suffix)
  {
    var name := first + ([DOT] + rest);
    if rest == suffix {
      assert name[|first|..] == [DOT] + suffix;
    } else {
      var n := |rest| - |suffix| - 1;
      assert name[|name| - |suffix| - 1..] == rest[n..];
    }
  }

  lemma SuffixOfJoin(first: bytes, rest: bytes, suffix: bytes)
    requires DOT !in first && HasSuffix(first + ([DOT] + rest), [DOT] + suffix)
    ensures Covers(rest, suffix)
  {
    var name := first + ([DOT] + rest);
    var at := |name| - |suffix| - 1;
    assert name[at] == DOT && name[at..] == [DOT] + suffix;
    assert forall k :: 0 <= k < |first| ==> name[k] == first[k] && first[k] != DOT;
    if at == |first| {
      assert name[at + 1..] == suffix;
    } else {
      assert name[at..] == rest[at - |first| - 1..];
    }
  }

  // ---- proxy prefixes ----

  function Starting(path: bytes): bytes -> bool {
    prefix => HasPrefix(path, prefix)
  }

  function ProxyFor<V>(rules: seq<Rule<V>>, path: bytes): Option<Rule<V>> {
    FirstMatch(rules, Starting(path))
  }

  method FindProxy<V>(rules: seq<Rule<V>>, path: bytes) returns (r: Option<Rule<V>>)
    ensures r == ProxyFor(rules, path)
  {
    var i := 0;
    while i < |rules|
      invariant 0 <= i <= |rules|
      invariant ProxyFor(rules, path) == ProxyFor(rules[i..], path)
    {
      if HasPrefix(path, rules[i].key) {
        return Some(rules[i]);
      }
      i := i + 1;
    }
    return None;
  }

  /** A request goes to the longest prefix of its path, whatever the order of
      the -proxy flags with distinct prefixes; the earliest flag on ties. */
  lemma {:induction false} ProxySpec<V>(rules: seq<Rule<V>>, path: bytes)
    ensures var found := ProxyFor(StableSort(rules), path);
      && (found.None? <==> forall i :: 0 <= i < |rules| ==> !HasPrefix(path, rules[i].key))
      && (found.Some? ==> exists i :: IsBest(rules, Starting(path), i) && found.value == rules[i])
  {
    SortedFirstMatchIsBest(rules, Starting(path));
    BestSpec(rules, Starting(path));
  }
}
