// Rules that are sorted by the length of their key, longest first, and scanned
// for the first match: the shape shared by the DNS redirects (config.go:117-138,
// dns.go:78-86) and the proxy prefixes (proxy.go:63-75).
module LongestFirst {
  import opened Bytes
  import opened Results

  datatype Rule<V> = Rule(key: bytes, value: V)

  // ---- stable sort ----

  function Insert<V>(s: seq<Rule<V>>, r: Rule<V>): (t: seq<Rule<V>>)
    ensures |t| == |s| + 1
  {
    if s == [] || |s[|s| - 1].key| >= |r.key| then s + [r]
    else Insert(s[..|s| - 1], r) + [s[|s| - 1]]
  }

  function StableSort<V>(rules: seq<Rule<V>>): (t: seq<Rule<V>>)
    ensures |t| == |rules|
  {
    if rules == [] then [] else Insert(StableSort(rules[..|rules| - 1]), rules[|rules| - 1])
  }

  ghost predicate Sorted<V>(s: seq<Rule<V>>) {
    forall i, j :: 0 <= i < j < |s| ==> |s[i].key| >= |s[j].key|
  }

  /** The rules whose key has this length, in order. */
  function OfLength<V>(s: seq<Rule<V>>, n: nat): seq<Rule<V>> {
    if s == [] then []
    else OfLength(s[..|s| - 1], n) + (if |s[|s| - 1].key| == n then [s[|s| - 1]] else [])
  }

  lemma {:induction false} InsertSorted<V>(s: seq<Rule<V>>, r: Rule<V>)
    requires Sorted(s)
    ensures Sorted(Insert(s, r))
    ensures forall x :: x in Insert(s, r) ==> x == r || x in s
  {
    if s != [] && |s[|s| - 1].key| < |r.key| {
      var front, last := s[..|s| - 1], s[|s| - 1];
      InsertSorted(front, r);
      assert forall x :: x in front ==> |x.key| >= |last.key|;
    }
  }

  lemma {:induction false} InsertOfLength<V>(s: seq<Rule<V>>, r: Rule<V>, n: nat)
    ensures OfLength(Insert(s, r), n) == OfLength(s, n) + (if |r.key| == n then [r] else [])
  {
    if s == [] || |s[|s| - 1].key| >= |r.key| {
      assert (s + [r])[..|s|] == s;
    } else {
      var front, t := s[..|s| - 1], Insert(s, r);
      InsertOfLength(front, r, n);
      assert t[..|t| - 1] == Insert(front, r);
    }
  }

  lemma {:induction false} StableSortOfLength<V>(rules: seq<Rule<V>>, n: nat)
    ensures OfLength(StableSort(rules), n) == OfLength(rules, n)
  {
    if rules != [] {
      StableSortOfLength(rules[..|rules| - 1], n);
      InsertOfLength(StableSort(rules[..|rules| - 1]), rules[|rules| - 1], n);
    }
  }

  lemma {:induction false} StableSortSorted<V>(rules: seq<Rule<V>>)
    ensures Sorted(StableSort(rules))
  {
    if rules != [] {
      StableSortSorted(rules[..|rules| - 1]);
      InsertSorted(StableSort(rules[..|rules| - 1]), rules[|rules| - 1]);
    }
  }

  /** Rules of one key length come in the same order in both. */
  ghost predicate SameOrder<V>(a: seq<Rule<V>>, b: seq<Rule<V>>) {
    forall n: nat :: OfLength(a, n) == OfLength(b, n)
  }

  /** The sort is exactly the one sequence that is sorted and keeps the order
      among keys of one length, so any stable sorting algorithm computes it. */
  lemma StableSortIff<V>(rules: seq<Rule<V>>, t: seq<Rule<V>>)
    ensures t == StableSort(rules) <==> Sorted(t) && SameOrder(t, rules)
  {
    StableSortSorted(rules);
    forall n: nat ensures OfLength(StableSort(rules), n) == OfLength(rules, n) {
      StableSortOfLength(rules, n);
    }
    if Sorted(t) && SameOrder(t, rules) {
      assert SameOrder(t, StableSort(rules));
      SortedSame(t, StableSort(rules));
    }
  }

  lemma {:induction false} SortedSame<V>(a: seq<Rule<V>>, b: seq<Rule<V>>)
    requires Sorted(a) && Sorted(b) && SameOrder(a, b)
    ensures a == b
    decreases |a|
  {
    LastCounted(a);
    LastCounted(b);
    if a != [] && b != [] {
      var x, y := a[|a| - 1], b[|b| - 1];
      assert OfLength(a, |x.key|) == OfLength(b, |x.key|) && OfLength(a, |y.key|) == OfLength(b, |y.key|);
      ShortestLast(a, |y.key|);
      ShortestLast(b, |x.key|);
      var more, fa, fb := [x], a[..|a| - 1], b[..|b| - 1];
      forall n: nat ensures OfLength(fa, n) == OfLength(fb, n) {
        assert OfLength(a, n) == OfLength(b, n);
        SameFront(OfLength(fa, n), OfLength(fb, n), if n == |x.key| then more else []);
      }
      SortedSame(fa, fb);
    }
  }

  lemma LastCounted<V>(s: seq<Rule<V>>)
    ensures s != [] ==>
      var same := OfLength(s, |s[|s| - 1].key|);
      same != [] && same[|same| - 1] == s[|s| - 1]
  {
  }

  lemma SameFront<T>(a: seq<T>, b: seq<T>, more: seq<T>)
    requires a + more == b + more
    ensures a == b
  {
    assert a == (a + more)[..|a|];
    assert b == (b + more)[..|a|];
  }

  /** In a sorted sequence no key is shorter than the last. */
  lemma {:induction false} ShortestLast<V>(s: seq<Rule<V>>, n: nat)
    requires Sorted(s) && s != [] && OfLength(s, n) != []
    ensures n >= |s[|s| - 1].key|
  {
    var last := s[|s| - 1];
    if |last.key| != n {
      assert OfLength(s[..|s| - 1], n) != [];
      ShortestLast(s[..|s| - 1], n);
    }
  }

  /** sort.SliceStable with "longer key first", as the library's insertion sort. */
  method SortLongestFirst<V>(a: array<Rule<V>>)
    modifies a
    ensures a[..] == StableSort(old(a[..]))
  {
    hide StableSort, Insert;
    ghost var before := a[..];
    NothingSorted<V>();
    assert before == [] + before[0..];
    var i := 0;
    while i < a.Length
      invariant 0 <= i <= a.Length
      invariant a[..] == StableSort(before[..i]) + before[i..]
    {
      SortOneMore(before, i);
      InsertAt(a, StableSort(before[..i]), i, before);
      i := i + 1;
    }
    assert before[..i] == before;
  }

  lemma NothingSorted<V>()
    ensures StableSort<V>([]) == []
  {
  }

  lemma SortOneMore<V>(rules: seq<Rule<V>>, i: nat)
    requires i < |rules|
    ensures StableSort(rules[..i + 1]) == Insert(StableSort(rules[..i]), rules[i])
  {
    assert rules[..i + 1][..i] == rules[..i];
  }

  /** The inner loop: sinks a[i] to its place among the sorted rules before it. */
  method InsertAt<V>(a: array<Rule<V>>, ghost s: seq<Rule<V>>, i: nat, ghost before: seq<Rule<V>>)
    requires i < a.Length == |before| && |s| == i
    requires a[..] == s + before[i..]
    modifies a
    ensures a[..] == Insert(s, before[i]) + before[i + 1..]
  {
    hide Insert, Sunk;
    ghost var r, rest := before[i], before[i + 1..];
    var j := i;
    assert s[..i] == s && s[i..] == [] && before[i..] == [r] + rest;
    SunkAll(s, r, i, rest);
    while j > 0 && |a[j].key| > |a[j - 1].key|
      invariant 0 <= j <= i
      invariant a[..] == Sunk(s, r, j, rest)
      invariant Insert(s, r) == Insert(s[..j], r) + s[j..]
    {
      SinkStep(s, r, j, rest);
      SunkAt(s, r, j, rest);
      ghost var was := a[..];
      a[j], a[j - 1] := a[j - 1], a[j];
      assert a[..] == was[j := was[j - 1]][j - 1 := was[j]];
      j := j - 1;
    }
    SunkAt(s, r, j, rest);
    assert a[j] == a[..][j] && (j > 0 ==> a[j - 1] == a[..][j - 1]);
    InsertHere(s[..j], r);
  }

  function Sunk<V>(s: seq<Rule<V>>, r: Rule<V>, j: nat, rest: seq<Rule<V>>): seq<Rule<V>>
    requires j <= |s|
  {
    s[..j] + [r] + s[j..] + rest
  }

  lemma SunkAll<V>(s: seq<Rule<V>>, r: Rule<V>, i: nat, rest: seq<Rule<V>>)
    requires i == |s|
    ensures Sunk(s, r, i, rest) == s + ([r] + rest)
  {
    assert s[..i] == s && s[i..] == [];
  }

  lemma SunkAt<V>(s: seq<Rule<V>>, r: Rule<V>, j: nat, rest: seq<Rule<V>>)
    requires j <= |s|
    ensures var t := Sunk(s, r, j, rest);
      && |t| == |s| + 1 + |rest| && t[j] == r && (j > 0 ==> t[j - 1] == s[j - 1])
      && t == (s[..j] + [r]) + s[j..] + rest
  {
  }

  /** Where insertion sort has moved r so far, and one swap further. */
  lemma SinkStep<V>(s: seq<Rule<V>>, r: Rule<V>, j: nat, rest: seq<Rule<V>>)
    requires 0 < j <= |s|
    ensures var was := Sunk(s, r, j, rest);
      was[j - 1] == s[j - 1] && was[j] == r && was[j := was[j - 1]][j - 1 := was[j]] == Sunk(s, r, j - 1, rest)
    ensures |r.key| > |s[j - 1].key| ==> Insert(s[..j], r) + s[j..] == Insert(s[..j - 1], r) + s[j - 1..]
  {
    assert s[..j][..j - 1] == s[..j - 1];
    assert [s[j - 1]] + s[j..] == s[j - 1..];
  }

  lemma InsertHere<V>(s: seq<Rule<V>>, r: Rule<V>)
    requires s == [] || |s[|s| - 1].key| >= |r.key|
    ensures Insert(s, r) == s + [r]
  {
  }

  // ---- first match ----

  function FirstMatch<V>(rules: seq<Rule<V>>, matches: bytes -> bool): (r: Option<Rule<V>>)
    ensures r.Some? ==> matches(r.value.key) && r.value in rules
    ensures r.None? <==> forall x :: x in rules ==> !matches(x.key)
  {
    if rules == [] then None
    else if matches(rules[0].key) then Some(rules[0])
    else FirstMatch(rules[1..], matches)
  }

  /** Scanning the rules in their given order for the longest match, a later
      rule winning only with a longer key. */
  function Best<V>(rules: seq<Rule<V>>, matches: bytes -> bool): Option<Rule<V>> {
    if rules == [] then None else Better(Best(rules[..|rules| - 1], matches), rules[|rules| - 1], matches)
  }

  function Better<V>(best: Option<Rule<V>>, r: Rule<V>, matches: bytes -> bool): Option<Rule<V>> {
    if matches(r.key) && (best.None? || |best.value.key| < |r.key|) then Some(r) else best
  }

  /** rules[i] is the longest match, and the earliest of those. */
  ghost predicate IsBest<V>(rules: seq<Rule<V>>, matches: bytes -> bool, i: int) {
    && 0 <= i < |rules| && matches(rules[i].key)
    && forall j :: 0 <= j < |rules| && matches(rules[j].key) ==>
         |rules[j].key| < |rules[i].key| || (|rules[j].key| == |rules[i].key| && i <= j)
  }

  lemma {:induction false} BestSpec<V>(rules: seq<Rule<V>>, matches: bytes -> bool)
    ensures Best(rules, matches).None? <==> forall i :: 0 <= i < |rules| ==> !matches(rules[i].key)
    ensures Best(rules, matches).Some? ==>
      exists i :: IsBest(rules, matches, i) && Best(rules, matches) == Some(rules[i])
  {
    if rules != [] {
      var front, n := rules[..|rules| - 1], |rules| - 1;
      BestSpec(front, matches);
      assert rules == front + [rules[n]];
      assert forall i :: 0 <= i < n ==> front[i] == rules[i];
      if Best(front, matches).Some? {
        var k :| IsBest(front, matches, k) && Best(front, matches) == Some(front[k]);
        if matches(rules[n].key) && |rules[k].key| < |rules[n].key| {
          assert IsBest(rules, matches, n);
        } else {
          assert IsBest(rules, matches, k);
        }
      } else if matches(rules[n].key) {
        assert IsBest(rules, matches, n);
      }
    }
  }

  lemma {:induction false} FirstMatchAppend<V>(a: seq<Rule<V>>, b: seq<Rule<V>>, matches: bytes -> bool)
    ensures FirstMatch(a + b, matches) ==
      if FirstMatch(a, matches).Some? then FirstMatch(a, matches) else FirstMatch(b, matches)
  {
    if a == [] {
      assert a + b == b;
    } else {
      assert (a + b)[1..] == a[1..] + b;
      FirstMatchAppend(a[1..], b, matches);
    }
  }

  lemma {:induction false} InsertMatch<V>(s: seq<Rule<V>>, r: Rule<V>, matches: bytes -> bool)
    requires Sorted(s)
    ensures FirstMatch(Insert(s, r), matches) == Better(FirstMatch(s, matches), r, matches)
  {
    if s == [] || |s[|s| - 1].key| >= |r.key| {
      InsertLast(s, r, matches);
    } else {
      hide FirstMatch, Sorted;
      var front, last := s[..|s| - 1], s[|s| - 1];
      SortedFront(s);
      InsertMatch(front, r, matches);
      FirstMatchAppend(Insert(front, r), [last], matches);
      FirstMatchAppend(front, [last], matches);
      FirstMatchOne(last, matches);
      assert s == front + [last];
    }
  }

  lemma SortedFront<V>(s: seq<Rule<V>>)
    requires Sorted(s) && s != []
    ensures Sorted(s[..|s| - 1])
  {
  }

  lemma FirstMatchOne<V>(r: Rule<V>, matches: bytes -> bool)
    ensures FirstMatch([r], matches) == if matches(r.key) then Some(r) else None
  {
  }

  lemma InsertLast<V>(s: seq<Rule<V>>, r: Rule<V>, matches: bytes -> bool)
    requires Sorted(s) && (s == [] || |s[|s| - 1].key| >= |r.key|)
    ensures FirstMatch(s + [r], matches) == Better(FirstMatch(s, matches), r, matches)
  {
    hide FirstMatch, Sorted;
    FirstMatchAppend(s, [r], matches);
    FirstMatchOne(r, matches);
    AtLeastLast(s);
  }

  lemma AtLeastLast<V>(s: seq<Rule<V>>)
    requires Sorted(s)
    ensures s != [] ==> forall x :: x in s ==> |x.key| >= |s[|s| - 1].key|
  {
  }

  /** First match after the stable sort is the longest match, earliest on ties. */
  lemma {:induction false} SortedFirstMatchIsBest<V>(rules: seq<Rule<V>>, matches: bytes -> bool)
    ensures FirstMatch(StableSort(rules), matches) == Best(rules, matches)
  {
    if rules != [] {
      var front := rules[..|rules| - 1];
      SortedFirstMatchIsBest(front, matches);
      StableSortSorted(front);
      InsertMatch(StableSort(front), rules[|rules| - 1], matches);
    }
  }

  // ---- dedupe ----

  predicate HasKey<V>(rules: seq<Rule<V>>, key: bytes) {
    exists i :: 0 <= i < |rules| && rules[i].key == key
  }

  /** Only the first rule for each key. */
  function Dedupe<V>(rules: seq<Rule<V>>): seq<Rule<V>> {
    if rules == [] then []
    else
      var front, last := rules[..|rules| - 1], rules[|rules| - 1];
      if HasKey(front, last.key) then Dedupe(front) else Dedupe(front) + [last]
  }

  method DedupeRules<V>(rules: seq<Rule<V>>) returns (out: seq<Rule<V>>)
    ensures out == Dedupe(rules)
  {
    var seen: map<bytes, bool> := map[];
    out := [];
    var k := 0;
    while k < |rules|
      invariant 0 <= k <= |rules|
      invariant out == Dedupe(rules[..k])
      invariant forall key :: key in seen <==> HasKey(rules[..k], key)
    {
      var r := rules[k];
      assert rules[..k + 1][..k] == rules[..k];
      forall key ensures HasKey(rules[..k + 1], key) <==> HasKey(rules[..k], key) || key == r.key {
        KeyAppend(rules[..k], r, key);
        assert rules[..k + 1] == rules[..k] + [r];
      }
      if r.key !in seen {
        seen := seen[r.key := true];
        out := out + [r];
      }
      k := k + 1;
    }
    assert rules[..k] == rules;
  }

  lemma KeyAppend<V>(rules: seq<Rule<V>>, r: Rule<V>, key: bytes)
    ensures HasKey(rules + [r], key) <==> HasKey(rules, key) || key == r.key
  {
    var all := rules + [r];
    if HasKey(rules, key) {
      var i :| 0 <= i < |rules| && rules[i].key == key;
      assert all[i].key == key;
    }
    assert all[|rules|] == r;
  }

  ghost predicate DistinctKeys<V>(rules: seq<Rule<V>>) {
    forall i, j :: 0 <= i < j < |rules| ==> rules[i].key != rules[j].key
  }

  lemma {:induction false} DedupeKeys<V>(rules: seq<Rule<V>>, key: bytes)
    ensures HasKey(Dedupe(rules), key) <==> HasKey(rules, key)
  {
    if rules != [] {
      hide HasKey;
      var front, last := rules[..|rules| - 1], rules[|rules| - 1];
      DedupeKeys(front, key);
      assert rules == front + [last];
      KeyAppend(front, last, key);
      KeyAppend(Dedupe(front), last, key);
    }
  }

  /** Every key survives, once, and with the rule that came first. */
  lemma {:induction false} DedupeSpec<V>(rules: seq<Rule<V>>)
    ensures DistinctKeys(Dedupe(rules))
    ensures forall r :: r in Dedupe(rules) ==>
      exists i :: 0 <= i < |rules| && rules[i] == r && !HasKey(rules[..i], r.key)
    ensures forall key :: HasKey(Dedupe(rules), key) <==> HasKey(rules, key)
  {
    forall key ensures HasKey(Dedupe(rules), key) <==> HasKey(rules, key) {
      DedupeKeys(rules, key);
    }
    if rules != [] {
      var front, last := rules[..|rules| - 1], rules[|rules| - 1];
      DedupeSpec(front);
      assert rules[..|front|] == front && rules[|front|] == last;
      forall r | r in Dedupe(rules)
        ensures exists i :: 0 <= i < |rules| && rules[i] == r && !HasKey(rules[..i], r.key)
      {
        if r in Dedupe(front) {
          var i :| 0 <= i < |front| && front[i] == r && !HasKey(front[..i], r.key);
          assert rules[i] == r && rules[..i] == front[..i];
        }
      }
      DistinctMore(Dedupe(front), last);
    }
  }

  lemma DistinctMore<V>(s: seq<Rule<V>>, r: Rule<V>)
    requires DistinctKeys(s)
    ensures !HasKey(s, r.key) ==> DistinctKeys(s + [r])
  {
  }

  /** Dropping later duplicates never changes a lookup. */
  lemma {:induction false} DedupeKeepsBest<V>(rules: seq<Rule<V>>, matches: bytes -> bool)
    ensures Best(Dedupe(rules), matches) == Best(rules, matches)
  {
    if rules != [] {
      var front, last := rules[..|rules| - 1], rules[|rules| - 1];
      DedupeKeepsBest(front, matches);
      if HasKey(front, last.key) {
        BestSpec(front, matches);
      } else {
        var d := Dedupe(front) + [last];
        assert d[..|d| - 1] == Dedupe(front);
      }
    }
  }

  // ---- order does not matter ----

  /** When equally long matches are the same key, rules with distinct keys may
      be listed in any order. */
  lemma OrderIrrelevant<V>(a: seq<Rule<V>>, b: seq<Rule<V>>, matches: bytes -> bool)
    requires forall k1, k2 :: matches(k1) && matches(k2) && |k1| == |k2| ==> k1 == k2
    requires forall r :: r in a <==> r in b
    requires DistinctKeys(a)
    ensures Best(a, matches) == Best(b, matches)
  {
    BestSpec(a, matches);
    BestSpec(b, matches);
    if Best(a, matches).Some? {
      var i :| IsBest(a, matches, i) && Best(a, matches) == Some(a[i]);
      assert a[i] in b;
    }
    if Best(b, matches).Some? {
      var j :| IsBest(b, matches, j) && Best(b, matches) == Some(b[j]);
      assert b[j] in a;
      if Best(a, matches).Some? {
        var i :| IsBest(a, matches, i) && Best(a, matches) == Some(a[i]);
        var i' :| 0 <= i' < |a| && a[i'] == b[j];
        var j' :| 0 <= j' < |b| && b[j'] == a[i];
        assert a[i].key == a[i'].key;
      }
    }
  }
}
