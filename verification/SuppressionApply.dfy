/** How Apply computes its result: candidate indexes per group, then one entry after the other. */
module SuppressionApply {
  import opened Basics
  import opened Ordering
  import opened SortedLists
  import opened SuppressionEntries
  import opened Suppressions

  predicate Within(indexes: seq<nat>, items: seq<Diagnostic>) {
    forall j :: 0 <= j < |indexes| ==> indexes[j] < |items|
  }

  /** The indexes below n of the diagnostics that satisfy a predicate. */
  function IndexesOf(items: seq<Diagnostic>, n: nat, wanted: Diagnostic -> bool): seq<nat>
    requires n <= |items|
  {
    if n == 0 then []
    else
      var rest := IndexesOf(items, n - 1, wanted);
      if wanted(items[n - 1]) then rest + [n - 1] else rest
  }

  /** The indexes below n of the candidates of a file and rule. */
  function Candidates(items: seq<Diagnostic>, n: nat, path: string, rule: string): seq<nat>
    requires n <= |items|
  {
    IndexesOf(items, n, item => InGroup(item, path, rule))
  }

  /** The indexes with one key. */
  function OfKey(items: seq<Diagnostic>, indexes: seq<nat>, key: string): seq<nat>
    requires Within(indexes, items)
  {
    if indexes == [] then []
    else
      var last := |indexes| - 1;
      var rest := OfKey(items, indexes[..last], key);
      if KeyOf(items[indexes[last]]) == key then rest + [indexes[last]] else rest
  }

  lemma OfKeyAppended(items: seq<Diagnostic>, indexes: seq<nat>, i: nat, key: string)
    requires Within(indexes, items) && i < |items|
    ensures OfKey(items, indexes + [i], key) ==
            OfKey(items, indexes, key) + if KeyOf(items[i]) == key then [i] else []
  {
    assert (indexes + [i])[..|indexes|] == indexes;
  }

  lemma {:induction false} IndexesAreCounted(items: seq<Diagnostic>, n: nat, wanted: Diagnostic -> bool)
    requires n <= |items|
    ensures |IndexesOf(items, n, wanted)| == |KeysAmong(items, n, wanted)|
  {
    if n > 0 {
      IndexesAreCounted(items, n - 1, wanted);
    }
  }

  lemma {:induction false} IndexesHave(items: seq<Diagnostic>, n: nat, wanted: Diagnostic -> bool, i: nat)
    requires n <= |items|
    ensures i in IndexesOf(items, n, wanted) <==> i < n && wanted(items[i])
  {
    if n > 0 {
      IndexesHave(items, n - 1, wanted, i);
    }
  }

  lemma IndexesAreWanted(items: seq<Diagnostic>, n: nat, wanted: Diagnostic -> bool)
    requires n <= |items|
    ensures Within(IndexesOf(items, n, wanted), items)
    ensures forall i :: i in IndexesOf(items, n, wanted) <==> 0 <= i < n && wanted(items[i])
    ensures |IndexesOf(items, n, wanted)| == |KeysAmong(items, n, wanted)|
  {
    var indexes := IndexesOf(items, n, wanted);
    IndexesAreCounted(items, n, wanted);
    forall i: nat ensures i in indexes <==> i < n && wanted(items[i]) {
      IndexesHave(items, n, wanted, i);
    }
    forall j | 0 <= j < |indexes| ensures indexes[j] < |items| {
      assert indexes[j] in indexes;
    }
  }

  lemma {:induction false} IndexesOfKey(items: seq<Diagnostic>, n: nat, wanted: Diagnostic -> bool, key: string)
    requires n <= |items|
    ensures Within(IndexesOf(items, n, wanted), items)
    ensures |OfKey(items, IndexesOf(items, n, wanted), key)| == KeysAmong(items, n, wanted)[key]
  {
    if n > 0 {
      var rest := IndexesOf(items, n - 1, wanted);
      IndexesOfKey(items, n - 1, wanted, key);
      if wanted(items[n - 1]) {
        OfKeyAppended(items, rest, n - 1, key);
        CountOneMore(KeysAmong(items, n - 1, wanted), KeyOf(items[n - 1]), key);
      }
    }
  }

  lemma CountOneMore(keys: multiset<string>, last: string, key: string)
    ensures (keys + multiset{last})[key] == keys[key] + if last == key then 1 else 0
  {
  }

  /** The candidate indexes are those of the group, and as many as were found. */
  lemma CandidatesAreTheGroup(items: seq<Diagnostic>, path: string, rule: string)
    ensures var indexes := Candidates(items, |items|, path, rule);
            && Within(indexes, items)
            && (forall i :: i in indexes <==> 0 <= i < |items| && InGroup(items[i], path, rule))
            && |indexes| == |Found(items, path, rule)|
  {
    IndexesAreWanted(items, |items|, item => InGroup(item, path, rule));
  }

  /** Of a group, as many candidates have a key as were found with it. */
  lemma CandidatesOfKey(items: seq<Diagnostic>, path: string, rule: string, key: string)
    ensures Within(Candidates(items, |items|, path, rule), items)
    ensures |OfKey(items, Candidates(items, |items|, path, rule), key)| == Found(items, path, rule)[key]
  {
    IndexesOfKey(items, |items|, item => InGroup(item, path, rule), key);
  }

  lemma {:induction false} OfKeyHas(items: seq<Diagnostic>, indexes: seq<nat>, key: string)
    requires Within(indexes, items)
    ensures forall i :: i in OfKey(items, indexes, key) <==> i in indexes && i < |items| && KeyOf(items[i]) == key
    ensures Within(OfKey(items, indexes, key), items)
  {
    if indexes != [] {
      var last := |indexes| - 1;
      OfKeyHas(items, indexes[..last], key);
      assert indexes == indexes[..last] + [indexes[last]];
    }
  }

  function GroupOf(groups: map<(string, string), seq<nat>>, path: string, rule: string): seq<nat> {
    if (path, rule) in groups then groups[(path, rule)] else []
  }

  ghost predicate AreGroups(groups: map<(string, string), seq<nat>>, items: seq<Diagnostic>, n: nat)
    requires n <= |items|
  {
    && (forall p, r :: GroupOf(groups, p, r) == Candidates(items, n, p, r))
    && forall key :: key in groups ==> groups[key] != []
  }

  lemma CandidatesGrow(items: seq<Diagnostic>, n: nat)
    requires n < |items|
    ensures forall p, r :: Candidates(items, n + 1, p, r) ==
                           Candidates(items, n, p, r) + if InGroup(items[n], p, r) then [n] else []
  {
  }

  method GroupCandidates(items: seq<Diagnostic>) returns (groups: map<(string, string), seq<nat>>)
    ensures AreGroups(groups, items, |items|)
  {
    groups := map[];
    for n := 0 to |items|
      invariant AreGroups(groups, items, n)
    {
      CandidatesGrow(items, n);
      if IsCandidate(items[n]) {
        var path, rule := NormalizePath(items[n].file.value), items[n].rule;
        groups := groups[(path, rule) := GroupOf(groups, path, rule) + [n]];
      }
    }
  }

  function KeyGroupOf(byKey: map<string, seq<nat>>, key: string): seq<nat> {
    if key in byKey then byKey[key] else []
  }

  /** The indexes of a group again by semantic key. */
  method GroupByKey(items: seq<Diagnostic>, indexes: seq<nat>) returns (byKey: map<string, seq<nat>>)
    requires Within(indexes, items)
    ensures forall key :: KeyGroupOf(byKey, key) == OfKey(items, indexes, key)
    ensures forall key :: key in byKey ==> byKey[key] != []
  {
    byKey := map[];
    for n := 0 to |indexes|
      invariant forall key :: KeyGroupOf(byKey, key) == OfKey(items, indexes[..n], key)
      invariant forall key :: key in byKey ==> byKey[key] != []
    {
      assert indexes[..n + 1][..n] == indexes[..n];
      var key := KeyOf(items[indexes[n]]);
      byKey := byKey[key := KeyGroupOf(byKey, key) + [indexes[n]]];
    }
    assert indexes[..|indexes|] == indexes;
  }

  method Mark(suppressed: array<bool>, indexes: seq<nat>)
    requires forall j :: 0 <= j < |indexes| ==> indexes[j] < suppressed.Length
    modifies suppressed
    ensures forall i :: 0 <= i < suppressed.Length ==> suppressed[i] == (old(suppressed[i]) || i in indexes)
  {
    for n := 0 to |indexes|
      invariant forall i :: 0 <= i < suppressed.Length ==> suppressed[i] == (old(suppressed[i]) || i in indexes[..n])
    {
      suppressed[indexes[n]] := true;
    }
  }

  /** Findings of different entries, or of different entities of one entry. */
  predicate Distinct(s: seq<Finding>) {
    forall i, j :: 0 <= i < j < |s| ==> !SameKey(s[i], s[j])
  }

  /** The findings and the marks that one entry is to add. */
  ghost predicate AreFindings(s: seq<Finding>, path: string, rule: string, wanted: Finding -> bool) {
    && Distinct(s)
    && forall u :: u in s <==> u.file == path && u.rule == rule && wanted(u)
  }

  /** An entry without entities. */
  method ApplyCount(path: string, rule: string, entry: Entry, found: nat, covered: bool)
    returns (suppresses: bool, unused: seq<Finding>, exceeded: seq<Finding>)
    requires entry.entities == map[]
    ensures suppresses <==> found <= entry.count
    ensures forall t: multiset<string> :: |t| == found ==>
              && AreFindings(unused, path, rule, u => covered && UnusedOf(entry, t, u))
              && AreFindings(exceeded, path, rule, e => ExceededOf(entry, t, e))
  {
    suppresses, unused, exceeded := found <= entry.count, [], [];
    if suppresses {
      if found < entry.count && covered {
        unused := [Finding(path, rule, "", entry.count, found)];
      }
    } else {
      exceeded := [Finding(path, rule, "", entry.count, found)];
    }
  }

  /** Whether index i has a suppressed key that is not left to do. */
  predicate IsMarked(byKey: map<string, seq<nat>>, entry: Entry, found: multiset<string>, left: set<string>, i: nat) {
    exists key :: key in byKey && key !in left && i in byKey[key] && Suppresses(entry, found, key)
  }

  /** The keys of the candidates of an entry with entities. */
  method ApplyKeys(path: string, rule: string, entry: Entry, items: seq<Diagnostic>, byKey: map<string, seq<nat>>,
                   ghost found: multiset<string>, suppressed: array<bool>)
    returns (exceeded: seq<Finding>)
    requires entry.entities != map[] && suppressed.Length == |items|
    requires forall key :: key in byKey <==> key in found
    requires forall key :: key in byKey ==> |byKey[key]| == found[key] && Within(byKey[key], items)
    modifies suppressed
    ensures forall i :: 0 <= i < suppressed.Length ==>
              suppressed[i] == (old(suppressed[i]) || IsMarked(byKey, entry, found, {}, i))
    ensures AreFindings(exceeded, path, rule, e => ExceededOf(entry, found, e))
  {
    exceeded := [];
    var left := byKey.Keys;
    while left != {}
      invariant left <= byKey.Keys
      invariant forall i :: 0 <= i < suppressed.Length ==>
                  suppressed[i] == (old(suppressed[i]) || IsMarked(byKey, entry, found, left, i))
      invariant AreFindings(exceeded, path, rule, e => ExceededOf(entry, found, e) && e.entity !in left)
      decreases |left|
    {
      var key :| key in left;
      left := left - {key};
      var allowed := if key != "" then Allowed(entry, key) else 0;
      if 0 < allowed && |byKey[key]| <= allowed {
        Mark(suppressed, byKey[key]);
      } else {
        exceeded := exceeded + [Finding(path, rule, key, allowed, |byKey[key]|)];
      }
    }
  }

  /** The entities of an entry. */
  method UnusedEntities(path: string, rule: string, entry: Entry, byKey: map<string, seq<nat>>,
                        ghost found: multiset<string>)
    returns (unused: seq<Finding>)
    requires entry.entities != map[]
    requires forall key :: |KeyGroupOf(byKey, key)| == found[key]
    ensures AreFindings(unused, path, rule, u => UnusedOf(entry, found, u))
  {
    unused := [];
    var left := entry.entities.Keys;
    while left != {}
      invariant left <= entry.entities.Keys
      invariant AreFindings(unused, path, rule, u => UnusedOf(entry, found, u) && u.entity !in left)
      decreases |left|
    {
      var key :| key in left;
      left := left - {key};
      if |KeyGroupOf(byKey, key)| < entry.entities[key] {
        unused := unused + [Finding(path, rule, key, entry.entities[key], |KeyGroupOf(byKey, key)|)];
      }
    }
  }

  /** The marks and findings of one entry of the file. */
  method ApplyEntry(ghost file: File, items: seq<Diagnostic>, path: string, rule: string, entry: Entry,
                    indexes: seq<nat>, covered: bool, suppressed: array<bool>)
    returns (unused: seq<Finding>, exceeded: seq<Finding>)
    requires Lookup(file, path, rule) == Some(entry)
    requires indexes == Candidates(items, |items|, path, rule) && suppressed.Length == |items|
    modifies suppressed
    ensures forall i :: 0 <= i < |items| ==>
              suppressed[i] == (old(suppressed[i]) ||
                                (InGroup(items[i], path, rule) && IsSuppressed(file, items, items[i])))
    ensures AreFindings(unused, path, rule, u => covered && UnusedOf(entry, Found(items, path, rule), u))
    ensures AreFindings(exceeded, path, rule, e => ExceededOf(entry, Found(items, path, rule), e))
  {
    ghost var found := Found(items, path, rule);
    CandidatesAreTheGroup(items, path, rule);
    if entry.entities == map[] {
      var suppresses;
      suppresses, unused, exceeded := ApplyCount(path, rule, entry, |indexes|, covered);
      if suppresses {
        Mark(suppressed, indexes);
      }
      return;
    }
    var byKey := GroupByKey(items, indexes);
    forall key ensures |KeyGroupOf(byKey, key)| == found[key] && Within(KeyGroupOf(byKey, key), items) {
      CandidatesOfKey(items, path, rule, key);
      OfKeyHas(items, indexes, key);
    }
    exceeded := ApplyKeys(path, rule, entry, items, byKey, found, suppressed);
    forall i | 0 <= i < |items|
      ensures IsMarked(byKey, entry, found, {}, i) <==> i in indexes && Suppresses(entry, found, KeyOf(items[i]))
    {
      MarkedAreSuppressed(items, indexes, byKey, entry, found, i);
    }
    unused := [];
    if covered {
      unused := UnusedEntities(path, rule, entry, byKey, found);
    }
  }

  lemma MarkedAreSuppressed(items: seq<Diagnostic>, indexes: seq<nat>, byKey: map<string, seq<nat>>,
                            entry: Entry, found: multiset<string>, i: nat)
    requires Within(indexes, items) && i < |items|
    requires forall key :: KeyGroupOf(byKey, key) == OfKey(items, indexes, key)
    ensures IsMarked(byKey, entry, found, {}, i) <==> i in indexes && Suppresses(entry, found, KeyOf(items[i]))
  {
    forall key ensures i in KeyGroupOf(byKey, key) <==> i in indexes && KeyOf(items[i]) == key {
      OfKeyHas(items, indexes, key);
    }
    if IsMarked(byKey, entry, found, {}, i) {
      var key :| key in byKey && i in byKey[key] && Suppresses(entry, found, key);
      assert i in KeyGroupOf(byKey, key);
    }
    var own := KeyOf(items[i]);
    assert i in KeyGroupOf(byKey, own) <==> i in indexes;
  }

  ghost predicate AreUnused(
    s: seq<Finding>, file: File, items: seq<Diagnostic>, scope: Scope, wanted: (string, string) -> bool)
  {
    Distinct(s) && forall u :: u in s <==> IsUnused(file, items, scope, u) && wanted(u.file, u.rule)
  }

  ghost predicate AreExceeded(s: seq<Finding>, file: File, items: seq<Diagnostic>, wanted: (string, string) -> bool) {
    Distinct(s) && forall e :: e in s <==> IsExceeded(file, items, e) && wanted(e.file, e.rule)
  }

  ghost predicate AreMarked(
    before: seq<bool>, after: seq<bool>, file: File, items: seq<Diagnostic>, wanted: (string, string) -> bool)
  {
    && |before| == |after| == |items|
    && forall i :: 0 <= i < |items| ==>
         after[i] == (before[i] ||
                      (IsSuppressed(file, items, items[i]) &&
                       wanted(NormalizePath(items[i].file.value), items[i].rule)))
  }

  function OneRule(path: string, rule: string): (string, string) -> bool {
    (f, r) => f == path && r == rule
  }

  /** The rules of a path that are not left to do. */
  function RulesBut(path: string, left: set<string>): (string, string) -> bool {
    (f, r) => f == path && r !in left
  }

  /** The rules of the paths that are not left to do. */
  function PathsBut(left: set<string>): (string, string) -> bool {
    (f, r) => f !in left
  }

  /** The entries of c are those of a and those of b, which differ. */
  ghost predicate AreParts(a: (string, string) -> bool, b: (string, string) -> bool, c: (string, string) -> bool) {
    forall f, r :: c(f, r) == (a(f, r) || b(f, r)) && !(a(f, r) && b(f, r))
  }

  lemma MarksJoin(before: seq<bool>, mid: seq<bool>, after: seq<bool>, file: File, items: seq<Diagnostic>,
                  a: (string, string) -> bool, b: (string, string) -> bool, c: (string, string) -> bool)
    requires AreParts(a, b, c) && AreMarked(before, mid, file, items, a) && AreMarked(mid, after, file, items, b)
    ensures AreMarked(before, after, file, items, c)
  {
    forall i | 0 <= i < |items| && IsSuppressed(file, items, items[i])
      ensures var path, rule := NormalizePath(items[i].file.value), items[i].rule;
              c(path, rule) == (a(path, rule) || b(path, rule))
    {
    }
  }

  lemma UnusedJoin(s: seq<Finding>, t: seq<Finding>, file: File, items: seq<Diagnostic>, scope: Scope,
                   a: (string, string) -> bool, b: (string, string) -> bool, c: (string, string) -> bool)
    requires AreParts(a, b, c) && AreUnused(s, file, items, scope, a) && AreUnused(t, file, items, scope, b)
    ensures AreUnused(s + t, file, items, scope, c)
  {
    FindingsJoin(s, t, u => IsUnused(file, items, scope, u), a, b, c);
  }

  lemma ExceededJoin(s: seq<Finding>, t: seq<Finding>, file: File, items: seq<Diagnostic>,
                     a: (string, string) -> bool, b: (string, string) -> bool, c: (string, string) -> bool)
    requires AreParts(a, b, c) && AreExceeded(s, file, items, a) && AreExceeded(t, file, items, b)
    ensures AreExceeded(s + t, file, items, c)
  {
    FindingsJoin(s, t, e => IsExceeded(file, items, e), a, b, c);
  }

  lemma FindingsJoin(s: seq<Finding>, t: seq<Finding>, found: Finding -> bool,
                     a: (string, string) -> bool, b: (string, string) -> bool, c: (string, string) -> bool)
    requires AreParts(a, b, c) && Distinct(s) && Distinct(t)
    requires forall u :: u in s <==> found(u) && a(u.file, u.rule)
    requires forall u :: u in t <==> found(u) && b(u.file, u.rule)
    ensures Distinct(s + t) && forall u :: u in s + t <==> found(u) && c(u.file, u.rule)
  {
    forall i, j | 0 <= i < |s| && 0 <= j < |t| ensures !SameKey(s[i], t[j]) {
      assert s[i] in s && t[j] in t;
      assert a(s[i].file, s[i].rule) && b(t[j].file, t[j].rule);
      assert !b(s[i].file, s[i].rule);
    }
    assert forall u: Finding :: c(u.file, u.rule) == (a(u.file, u.rule) || b(u.file, u.rule));
  }

  /** What the entries of some paths and rules mark and find. */
  ghost predicate AreApplied(before: seq<bool>, after: seq<bool>, unused: seq<Finding>, exceeded: seq<Finding>,
                             file: File, items: seq<Diagnostic>, scope: Scope, wanted: (string, string) -> bool) {
    && AreMarked(before, after, file, items, wanted)
    && AreUnused(unused, file, items, scope, wanted)
    && AreExceeded(exceeded, file, items, wanted)
  }

  lemma AppliedJoin(before: seq<bool>, mid: seq<bool>, after: seq<bool>, unused: seq<Finding>, unused': seq<Finding>,
                    exceeded: seq<Finding>, exceeded': seq<Finding>, file: File, items: seq<Diagnostic>, scope: Scope,
                    a: (string, string) -> bool, b: (string, string) -> bool, c: (string, string) -> bool)
    requires AreParts(a, b, c)
    requires AreApplied(before, mid, unused, exceeded, file, items, scope, a)
    requires AreApplied(mid, after, unused', exceeded', file, items, scope, b)
    ensures AreApplied(before, after, unused + unused', exceeded + exceeded', file, items, scope, c)
  {
    MarksJoin(before, mid, after, file, items, a, b, c);
    UnusedJoin(unused, unused', file, items, scope, a, b, c);
    ExceededJoin(exceeded, exceeded', file, items, a, b, c);
  }

  /** Where the file has no entries there is nothing to apply. */
  lemma NoneApplied(marks: seq<bool>, file: File, items: seq<Diagnostic>, scope: Scope,
                    wanted: (string, string) -> bool)
    requires |marks| == |items| && forall f, r :: wanted(f, r) ==> Lookup(file, f, r).None?
    ensures AreApplied(marks, marks, [], [], file, items, scope, wanted)
  {
  }

  /** The entry of one file path and rule. */
  method ApplyRule(file: File, items: seq<Diagnostic>, scope: Scope, groups: map<(string, string), seq<nat>>,
                   path: string, rule: string, suppressed: array<bool>)
    returns (unused: seq<Finding>, exceeded: seq<Finding>)
    requires path in file && rule in file[path]
    requires AreGroups(groups, items, |items|) && suppressed.Length == |items|
    modifies suppressed
    ensures AreApplied(old(suppressed[..]), suppressed[..], unused, exceeded, file, items, scope, OneRule(path, rule))
  {
    unused, exceeded := ApplyEntry(
      file, items, path, rule, file[path][rule], GroupOf(groups, path, rule), scope.Covers(path, rule), suppressed);
  }

  /** The entries of one file path. */
  method ApplyRules(file: File, items: seq<Diagnostic>, scope: Scope, groups: map<(string, string), seq<nat>>,
                    path: string, suppressed: array<bool>)
    returns (unused: seq<Finding>, exceeded: seq<Finding>)
    requires path in file && AreGroups(groups, items, |items|) && suppressed.Length == |items|
    modifies suppressed
    ensures AreApplied(old(suppressed[..]), suppressed[..], unused, exceeded, file, items, scope, RulesBut(path, {}))
  {
    unused, exceeded := [], [];
    var left := file[path].Keys;
    ghost var start := suppressed[..];
    NoneApplied(start, file, items, scope, RulesBut(path, left));
    while left != {}
      invariant left <= file[path].Keys
      invariant AreApplied(start, suppressed[..], unused, exceeded, file, items, scope, RulesBut(path, left))
      decreases |left|
    {
      var rule :| rule in left;
      ghost var mid := suppressed[..];
      var moreUnused, moreExceeded := ApplyRule(file, items, scope, groups, path, rule, suppressed);
      AppliedJoin(start, mid, suppressed[..], unused, moreUnused, exceeded, moreExceeded, file, items, scope,
                  RulesBut(path, left), OneRule(path, rule), RulesBut(path, left - {rule}));
      left, unused, exceeded := left - {rule}, unused + moreUnused, exceeded + moreExceeded;
    }
  }

  /** Apply. */
  method Apply(file: File, items: seq<Diagnostic>, scope: Scope) returns (result: Result)
    ensures IsResult(file, items, scope, result)
  {
    var suppressed := new bool[|items|](i => false);
    var groups := GroupCandidates(items);
    var unused: seq<Finding>, exceeded: seq<Finding> := [], [];
    var left := file.Keys;
    ghost var start := suppressed[..];
    NoneApplied(start, file, items, scope, PathsBut(left));
    while left != {}
      invariant left <= file.Keys
      invariant AreApplied(start, suppressed[..], unused, exceeded, file, items, scope, PathsBut(left))
      decreases |left|
    {
      var path :| path in left;
      ghost var mid := suppressed[..];
      var moreUnused, moreExceeded := ApplyRules(file, items, scope, groups, path, suppressed);
      AppliedJoin(start, mid, suppressed[..], unused, moreUnused, exceeded, moreExceeded, file, items, scope,
                  PathsBut(left), RulesBut(path, {}), PathsBut(left - {path}));
      left, unused, exceeded := left - {path}, unused + moreUnused, exceeded + moreExceeded;
    }
    var reported, taken := Split(file, items, suppressed[..]);
    result := Result(reported, taken, Ordered(unused), Ordered(exceeded));
  }

  method Split(ghost file: File, items: seq<Diagnostic>, suppressed: seq<bool>)
    returns (reported: seq<Diagnostic>, taken: seq<Diagnostic>)
    requires |suppressed| == |items|
    requires forall i :: 0 <= i < |items| ==> suppressed[i] == IsSuppressed(file, items, items[i])
    ensures reported == Picked(file, items, |items|, false) && taken == Picked(file, items, |items|, true)
  {
    reported, taken := [], [];
    for n := 0 to |items|
      invariant reported == Picked(file, items, n, false) && taken == Picked(file, items, n, true)
    {
      if suppressed[n] {
        taken := taken + [items[n]];
      } else {
        reported := reported + [items[n]];
      }
    }
  }

  /** sort.Slice on findings with different keys; it has only one result. */
  function Ordered(findings: seq<Finding>): (r: seq<Finding>)
    requires Distinct(findings)
    ensures Ascending(r) && forall y :: y in r <==> y in findings
  {
    assert Ascending(Sorted(findings, CompareKeys))
           && forall y :: y in Sorted(findings, CompareKeys) <==> y in findings by {
      OrderedIsAscending(findings);
    }
    Sorted(findings, CompareKeys)
  }

  lemma OrderedIsAscending(findings: seq<Finding>)
    requires Distinct(findings)
    ensures Ascending(Sorted(findings, CompareKeys))
    ensures forall y :: y in Sorted(findings, CompareKeys) <==> y in findings
  {
    forall a, b, c ensures OrderAt(CompareKeys, a, b, c) {
      CompareKeysIsOrder(a, b, c);
    }
    forall i, j | 0 <= i < j < |findings| ensures CompareKeys(findings[i], findings[j]) != 0 {
      CompareKeysIsOrder(findings[i], findings[j], findings[j]);
    }
    SortedIsStrict(findings, CompareKeys);
    SortedHasSame(findings, CompareKeys);
  }
}
