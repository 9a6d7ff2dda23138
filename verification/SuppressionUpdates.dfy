/** Reading, recording, pruning and limiting a suppressions file. */
module SuppressionUpdates {
  import opened Basics
  import opened Ordering
  import opened SuppressionEntries
  import opened Suppressions
  import opened SuppressionApply

  /** The decoded JSON of a suppressions file; None is a null rule object. */
  type RawFile = map<string, Option<map<string, RawEntry>>>

  ghost predicate IsAcceptableFile(raw: RawFile) {
    forall f :: f in raw ==> raw[f].Some? && forall r :: r in raw[f].value ==> IsAcceptable(raw[f].value[r])
  }

  function ParsedEntry(raw: RawEntry): Entry {
    Entry(raw.count, if raw.entities.Object? then raw.entities.counts else map[])
  }

  method ParseRules(raw: map<string, RawEntry>) returns (rules: Option<map<string, Entry>>)
    ensures rules.Some? <==> forall r :: r in raw ==> IsAcceptable(raw[r])
    ensures rules.Some? ==> rules.value == map r | r in raw :: ParsedEntry(raw[r])
    ensures rules.Some? ==> forall r :: r in raw ==> Valid(ParsedEntry(raw[r]))
  {
    var entries, left := map[], raw.Keys;
    while left != {}
      invariant left <= raw.Keys
      invariant forall r :: r in raw && r !in left ==> IsAcceptable(raw[r]) && Valid(ParsedEntry(raw[r]))
      invariant entries == map r | r in raw && r !in left :: ParsedEntry(raw[r])
      decreases |left|
    {
      var rule :| rule in left;
      var entry := ParseEntry(raw[rule]);
      if entry.None? {
        return None;
      }
      entries, left := entries[rule := entry.value], left - {rule};
    }
    assert entries == map r | r in raw :: ParsedEntry(raw[r]);
    return Some(entries);
  }

  ghost predicate IsParsed(raw: RawFile, left: set<string>, file: File) {
    && file.Keys == raw.Keys - left
    && forall f :: f in raw && f !in left ==>
         && raw[f].Some? && file[f] == (map r | r in raw[f].value :: ParsedEntry(raw[f].value[r]))
         && (forall r :: r in raw[f].value ==> IsAcceptable(raw[f].value[r]) && Valid(ParsedEntry(raw[f].value[r])))
  }

  /** Parse, after the JSON is decoded: it accepts the file when each entry is acceptable. */
  method Parse(raw: RawFile) returns (file: Option<File>)
    ensures file.Some? <==> IsAcceptableFile(raw)
    ensures file.Some? ==> ValidFile(file.value) && IsParsed(raw, {}, file.value)
  {
    var result: File, left := map[], raw.Keys;
    while left != {}
      invariant left <= raw.Keys && IsParsed(raw, left, result)
      decreases |left|
    {
      var path :| path in left;
      if raw[path].None? {
        return None;
      }
      var rules := ParseRules(raw[path].value);
      if rules.None? {
        return None;
      }
      result, left := result[path := rules.value], left - {path};
    }
    return Some(result);
  }

  /** Two files with the same entries and the same paths are the same. */
  lemma SameLookups(a: File, b: File)
    requires a.Keys == b.Keys
    requires forall f, r :: Lookup(a, f, r) == Lookup(b, f, r)
    ensures a == b
  {
    forall f | f in a ensures f in b && a[f] == b[f] {
      assert f in a.Keys;
      forall r ensures r in a[f] <==> r in b[f] {
        assert Lookup(a, f, r) == Lookup(b, f, r);
      }
      forall r | r in a[f] ensures a[f][r] == b[f][r] {
        assert Lookup(a, f, r) == Lookup(b, f, r);
      }
    }
  }

  function WithEntry(file: File, path: string, rule: string, entry: Entry): (r: File)
    ensures forall f, s :: Lookup(r, f, s) == if f == path && s == rule then Some(entry) else Lookup(file, f, s)
    ensures r.Keys == file.Keys + {path}
  {
    file[path := (if path in file then file[path] else map[])[rule := entry]]
  }

  function WithoutEntry(file: File, path: string, rule: string): (r: File)
    requires path in file
    ensures forall f, s :: Lookup(r, f, s) == if f == path && s == rule then None else Lookup(file, f, s)
    ensures r.Keys == file.Keys
  {
    file[path := file[path] - {rule}]
  }

  /** The rules to record; None records every rule. */
  predicate IsSelected(rules: Option<seq<string>>, rule: string) {
    rules.None? || rule in rules.value
  }

  function RecordedLookup(
    file: File, items: seq<Diagnostic>, rules: Option<seq<string>>, path: string, rule: string): Option<Entry>
  {
    if IsSelected(rules, rule) && Found(items, path, rule) != multiset{}
    then Some(RecordedEntry(Found(items, path, rule)))
    else Lookup(file, path, rule)
  }

  ghost predicate IsRecorded(file: File, items: seq<Diagnostic>, rules: Option<seq<string>>, result: File) {
    && (forall f, r :: Lookup(result, f, r) == RecordedLookup(file, items, rules, f, r))
    && (forall f :: f in result <==> f in file || exists r :: Lookup(result, f, r).Some?)
  }

  /** The entry for the candidates of one group. */
  method EntryFor(items: seq<Diagnostic>, path: string, rule: string, indexes: seq<nat>) returns (entry: Entry)
    requires indexes == Candidates(items, |items|, path, rule)
    ensures entry == RecordedEntry(Found(items, path, rule))
  {
    ghost var found := Found(items, path, rule);
    CandidatesAreTheGroup(items, path, rule);
    var entities: map<string, int> := map[];
    for n := 0 to |indexes|
      invariant OfKey(items, indexes[..n], "") == []
      invariant forall k :: k in entities <==> OfKey(items, indexes[..n], k) != []
      invariant forall k :: k in entities ==> entities[k] == |OfKey(items, indexes[..n], k)|
    {
      assert indexes[..n + 1][..n] == indexes[..n];
      var semantic := KeyOf(items[indexes[n]]);
      if semantic == "" {
        CandidatesOfKey(items, path, rule, "");
        OfKeyHas(items, indexes, "");
        assert indexes[n] in OfKey(items, indexes, "");
        return Entry(|indexes|, map[]);
      }
      entities := entities[semantic := (if semantic in entities then entities[semantic] else 0) + 1];
    }
    assert indexes[..|indexes|] == indexes;
    forall k ensures |OfKey(items, indexes, k)| == found[k] {
      CandidatesOfKey(items, path, rule, k);
    }
    assert entities == map k | k in found :: found[k];
    return Entry(|indexes|, entities);
  }

  /** Records what the groups that are not left to do found. */
  ghost predicate IsRecordedSoFar(
    file: File, items: seq<Diagnostic>, rules: Option<seq<string>>, left: set<(string, string)>, result: File)
  {
    && (forall f, r :: Lookup(result, f, r) ==
          if (f, r) in left then Lookup(file, f, r) else RecordedLookup(file, items, rules, f, r))
    && (forall f :: f in result <==> f in file || exists r :: Lookup(result, f, r).Some?)
  }

  lemma GroupIsRecorded(file: File, items: seq<Diagnostic>, rules: Option<seq<string>>, left: set<(string, string)>,
                        path: string, rule: string, before: File, after: File)
    requires IsRecordedSoFar(file, items, rules, left, before)
    requires Found(items, path, rule) != multiset{}
    requires after ==
             if IsSelected(rules, rule) then WithEntry(before, path, rule, RecordedEntry(Found(items, path, rule)))
             else before
    ensures IsRecordedSoFar(file, items, rules, left - {(path, rule)}, after)
  {
    if IsSelected(rules, rule) {
      assert Lookup(after, path, rule).Some?;
      forall f | f in before && f !in file ensures exists r :: Lookup(after, f, r).Some? {
        var r :| Lookup(before, f, r).Some?;
        assert Lookup(after, f, r).Some?;
      }
    }
  }

  method Record(file: File, items: seq<Diagnostic>, rules: Option<seq<string>>) returns (result: File)
    ensures IsRecorded(file, items, rules, result)
  {
    result := file;
    var groups := GroupCandidates(items);
    GroupsAreFound(items, groups);
    var left := groups.Keys;
    while left != {}
      invariant left <= groups.Keys
      invariant IsRecordedSoFar(file, items, rules, left, result)
      decreases |left|
    {
      var key :| key in left;
      ghost var before := result;
      if IsSelected(rules, key.1) {
        var entry := EntryFor(items, key.0, key.1, GroupOf(groups, key.0, key.1));
        result := WithEntry(result, key.0, key.1, entry);
      }
      GroupIsRecorded(file, items, rules, left, key.0, key.1, before, result);
      left := left - {key};
    }
  }

  lemma GroupsAreFound(items: seq<Diagnostic>, groups: map<(string, string), seq<nat>>)
    requires AreGroups(groups, items, |items|)
    ensures forall key :: key in groups <==> Found(items, key.0, key.1) != multiset{}
  {
    forall key: (string, string) ensures key in groups <==> Found(items, key.0, key.1) != multiset{} {
      CandidatesAreTheGroup(items, key.0, key.1);
      assert GroupOf(groups, key.0, key.1) == Candidates(items, |items|, key.0, key.1);
    }
  }

  /** An entry of a deleted file. */
  predicate IsGone(scope: Scope, present: string -> bool, path: string, rule: string) {
    path !in scope.files && !present(path) && scope.CoversRule(rule)
  }

  ghost function PrunedLookup(
    file: File, items: seq<Diagnostic>, scope: Scope, present: string -> bool, path: string, rule: string)
    : Option<Entry>
  {
    var entry := Lookup(file, path, rule);
    if entry.None? || IsGone(scope, present, path, rule) then None
    else if scope.Covers(path, rule) then Lowered(entry.value, Found(items, path, rule))
    else entry
  }

  ghost predicate IsPruned(
    file: File, items: seq<Diagnostic>, scope: Scope, present: string -> bool, result: File)
  {
    && (forall f, r :: Lookup(result, f, r) == PrunedLookup(file, items, scope, present, f, r))
    && (forall f :: f in result ==> result[f] != map[])
  }

  method SumOf(entities: map<string, int>) returns (sum: int)
    ensures sum == Sum(entities)
  {
    sum := 0;
    var left := entities.Keys;
    ghost var seen: map<string, int> := map[];
    while left != {}
      invariant left <= entities.Keys
      invariant seen == map k | k in entities && k !in left :: entities[k]
      invariant sum == Sum(seen)
      decreases |left|
    {
      var key :| key in left;
      SumInsert(seen, key, entities[key]);
      sum, left := sum + entities[key], left - {key};
      seen := seen[key := entities[key]];
    }
    assert seen == entities;
  }

  /** One unused finding lowers what the earlier ones left of the entry, which is still there. */
  lemma LowerOne(entry: Entry, found: multiset<string>, keys: set<string>, key: string)
    requires Valid(entry) && keys <= UnusedKeys(entry, found) && key in UnusedKeys(entry, found) && key !in keys
    ensures var before := LoweredBy(entry, found, keys);
            var after := LoweredBy(entry, found, keys + {key});
            && before.Some?
            && (key == "" ==> after == if |found| == 0 then None else Some(Entry(|found|, before.value.entities)))
            && (key != "" ==>
                  var rest := if found[key] == 0 then before.value.entities - {key}
                              else before.value.entities[key := found[key]];
                  after == if Sum(rest) == 0 then None else Some(Entry(Sum(rest), rest)))
  {
    if entry.entities != map[] {
      var kept := LoweredEntities(entry.entities, found, keys);
      var next := LoweredEntities(entry.entities, found, keys + {key});
      assert key in kept;
      assert next == if found[key] == 0 then kept - {key} else kept[key := found[key]];
      if next != map[] {
        SumPositive(next);
      }
    }
  }

  /** The entities of the first n findings for a file and rule. */
  function Done(unused: seq<Finding>, n: nat, path: string, rule: string): set<string>
    requires n <= |unused|
  {
    set i | 0 <= i < n && unused[i].file == path && unused[i].rule == rule :: unused[i].entity
  }

  ghost predicate IsLoweredSoFar(file: File, items: seq<Diagnostic>, unused: seq<Finding>, n: nat, result: File)
    requires n <= |unused|
  {
    && result.Keys == file.Keys
    && forall f, r :: Lookup(result, f, r) ==
         if Lookup(file, f, r).None? then None
         else LoweredBy(Lookup(file, f, r).value, Found(items, f, r), Done(unused, n, f, r))
  }

  /** The new counts of an entry for one unused finding. */
  method LowerCounts(entry: Entry, entity: string, found: int) returns (lowered: Entry)
    ensures lowered ==
            if entity == "" then entry.(count := found)
            else
              var entities := if found == 0 then entry.entities - {entity} else entry.entities[entity := found];
              Entry(Sum(entities), entities)
  {
    if entity == "" {
      return entry.(count := found);
    }
    var entities := if found == 0 then entry.entities - {entity} else entry.entities[entity := found];
    var sum := SumOf(entities);
    lowered := Entry(sum, entities);
  }

  /** One step of the loop over the unused findings. */
  method LowerEntry(ghost file: File, ghost items: seq<Diagnostic>, ghost scope: Scope, unused: seq<Finding>, n: nat,
                    before: File)
    returns (after: File)
    requires ValidFile(file) && n < |unused| && Ascending(unused)
    requires forall u :: u in unused <==> IsUnused(file, items, scope, u)
    requires IsLoweredSoFar(file, items, unused, n, before)
    ensures IsLoweredSoFar(file, items, unused, n + 1, after)
  {
    var u := unused[n];
    ghost var found, keys := Found(items, u.file, u.rule), Done(unused, n, u.file, u.rule);
    DoneAreUnused(file, items, scope, unused, n);
    ghost var original := Lookup(file, u.file, u.rule).value;
    assert IsUnused(file, items, scope, u);
    assert Valid(original) && u.found == if u.entity == "" then |found| else found[u.entity];
    LowerOne(original, found, keys, u.entity);
    assert Lookup(before, u.file, u.rule) == LoweredBy(original, found, keys);
    var entry := LowerCounts(before[u.file][u.rule], u.entity, u.found);
    if entry.count == 0 {
      after := WithoutEntry(before, u.file, u.rule);
    } else {
      after := WithEntry(before, u.file, u.rule, entry);
    }
    OneMoreLowered(file, items, unused, n, before, after);
  }

  lemma OneMoreLowered(file: File, items: seq<Diagnostic>, unused: seq<Finding>, n: nat, before: File, after: File)
    requires n < |unused| && IsLoweredSoFar(file, items, unused, n, before) && after.Keys == before.Keys
    requires Lookup(file, unused[n].file, unused[n].rule).Some?
    requires forall f, r :: Lookup(after, f, r) ==
               var u := unused[n];
               if f == u.file && r == u.rule
               then LoweredBy(Lookup(file, f, r).value, Found(items, f, r), Done(unused, n, f, r) + {u.entity})
               else Lookup(before, f, r)
    ensures IsLoweredSoFar(file, items, unused, n + 1, after)
  {
    DoneGrows(unused, n);
  }

  lemma DoneGrows(unused: seq<Finding>, n: nat)
    requires n < |unused|
    ensures forall f, r :: Done(unused, n + 1, f, r) ==
              if f == unused[n].file && r == unused[n].rule then Done(unused, n, f, r) + {unused[n].entity}
              else Done(unused, n, f, r)
  {}

  lemma DoneAreUnused(file: File, items: seq<Diagnostic>, scope: Scope, unused: seq<Finding>, n: nat)
    requires n < |unused| && Ascending(unused)
    requires forall u :: u in unused <==> IsUnused(file, items, scope, u)
    ensures var u := unused[n];
            var keys := Done(unused, n, u.file, u.rule);
            && u.entity !in keys
            && Lookup(file, u.file, u.rule).Some?
            && keys <= UnusedKeys(Lookup(file, u.file, u.rule).value, Found(items, u.file, u.rule))
  {
    var u := unused[n];
    assert IsUnused(file, items, scope, u);
    forall i | 0 <= i < n && unused[i].file == u.file && unused[i].rule == u.rule
      ensures unused[i].entity != u.entity
      ensures unused[i].entity in UnusedKeys(Lookup(file, u.file, u.rule).value, Found(items, u.file, u.rule))
    {
      CompareKeysIsOrder(unused[i], u, u);
      assert unused[i] in unused;
    }
  }

  /** All unused entities of an entry are done in the end, when the scope covers it. */
  lemma AllDone(file: File, items: seq<Diagnostic>, scope: Scope, unused: seq<Finding>, path: string, rule: string)
    requires forall u :: u in unused <==> IsUnused(file, items, scope, u)
    requires Lookup(file, path, rule).Some?
    ensures Done(unused, |unused|, path, rule) ==
            if scope.Covers(path, rule) then UnusedKeys(Lookup(file, path, rule).value, Found(items, path, rule))
            else {}
  {
    var entry, found := Lookup(file, path, rule).value, Found(items, path, rule);
    forall i | 0 <= i < |unused| ensures IsUnused(file, items, scope, unused[i]) {
      assert unused[i] in unused;
    }
    if scope.Covers(path, rule) {
      forall key | key in UnusedKeys(entry, found) ensures key in Done(unused, |unused|, path, rule) {
        var u := Finding(path, rule, key, AllowedFor(entry, key), FoundFor(entry, found, key));
        assert u in unused;
      }
    }
  }

  /** The rules of a deleted file that the run did not check. */
  method DropCovered(rules: map<string, Entry>, scope: Scope) returns (kept: map<string, Entry>)
    ensures kept == map r | r in rules && !scope.CoversRule(r) :: rules[r]
  {
    kept := rules;
    var left := rules.Keys;
    while left != {}
      invariant kept == map r | r in rules && (r in left || !scope.CoversRule(r)) :: rules[r]
      decreases |left|
    {
      var rule :| rule in left;
      left := left - {rule};
      if scope.CoversRule(rule) {
        kept := kept - {rule};
      }
    }
  }

  /** The file with these rules for a path, without the path when there are none. */
  function WithRules(file: File, path: string, rules: map<string, Entry>): (r: File)
    ensures forall f, s ::
              Lookup(r, f, s) == if f == path then Lookup(map[path := rules], path, s) else Lookup(file, f, s)
    ensures forall f :: f in r <==> if f == path then rules != map[] else f in file
    ensures path in r ==> r[path] == rules
    ensures forall f :: f in r && f != path ==> r[f] == file[f]
  {
    if rules == map[] then file - {path} else file[path := rules]
  }

  lemma StartLowering(file: File, items: seq<Diagnostic>, unused: seq<Finding>)
    requires ValidFile(file)
    ensures IsLoweredSoFar(file, items, unused, 0, file)
  {
    forall f, r | Lookup(file, f, r).Some?
      ensures LoweredBy(Lookup(file, f, r).value, Found(items, f, r), Done(unused, 0, f, r)) == Lookup(file, f, r)
    {
      LoweringNothing(Lookup(file, f, r).value, Found(items, f, r));
      assert Done(unused, 0, f, r) == {};
    }
  }

  /** After the loop over the unused findings only the entries of deleted files are left to remove. */
  lemma LoweredIsPruned(file: File, items: seq<Diagnostic>, scope: Scope, present: string -> bool,
                        unused: seq<Finding>, lowered: File)
    requires ValidFile(file)
    requires forall u :: u in unused <==> IsUnused(file, items, scope, u)
    requires IsLoweredSoFar(file, items, unused, |unused|, lowered)
    ensures forall f, r :: PrunedLookup(file, items, scope, present, f, r) ==
              if IsGone(scope, present, f, r) then None else Lookup(lowered, f, r)
  {
    forall f, r | Lookup(file, f, r).Some?
      ensures PrunedLookup(file, items, scope, present, f, r) ==
              if IsGone(scope, present, f, r) then None else Lookup(lowered, f, r)
    {
      AllDone(file, items, scope, unused, f, r);
      LoweringNothing(Lookup(file, f, r).value, Found(items, f, r));
    }
  }

  /** The entries of deleted files are gone from the paths that are not left to do. */
  ghost predicate IsDropped(lowered: File, scope: Scope, present: string -> bool, left: set<string>, result: File) {
    && left <= result.Keys
    && (forall f, r :: Lookup(result, f, r) ==
          if f !in left && IsGone(scope, present, f, r) then None else Lookup(lowered, f, r))
    && forall f :: f in result && f !in left ==> result[f] != map[]
  }

  lemma PathIsDropped(lowered: File, scope: Scope, present: string -> bool, left: set<string>, before: File,
                      path: string, rules: map<string, Entry>)
    requires IsDropped(lowered, scope, present, left, before) && path in left
    requires rules == map r | r in before[path] && !IsGone(scope, present, path, r) :: before[path][r]
    ensures IsDropped(lowered, scope, present, left - {path}, WithRules(before, path, rules))
  {
    forall r ensures Lookup(map[path := rules], path, r) ==
                     if IsGone(scope, present, path, r) then None else Lookup(before, path, r)
    {
    }
  }

  /** The second loop of Prune: without the entries of deleted files, and without paths that have no rules. */
  method DropGone(lowered: File, scope: Scope, present: string -> bool) returns (result: File)
    ensures IsDropped(lowered, scope, present, {}, result)
  {
    result := lowered;
    var left := result.Keys;
    while left != {}
      invariant IsDropped(lowered, scope, present, left, result)
      decreases |left|
    {
      var path :| path in left;
      var rules := result[path];
      if path !in scope.files && !present(path) {
        rules := DropCovered(rules, scope);
      }
      PathIsDropped(lowered, scope, present, left, result, path, rules);
      left, result := left - {path}, WithRules(result, path, rules);
    }
  }

  /** Prune. In Go a nil exists function means that every file is there. */
  method Prune(file: File, items: seq<Diagnostic>, scope: Scope, present: string -> bool) returns (result: File)
    requires ValidFile(file)
    ensures IsPruned(file, items, scope, present, result)
  {
    var applied := Apply(file, items, scope);
    var unused := applied.unused;
    result := file;
    StartLowering(file, items, unused);
    for n := 0 to |unused|
      invariant IsLoweredSoFar(file, items, unused, n, result)
    {
      result := LowerEntry(file, items, scope, unused, n, result);
    }
    LoweredIsPruned(file, items, scope, present, unused, result);
    result := DropGone(result, scope, present);
  }
}
