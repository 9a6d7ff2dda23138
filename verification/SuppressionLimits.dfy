/** Limiting a suppressions file to the locked suppressions. */
module SuppressionLimits {
  import opened Basics
  import opened Ordering
  import opened SortedLists
  import opened SuppressionEntries
  import opened Suppressions
  import opened SuppressionUpdates

  /** A failure; its message is left out. */
  datatype Failure = Failure(file: string, rule: string)

  function CompareFailures(a: Failure, b: Failure): int {
    var c := Compare(a.file, b.file);
    if c != 0 then c else Compare(a.rule, b.rule)
  }

  predicate AreAscending(failures: seq<Failure>) {
    forall i, j :: 0 <= i < j < |failures| ==> CompareFailures(failures[i], failures[j]) < 0
  }

  predicate IsFailure(file: File, locked: File, failure: Failure) {
    var entry := Lookup(file, failure.file, failure.rule);
    entry.Some? && Exceeds(entry.value, Lookup(locked, failure.file, failure.rule))
  }

  function LimitedLookup(file: File, locked: File, path: string, rule: string): Option<Entry> {
    var entry := Lookup(file, path, rule);
    if entry.None? then None else Limited(entry.value, Lookup(locked, path, rule))
  }

  ghost predicate IsLimited(file: File, locked: File, result: File) {
    && (forall f, r :: Lookup(result, f, r) == LimitedLookup(file, locked, f, r))
    && (forall f :: f in result <==>
          f in file && (file[f] == map[] || exists r :: LimitedLookup(file, locked, f, r).Some?))
  }

  ghost predicate AreFailures(file: File, locked: File, failures: seq<Failure>) {
    AreAscending(failures) && forall failure :: failure in failures <==> IsFailure(file, locked, failure)
  }

  predicate AscendingStrings(s: seq<string>) {
    forall i, j :: 0 <= i < j < |s| ==> Less(s[i], s[j])
  }

  /** sort.Strings on different strings. */
  function OrderedStrings(s: seq<string>): (r: seq<string>)
    requires forall i, j :: 0 <= i < j < |s| ==> s[i] != s[j]
    ensures AscendingStrings(r) && forall x :: x in r <==> x in s
  {
    assert AscendingStrings(Sorted(s, Compare)) && forall x :: x in Sorted(s, Compare) <==> x in s by {
      OrderedIsAscending(s);
    }
    Sorted(s, Compare)
  }

  lemma OrderedIsAscending(s: seq<string>)
    requires forall i, j :: 0 <= i < j < |s| ==> s[i] != s[j]
    ensures AscendingStrings(Sorted(s, Compare))
    ensures forall x :: x in Sorted(s, Compare) <==> x in s
  {
    forall a, b, c ensures OrderAt(Compare, a, b, c) {
      CompareAntisymmetric(a, b);
      CompareTransitive(a, b, c);
    }
    forall i, j | 0 <= i < j < |s| ensures Compare(s[i], s[j]) != 0 {
      CompareIsEquality(s[i], s[j]);
    }
    SortedIsStrict(s, Compare);
    SortedHasSame(s, Compare);
  }

  method SortedKeys<V>(values: map<string, V>) returns (keys: seq<string>)
    ensures AscendingStrings(keys) && forall k :: k in keys <==> k in values
  {
    keys := [];
    var left := values.Keys;
    while left != {}
      invariant left <= values.Keys
      invariant forall k :: k in keys <==> k in values && k !in left
      invariant forall i, j :: 0 <= i < j < |keys| ==> keys[i] != keys[j]
      decreases |left|
    {
      var key :| key in left;
      keys, left := keys + [key], left - {key};
    }
    keys := OrderedStrings(keys);
  }

  /** The cases of Limit on one entry; Limit sets a message where this returns true. */
  method CheckLimit(entry: Entry, locked: Option<Entry>) returns (exceeds: bool)
    ensures exceeds == Exceeds(entry, locked)
  {
    if locked.None? {
      return true;
    } else if entry.count > locked.value.count {
      return true;
    } else if entry.entities == map[] && locked.value.entities != map[] {
      return true;
    } else if entry.entities != map[] && locked.value.entities != map[] {
      exceeds := CheckEntities(entry, locked.value);
      return;
    }
    return false;
  }

  method CheckEntities(entry: Entry, locked: Entry) returns (exceeds: bool)
    ensures exceeds == exists k :: k in entry.entities && entry.entities[k] > Allowed(locked, k)
  {
    var keys := SortedKeys(entry.entities);
    for n := 0 to |keys|
      invariant forall i :: 0 <= i < n ==> entry.entities[keys[i]] <= Allowed(locked, keys[i])
    {
      if entry.entities[keys[n]] > Allowed(locked, keys[n]) {
        return true;
      }
    }
    return false;
  }

  /** Limited in the rules of one file that are done, and as before elsewhere. */
  ghost predicate IsFileSoFar(file: File, locked: File, path: string, done: set<string>, before: File, result: File)
    requires path in file
  {
    && (forall f, r :: Lookup(result, f, r) ==
          if f == path && r in done then LimitedLookup(file, locked, path, r) else Lookup(before, f, r))
    && (forall f :: f != path ==> (f in result <==> f in before))
    && (path in result <==> file[path] == map[] || exists r :: Lookup(result, path, r).Some?)
  }

  ghost predicate AreFileFailures(
    file: File, locked: File, path: string, done: set<string>, failed: seq<Failure>, failures: seq<Failure>)
  {
    && AreAscending(failures)
    && forall failure :: failure in failures <==>
         failure in failed || (failure.file == path && failure.rule in done && IsFailure(file, locked, failure))
  }

  /** One rule of one file. */
  method LimitRule(file: File, locked: File, path: string, rule: string, ghost done: set<string>,
                   ghost before: File, current: File)
    returns (result: File, exceeds: bool)
    requires path in file && rule in file[path] && rule !in done
    requires IsFileSoFar(file, locked, path, done, before, current)
    requires Lookup(before, path, rule) == Lookup(file, path, rule)
    ensures IsFileSoFar(file, locked, path, done + {rule}, before, result)
    ensures exceeds <==> IsFailure(file, locked, Failure(path, rule))
  {
    var lockedEntry := Lookup(locked, path, rule);
    exceeds := CheckLimit(file[path][rule], lockedEntry);
    result := current;
    assert Lookup(current, path, rule) == Lookup(file, path, rule);
    if exceeds {
      if lockedEntry.Some? {
        result := WithEntry(current, path, rule, lockedEntry.value);
      } else {
        result := WithRules(current, path, current[path] - {rule});
      }
    }
    EmptyOrNot(result, path);
    RuleIsLimited(file, locked, path, rule, done, before, current, result);
  }

  lemma RuleIsLimited(file: File, locked: File, path: string, rule: string, done: set<string>, before: File,
                      current: File, result: File)
    requires path in file && rule in file[path]
    requires IsFileSoFar(file, locked, path, done, before, current)
    requires forall f, r :: Lookup(result, f, r) ==
               if f == path && r == rule then LimitedLookup(file, locked, path, rule) else Lookup(current, f, r)
    requires forall f :: f != path ==> (f in result <==> f in current)
    requires path in result <==> exists r :: Lookup(result, path, r).Some?
    ensures IsFileSoFar(file, locked, path, done + {rule}, before, result)
  {
  }

  /** The rules of one file. */
  method LimitFile(file: File, locked: File, path: string, before: File, failed: seq<Failure>)
    returns (result: File, failures: seq<Failure>)
    requires path in file && path in before && before[path] == file[path]
    requires AreAscending(failed) && forall failure :: failure in failed ==> Less(failure.file, path)
    ensures IsFileSoFar(file, locked, path, file[path].Keys, before, result)
    ensures AreFileFailures(file, locked, path, file[path].Keys, failed, failures)
  {
    result, failures := before, failed;
    if file[path] != map[] {
      EmptyOrNot(result, path);
    }
    var rules := SortedKeys(file[path]);
    ghost var done: set<string> := {};
    for n := 0 to |rules|
      invariant forall r :: r in done <==> r in rules[..n]
      invariant IsFileSoFar(file, locked, path, done, before, result)
      invariant AreFileFailures(file, locked, path, done, failed, failures)
    {
      RulesDiffer(rules, n);
      assert rules[n] in file[path];
      assert Lookup(before, path, rules[n]) == Lookup(file, path, rules[n]);
      var exceeds;
      result, exceeds := LimitRule(file, locked, path, rules[n], done, before, result);
      OneMoreFailure(file, locked, path, done, failed, failures, rules, n);
      if exceeds {
        failures := failures + [Failure(path, rules[n])];
      }
      done := done + {rules[n]};
    }
    assert done == file[path].Keys;
  }

  lemma EmptyOrNot(file: File, path: string)
    requires path in file ==> file[path] != map[]
    ensures path in file <==> exists r :: Lookup(file, path, r).Some?
  {
    if path in file {
      var r :| r in file[path];
      assert Lookup(file, path, r).Some?;
    }
  }

  lemma RulesDiffer(rules: seq<string>, n: nat)
    requires n < |rules| && AscendingStrings(rules)
    ensures rules[n] !in rules[..n]
  {
    CompareIsEquality(rules[n], rules[n]);
  }

  /** A failure of the next rule comes after those so far. */
  lemma OneMoreFailure(file: File, locked: File, path: string, done: set<string>, failed: seq<Failure>,
                       failures: seq<Failure>, rules: seq<string>, n: nat)
    requires n < |rules| && AscendingStrings(rules) && forall r :: r in done <==> r in rules[..n]
    requires forall failure: Failure :: failure in failed ==> Less(failure.file, path)
    requires AreFileFailures(file, locked, path, done, failed, failures)
    ensures var next := Failure(path, rules[n]);
            AreFileFailures(file, locked, path, done + {rules[n]}, failed,
                            if IsFailure(file, locked, next) then failures + [next] else failures)
  {
    var next := Failure(path, rules[n]);
    CompareIsEquality(path, path);
    forall i | 0 <= i < |failures| ensures CompareFailures(failures[i], next) < 0 {
      assert failures[i] in failures;
    }
  }

  /** Limited in the files that are done, and as before in the others. */
  ghost predicate IsLimitedSoFar(file: File, locked: File, done: set<string>, result: File) {
    && (forall f :: f in file && f !in done ==> f in result && result[f] == file[f])
    && (forall f, r :: Lookup(result, f, r) ==
          if f in done then LimitedLookup(file, locked, f, r) else Lookup(file, f, r))
    && (forall f :: f in result <==>
          f in file && (f in done ==> file[f] == map[] || exists r :: LimitedLookup(file, locked, f, r).Some?))
  }

  ghost predicate AreFailuresSoFar(file: File, locked: File, done: set<string>, failures: seq<Failure>) {
    && AreAscending(failures)
    && forall failure :: failure in failures <==> failure.file in done && IsFailure(file, locked, failure)
  }

  lemma FileIsLimited(file: File, locked: File, done: set<string>, path: string, before: File, result: File)
    requires IsLimitedSoFar(file, locked, done, before) && path in file && path !in done
    requires IsFileSoFar(file, locked, path, file[path].Keys, before, result)
    ensures IsLimitedSoFar(file, locked, done + {path}, result)
  {
    assert forall r :: Lookup(result, path, r) == LimitedLookup(file, locked, path, r) by {
      forall r ensures Lookup(result, path, r) == LimitedLookup(file, locked, path, r) {
        assert Lookup(before, path, r) == Lookup(file, path, r);
      }
    }
    forall f | f in file && f !in done + {path} ensures f in result && result[f] == file[f] {
      assert f in result && f in before;
      SameRules(result, before, f);
    }
  }

  lemma SameRules(a: File, b: File, path: string)
    requires path in a && path in b && forall r :: Lookup(a, path, r) == Lookup(b, path, r)
    ensures a[path] == b[path]
  {
    forall r ensures r in a[path] <==> r in b[path] {
      assert Lookup(a, path, r) == Lookup(b, path, r);
    }
    forall r | r in a[path] ensures a[path][r] == b[path][r] {
      assert Lookup(a, path, r) == Lookup(b, path, r);
    }
  }

  lemma FailuresOfFile(file: File, locked: File, done: set<string>, path: string, failed: seq<Failure>,
                       failures: seq<Failure>)
    requires path in file && AreFailuresSoFar(file, locked, done, failed)
    requires AreFileFailures(file, locked, path, file[path].Keys, failed, failures)
    ensures AreFailuresSoFar(file, locked, done + {path}, failures)
  {
    assert forall failure: Failure ::
             failure.file == path && IsFailure(file, locked, failure) ==> failure.rule in file[path];
  }

  /** The next path comes after those of the failures so far. */
  lemma NextPath(file: File, locked: File, paths: seq<string>, n: nat, failures: seq<Failure>)
    requires n < |paths| && AscendingStrings(paths) && AreFailuresSoFar(file, locked, Elems(paths[..n]), failures)
    ensures paths[n] !in Elems(paths[..n])
    ensures forall failure :: failure in failures ==> Less(failure.file, paths[n])
  {
    RulesDiffer(paths, n);
    forall failure | failure in failures ensures Less(failure.file, paths[n]) {
      assert failure.file in paths[..n];
    }
  }

  method Limit(file: File, locked: File) returns (result: File, failures: seq<Failure>)
    ensures IsLimited(file, locked, result)
    ensures AreFailures(file, locked, failures)
  {
    result, failures := file, [];
    var paths := SortedKeys(file);
    for n := 0 to |paths|
      invariant IsLimitedSoFar(file, locked, Elems(paths[..n]), result)
      invariant AreFailuresSoFar(file, locked, Elems(paths[..n]), failures)
    {
      var path := paths[n];
      ElemsOfPrefix(paths, n);
      NextPath(file, locked, paths, n, failures);
      ghost var before, failed := result, failures;
      result, failures := LimitFile(file, locked, path, result, failures);
      FileIsLimited(file, locked, Elems(paths[..n]), path, before, result);
      FailuresOfFile(file, locked, Elems(paths[..n]), path, failed, failures);
    }
    assert paths[..|paths|] == paths && Elems(paths) == file.Keys;
  }
}
