/**
 * Applying a suppressions file to diagnostics. Maps are iterated in an
 * arbitrary order, as Go does; the specification names no order.
 */
module Suppressions {
  import opened Basics
  import opened Ordering
  import opened SuppressionEntries

  /** File path to rule id to entry. */
  type File = map<string, map<string, Entry>>

  datatype Kind = ArchitectureViolation | RuleExecutionError | UnusedSuppression

  datatype Severity = Error | Warning

  datatype Diagnostic = Diagnostic(
    kind: Kind,
    severity: Severity,
    file: Option<string>,
    rule: string,
    semanticKey: Option<string>,
    message: string)

  datatype Scope = Scope(files: set<string>, rules: set<string>, knownRules: set<string>, allRulesLoaded: bool) {
    predicate CoversRule(rule: string) {
      if rule in rules then true
      else if rule in knownRules then false
      else allRulesLoaded
    }

    predicate Covers(file: string, rule: string) {
      file in files && CoversRule(rule)
    }
  }

  /** An unused or exceeded entry, or entity of an entry. */
  datatype Finding = Finding(file: string, rule: string, entity: string, allowed: int, found: int)

  datatype Result = Result(
    reported: seq<Diagnostic>,
    suppressed: seq<Diagnostic>,
    unused: seq<Finding>,
    exceeded: seq<Finding>)

  /** The entry of a file and rule. */
  function Lookup(file: File, path: string, rule: string): Option<Entry> {
    if path in file && rule in file[path] then Some(file[path][rule]) else None
  }

  ghost predicate ValidFile(file: File) {
    forall f, r :: Lookup(file, f, r).Some? ==> Valid(Lookup(file, f, r).value)
  }

  function NormalizePath(path: string): string {
    if path != [] && path[0] == '/' then path[1..] else path
  }

  predicate IsCandidate(item: Diagnostic) {
    item.kind == ArchitectureViolation && item.severity == Error && item.file.Some?
  }

  function KeyOf(item: Diagnostic): string {
    item.semanticKey.GetOr("")
  }

  predicate InGroup(item: Diagnostic, path: string, rule: string) {
    IsCandidate(item) && NormalizePath(item.file.value) == path && item.rule == rule
  }

  /** The semantic keys of those of the first n diagnostics that satisfy a predicate. */
  function KeysAmong(items: seq<Diagnostic>, n: nat, wanted: Diagnostic -> bool): multiset<string>
    requires n <= |items|
  {
    if n == 0 then multiset{}
    else KeysAmong(items, n - 1, wanted) + if wanted(items[n - 1]) then multiset{KeyOf(items[n - 1])} else multiset{}
  }

  /** The semantic keys of the candidates of a file and rule. */
  function Found(items: seq<Diagnostic>, path: string, rule: string): multiset<string> {
    KeysAmong(items, |items|, item => InGroup(item, path, rule))
  }

  lemma {:induction false} KeysAmongPrefix(a: seq<Diagnostic>, b: seq<Diagnostic>, n: nat, wanted: Diagnostic -> bool)
    requires n <= |a| && n <= |b| && forall i :: 0 <= i < n ==> a[i] == b[i]
    ensures KeysAmong(a, n, wanted) == KeysAmong(b, n, wanted)
  {
    if n > 0 {
      KeysAmongPrefix(a, b, n - 1, wanted);
    }
  }

  lemma FoundOfAppended(items: seq<Diagnostic>, item: Diagnostic, path: string, rule: string)
    ensures Found(items + [item], path, rule) ==
            Found(items, path, rule) + if InGroup(item, path, rule) then multiset{KeyOf(item)} else multiset{}
  {
    KeysAmongPrefix(items + [item], items, |items|, item => InGroup(item, path, rule));
  }

  lemma {:induction false} KeysAmongHas(items: seq<Diagnostic>, i: nat, n: nat, wanted: Diagnostic -> bool)
    requires i < n <= |items| && wanted(items[i])
    ensures KeyOf(items[i]) in KeysAmong(items, n, wanted)
    decreases n
  {
    if i < n - 1 {
      KeysAmongHas(items, i, n - 1, wanted);
    }
  }

  lemma FoundHas(items: seq<Diagnostic>, i: nat, path: string, rule: string)
    requires i < |items| && InGroup(items[i], path, rule)
    ensures KeyOf(items[i]) in Found(items, path, rule)
  {
    KeysAmongHas(items, i, |items|, item => InGroup(item, path, rule));
  }

  /** Whether the file suppresses the candidates of a file and rule that have this key. */
  predicate SuppressesKey(file: File, items: seq<Diagnostic>, path: string, rule: string, key: string) {
    var entry := Lookup(file, path, rule);
    entry.Some? && Suppresses(entry.value, Found(items, path, rule), key)
  }

  /** Whether the file suppresses one of the diagnostics. */
  predicate IsSuppressed(file: File, items: seq<Diagnostic>, item: Diagnostic) {
    IsCandidate(item) && SuppressesKey(file, items, NormalizePath(item.file.value), item.rule, KeyOf(item))
  }

  /** Those of the first n diagnostics that satisfy a predicate, in order. */
  function Select(items: seq<Diagnostic>, n: nat, wanted: Diagnostic -> bool): seq<Diagnostic>
    requires n <= |items|
  {
    if n == 0 then []
    else
      var rest := Select(items, n - 1, wanted);
      if wanted(items[n - 1]) then rest + [items[n - 1]] else rest
  }

  /** The first n diagnostics that are suppressed, or that are not, in order. */
  function Picked(file: File, items: seq<Diagnostic>, n: nat, suppressed: bool): seq<Diagnostic>
    requires n <= |items|
  {
    Select(items, n, item => IsSuppressed(file, items, item) == suppressed)
  }

  predicate IsUnused(file: File, items: seq<Diagnostic>, scope: Scope, u: Finding) {
    && scope.Covers(u.file, u.rule)
    && var entry := Lookup(file, u.file, u.rule);
       && entry.Some?
       && UnusedOf(entry.value, Found(items, u.file, u.rule), u)
  }

  predicate UnusedOf(entry: Entry, found: multiset<string>, u: Finding) {
    && u.entity in UnusedKeys(entry, found)
    && u.allowed == AllowedFor(entry, u.entity)
    && u.found == FoundFor(entry, found, u.entity)
  }

  predicate IsExceeded(file: File, items: seq<Diagnostic>, e: Finding) {
    var entry := Lookup(file, e.file, e.rule);
    entry.Some? && ExceededOf(entry.value, Found(items, e.file, e.rule), e)
  }

  predicate ExceededOf(entry: Entry, found: multiset<string>, e: Finding) {
    && e.entity in ExceededKeys(entry, found)
    && e.allowed == (if entry.entities != map[] && e.entity == "" then 0 else AllowedFor(entry, e.entity))
    && e.found == FoundFor(entry, found, e.entity)
  }

  /** compareKeys: by file, rule and entity. */
  function CompareKeys(a: Finding, b: Finding): int {
    var c := Compare(a.file, b.file);
    if c != 0 then c
    else
      var d := Compare(a.rule, b.rule);
      if d != 0 then d else Compare(a.entity, b.entity)
  }

  predicate SameKey(a: Finding, b: Finding) {
    a.file == b.file && a.rule == b.rule && a.entity == b.entity
  }

  lemma CompareKeysIsOrder(a: Finding, b: Finding, c: Finding)
    ensures CompareKeys(a, b) == -CompareKeys(b, a)
    ensures CompareKeys(a, b) == 0 <==> SameKey(a, b)
    ensures Transitive(CompareKeys(a, b), CompareKeys(b, c), CompareKeys(a, c))
  {
    CompareAntisymmetric(a.file, b.file); CompareAntisymmetric(a.rule, b.rule);
    CompareAntisymmetric(a.entity, b.entity);
    CompareIsEquality(a.file, b.file); CompareIsEquality(a.rule, b.rule); CompareIsEquality(a.entity, b.entity);
    CompareTransitive(a.file, b.file, c.file); CompareTransitive(a.rule, b.rule, c.rule);
    CompareTransitive(a.entity, b.entity, c.entity);
  }

  /** Strictly ascending, so no two findings have the same key. */
  predicate Ascending(s: seq<Finding>) {
    forall i, j :: 0 <= i < j < |s| ==> CompareKeys(s[i], s[j]) < 0
  }

  /** What Apply returns, in terms of the groups only. */
  ghost predicate IsResult(file: File, items: seq<Diagnostic>, scope: Scope, result: Result) {
    && result.reported == Picked(file, items, |items|, false)
    && result.suppressed == Picked(file, items, |items|, true)
    && Ascending(result.unused)
    && (forall u :: u in result.unused <==> IsUnused(file, items, scope, u))
    && Ascending(result.exceeded)
    && (forall e :: e in result.exceeded <==> IsExceeded(file, items, e))
  }

  /** There is one ascending order of a set of findings. */
  lemma {:induction false} AscendingIsUnique(a: seq<Finding>, b: seq<Finding>)
    requires Ascending(a) && Ascending(b)
    requires forall x :: x in a <==> x in b
    ensures a == b
  {
    if a != [] || b != [] {
      assert (a != [] ==> a[0] in b) && (b != [] ==> b[0] in a);
      CompareKeysIsOrder(a[0], b[0], a[0]);
      assert a[0] == b[0];
      forall x ensures x in a[1..] <==> x in b[1..] {
        CompareKeysIsOrder(a[0], a[0], a[0]);
        assert x in a[1..] <==> x in a && x != a[0];
        assert x in b[1..] <==> x in b && x != b[0];
      }
      AscendingIsUnique(a[1..], b[1..]);
    }
  }

  /** Apply has one result, whatever the order in which the maps are iterated. */
  lemma ResultIsUnique(file: File, items: seq<Diagnostic>, scope: Scope, a: Result, b: Result)
    requires IsResult(file, items, scope, a) && IsResult(file, items, scope, b)
    ensures a == b
  {
    AscendingIsUnique(a.unused, b.unused);
    AscendingIsUnique(a.exceeded, b.exceeded);
  }

  lemma {:induction false} SelectSplits(
    items: seq<Diagnostic>, n: nat, wanted: Diagnostic -> bool, unwanted: Diagnostic -> bool)
    requires n <= |items| && forall item {:trigger wanted(item)} :: wanted(item) != unwanted(item)
    ensures multiset(Select(items, n, wanted)) + multiset(Select(items, n, unwanted)) == multiset(items[..n])
  {
    if n > 0 {
      SelectSplits(items, n - 1, wanted, unwanted);
      assert items[..n] == items[..n - 1] + [items[n - 1]];
    }
  }

  /** Reported and suppressed diagnostics together are the input. */
  lemma PickedIsPartition(file: File, items: seq<Diagnostic>)
    ensures multiset(Picked(file, items, |items|, true)) + multiset(Picked(file, items, |items|, false)) ==
            multiset(items)
  {
    SelectSplits(items, |items|,
                 item => IsSuppressed(file, items, item) == true, item => IsSuppressed(file, items, item) == false);
    assert items[..|items|] == items;
  }

  /** When all diagnostics that count are selected, or none, the selection counts as much as all, or as nothing. */
  lemma {:induction false} TallyOfSelected(
    items: seq<Diagnostic>, n: nat, wanted: Diagnostic -> bool, tally: seq<Diagnostic> -> nat,
    counts: Diagnostic -> nat, all: bool)
    requires n <= |items| && tally([]) == 0
    requires forall s, item {:trigger tally(s + [item])} :: tally(s + [item]) == tally(s) + counts(item)
    requires forall item {:trigger wanted(item)} :: 0 < counts(item) ==> wanted(item) == all
    ensures tally(Select(items, n, wanted)) == if all then tally(items[..n]) else 0
  {
    if n == 0 {
      assert items[..n] == [];
    } else {
      TallyOfSelected(items, n - 1, wanted, tally, counts, all);
      var item := items[n - 1];
      assert items[..n] == items[..n - 1] + [item];
      if wanted(item) {
        assert Select(items, n, wanted) == Select(items, n - 1, wanted) + [item];
      }
    }
  }

  /** Of a group, the suppressed diagnostics are all with a suppressed key. */
  lemma FoundSuppressed(file: File, items: seq<Diagnostic>, path: string, rule: string, key: string)
    ensures Found(Picked(file, items, |items|, true), path, rule)[key] ==
            if SuppressesKey(file, items, path, rule, key) then Found(items, path, rule)[key] else 0
  {
    var tally: seq<Diagnostic> -> nat := s => Found(s, path, rule)[key];
    var counts: Diagnostic -> nat := item => if InGroup(item, path, rule) && KeyOf(item) == key then 1 else 0;
    forall s, item ensures tally(s + [item]) == tally(s) + counts(item) {
      FoundOfAppended(s, item, path, rule);
    }
    TallyOfSelected(items, |items|, item => IsSuppressed(file, items, item) == true, tally, counts,
                    SuppressesKey(file, items, path, rule, key));
    assert items[..|items|] == items;
  }

  lemma {:induction false} SelectSame(
    items: seq<Diagnostic>, n: nat, wanted: Diagnostic -> bool, wanted': Diagnostic -> bool)
    requires n <= |items| && forall item :: item in items ==> wanted(item) == wanted'(item)
    ensures Select(items, n, wanted) == Select(items, n, wanted')
  {
    if n > 0 {
      SelectSame(items, n - 1, wanted, wanted');
      assert items[n - 1] in items;
    }
  }

  /** Files that suppress the same diagnostics report and suppress the same. */
  lemma SamePicked(a: File, b: File, items: seq<Diagnostic>, suppressed: bool)
    requires forall item :: item in items ==> (IsSuppressed(a, items, item) <==> IsSuppressed(b, items, item))
    ensures Picked(a, items, |items|, suppressed) == Picked(b, items, |items|, suppressed)
  {
    SelectSame(items, |items|,
               item => IsSuppressed(a, items, item) == suppressed, item => IsSuppressed(b, items, item) == suppressed);
  }

  lemma {:induction false} SelectHas(items: seq<Diagnostic>, n: nat, wanted: Diagnostic -> bool, item: Diagnostic)
    requires n <= |items|
    ensures item in Select(items, n, wanted) <==> item in items[..n] && wanted(item)
  {
    if n > 0 {
      SelectHas(items, n - 1, wanted, item);
      assert items[..n] == items[..n - 1] + [items[n - 1]];
    }
  }

  lemma PickedHas(file: File, items: seq<Diagnostic>, suppressed: bool, item: Diagnostic)
    ensures item in Picked(file, items, |items|, suppressed) <==>
            item in items && IsSuppressed(file, items, item) == suppressed
  {
    SelectHas(items, |items|, item => IsSuppressed(file, items, item) == suppressed, item);
    assert items[..|items|] == items;
  }
}
