/** One entry of a suppressions file against the candidates of its file and rule. */
module SuppressionEntries {
  // The candidates are known here only by their semantic keys, so they are a multiset of strings;
  // the empty string stands for no key.

  import opened Basics

  /** The entities are counted by semantic key; no entities is the empty map. */
  datatype Entry = Entry(count: int, entities: map<string, int>)

  /** What the JSON of an entry may hold under "entities". */
  datatype RawEntities = Absent | Null | Object(counts: map<string, int>)

  datatype RawEntry = RawEntry(count: int, entities: RawEntities)

  ghost function Sum(m: map<string, int>): int {
    if m == map[] then 0
    else
      var k :| k in m;
      m[k] + Sum(m - {k})
  }

  lemma {:induction false} SumRemove(m: map<string, int>, k: string)
    requires k in m
    ensures Sum(m) == m[k] + Sum(m - {k})
    decreases |m|
  {
    var j :| j in m && Sum(m) == m[j] + Sum(m - {j});
    if j != k {
      SumRemove(m - {j}, k);
      SumRemove(m - {k}, j);
      assert m - {j} - {k} == m - {k} - {j};
    }
  }

  lemma SumInsert(m: map<string, int>, k: string, v: int)
    requires k !in m
    ensures Sum(m[k := v]) == Sum(m) + v
  {
    SumRemove(m[k := v], k);
    assert m[k := v] - {k} == m;
  }

  /** A part of a map with positive counts has a smaller sum. */
  lemma {:induction false} SumBelow(small: map<string, int>, large: map<string, int>)
    requires forall k :: k in small ==> k in large && small[k] <= large[k]
    requires forall k :: k in large ==> 0 <= large[k]
    ensures Sum(small) <= Sum(large)
    decreases |large|
  {
    if large == map[] {
      assert small == map[];
    } else {
      var k :| k in large;
      SumRemove(large, k);
      if k in small {
        SumRemove(small, k);
        SumBelow(small - {k}, large - {k});
      } else {
        SumBelow(small, large - {k});
      }
    }
  }

  lemma {:induction false} SumPositive(m: map<string, int>)
    requires m != map[] && forall k :: k in m ==> 0 < m[k]
    ensures 0 < Sum(m)
  {
    var k :| k in m;
    SumRemove(m, k);
    SumBelow(map[], m - {k});
  }

  /** The sum of the multiplicities is the size. */
  lemma {:induction false} SumOfCounts(t: multiset<string>, m: map<string, int>)
    requires forall k :: k in m <==> k in t
    requires forall k :: k in m ==> m[k] == t[k]
    ensures Sum(m) == |t|
    decreases |m|
  {
    if m == map[] {
      assert t == multiset{};
    } else {
      var k :| k in m;
      SumRemove(m, k);
      SumOfCounts(t[k := 0], m - {k});
    }
  }

  /** Keys that each stay within their count stay within the sum together. */
  lemma {:induction false} SizeWithinSum(s: multiset<string>, m: map<string, int>)
    requires forall k :: k in s ==> k in m && s[k] <= m[k]
    requires forall k :: k in m ==> 0 <= m[k]
    ensures |s| <= Sum(m)
    decreases |m|
  {
    if m == map[] {
      assert s == multiset{};
    } else {
      var k :| k in m;
      SumRemove(m, k);
      SizeWithinSum(s[k := 0], m - {k});
    }
  }

  /** An entry that Parse accepts. */
  ghost predicate Valid(entry: Entry) {
    && 0 < entry.count
    && (entry.entities != map[] ==>
          && (forall k :: k in entry.entities ==> k != "" && 0 < entry.entities[k])
          && Sum(entry.entities) == entry.count)
  }

  /** A raw entry that Parse accepts: an entities object that is there has at least one entity. */
  ghost predicate IsAcceptable(raw: RawEntry) {
    match raw.entities
    case Absent => 0 < raw.count
    case Null => false
    case Object(counts) => counts != map[] && Valid(Entry(raw.count, counts))
  }

  /**
   * The checks of Parse on one entry. Parse goes through the keys in
   * sorted order, which decides only which error is reported.
   */
  method ParseEntry(raw: RawEntry) returns (entry: Option<Entry>)
    ensures entry.Some? <==> IsAcceptable(raw)
    ensures entry.Some? ==> Valid(entry.value) && entry.value.count == raw.count
    ensures entry.Some? ==> entry.value.entities == if raw.entities.Object? then raw.entities.counts else map[]
  {
    if raw.entities.Null? || raw.count <= 0 {
      return None;
    }
    if raw.entities.Absent? {
      return Some(Entry(raw.count, map[]));
    }
    var counts := raw.entities.counts;
    var accepted := CheckCounts(counts, raw.count);
    return if accepted then Some(Entry(raw.count, counts)) else None;
  }

  predicate ArePositive(counts: map<string, int>) {
    forall k :: k in counts ==> k != "" && 0 < counts[k]
  }

  /** The checks of the entities against the count. */
  method CheckCounts(counts: map<string, int>, total: int) returns (accepted: bool)
    requires 0 < total
    ensures accepted <==> ArePositive(counts) && Sum(counts) == total
  {
    var sum, keys := 0, counts.Keys;
    ghost var seen: map<string, int> := map[];
    while keys != {}
      invariant keys <= counts.Keys && seen == map k | k in counts && k !in keys :: counts[k]
      invariant sum == Sum(seen) && 0 <= sum <= total && ArePositive(seen)
      decreases |keys|
    {
      var key :| key in keys;
      var value := counts[key];
      if key == "" || value <= 0 {
        return false;
      }
      SumInsert(seen, key, value);
      if total - sum < value {
        TooMuchIsUnacceptable(counts, seen[key := value], total);
        return false;
      }
      sum, keys := sum + value, keys - {key};
      seen := seen[key := value];
    }
    assert seen == counts;
    accepted := sum == total;
  }

  /** Once a part of the counts is over the total, no rest can bring it back. */
  lemma TooMuchIsUnacceptable(counts: map<string, int>, part: map<string, int>, count: int)
    requires forall k :: k in part ==> k in counts && part[k] == counts[k]
    requires count < Sum(part)
    ensures ArePositive(counts) ==> Sum(counts) > count
  {
    if ArePositive(counts) {
      SumBelow(part, counts);
    }
  }

  function Allowed(entry: Entry, key: string): int {
    if key in entry.entities then entry.entities[key] else 0
  }

  /** Whether the entry suppresses the candidates with this key. */
  predicate Suppresses(entry: Entry, found: multiset<string>, key: string) {
    if entry.entities == map[] then |found| <= entry.count
    else key != "" && 0 < Allowed(entry, key) && found[key] <= Allowed(entry, key)
  }

  /** The entities (the empty string for the whole entry) that allow more than was found. */
  function UnusedKeys(entry: Entry, found: multiset<string>): set<string> {
    if entry.entities == map[] then
      if |found| < entry.count then {""} else {}
    else
      set k | k in entry.entities && found[k] < entry.entities[k]
  }

  /** The entities for which more was found than the entry allows. */
  function ExceededKeys(entry: Entry, found: multiset<string>): set<string> {
    if entry.entities == map[] then
      if entry.count < |found| then {""} else {}
    else
      set k | k in found && !Suppresses(entry, found, k)
  }

  /** What the entry allows in total, or for one of its entities. */
  function AllowedFor(entry: Entry, key: string): int {
    if entry.entities == map[] then entry.count else Allowed(entry, key)
  }

  function FoundFor(entry: Entry, found: multiset<string>, key: string): nat {
    if entry.entities == map[] then |found| else found[key]
  }

  /** The entities of an entry once the given keys are lowered to what was found. */
  function LoweredEntities(entities: map<string, int>, found: multiset<string>, keys: set<string>): map<string, int> {
    map k | k in entities && !(k in keys && found[k] == 0) :: if k in keys then found[k] else entities[k]
  }

  /** The entry once the given keys are lowered; None once nothing is left of it. */
  ghost function LoweredBy(entry: Entry, found: multiset<string>, keys: set<string>): Option<Entry> {
    if entry.entities == map[] then
      if "" !in keys then Some(entry)
      else if |found| == 0 then None
      else Some(Entry(|found|, map[]))
    else
      var kept := LoweredEntities(entry.entities, found, keys);
      if kept == map[] then None else Some(Entry(Sum(kept), kept))
  }

  /** What pruning leaves of an entry. */
  ghost function Lowered(entry: Entry, found: multiset<string>): Option<Entry> {
    LoweredBy(entry, found, UnusedKeys(entry, found))
  }

  /** Entry b allows nothing that entry a does not allow. */
  predicate AtMost(b: Entry, a: Entry) {
    && b.count <= a.count
    && (a.entities != map[] ==> b.entities != map[])
    && (a.entities != map[] ==> forall k :: k in b.entities ==> b.entities[k] <= Allowed(a, k))
  }

  lemma LoweringNothing(entry: Entry, found: multiset<string>)
    requires Valid(entry)
    ensures LoweredBy(entry, found, {}) == Some(entry)
  {
    assert LoweredEntities(entry.entities, found, {}) == entry.entities;
  }

  /** Lowering keeps an entry valid and never raises a count. */
  lemma LoweredIsAtMost(entry: Entry, found: multiset<string>)
    requires Valid(entry)
    ensures var after := Lowered(entry, found);
            after.Some? ==> Valid(after.value) && AtMost(after.value, entry)
  {
    var kept := LoweredEntities(entry.entities, found, UnusedKeys(entry, found));
    if entry.entities != map[] && kept != map[] {
      SumPositive(kept);
      SumBelow(kept, entry.entities);
    }
  }

  /** After lowering nothing is unused, and lowering again changes nothing. */
  lemma LoweredIsUsed(entry: Entry, found: multiset<string>)
    requires Valid(entry)
    ensures var after := Lowered(entry, found);
            after.Some? ==> UnusedKeys(after.value, found) == {} && Lowered(after.value, found) == after
  {
    var after := Lowered(entry, found);
    if after.Some? {
      LoweredIsAtMost(entry, found);
      assert UnusedKeys(after.value, found) == {};
      LoweringNothing(after.value, found);
    }
  }

  /** Lowering suppresses the same candidates. */
  lemma LoweredSuppressesSame(entry: Entry, found: multiset<string>, key: string)
    requires Valid(entry) && key in found
    ensures var after := Lowered(entry, found);
            Suppresses(entry, found, key) <==> after.Some? && Suppresses(after.value, found, key)
  {
    if entry.entities != map[] {
      var kept := LoweredEntities(entry.entities, found, UnusedKeys(entry, found));
      if key in entry.entities {
        assert key in kept;
      }
    } else {
      assert 0 < |found|;
    }
  }

  /** Whether an entry allows more than the lock. */
  predicate Exceeds(entry: Entry, locked: Option<Entry>) {
    locked.None? || !AtMost(entry, locked.value)
  }

  function Limited(entry: Entry, locked: Option<Entry>): Option<Entry> {
    if Exceeds(entry, locked) then locked else Some(entry)
  }

  /** The entities with a positive count: the others suppress nothing. */
  function Positive(m: map<string, int>): map<string, int> {
    map k | k in m && k != "" && 0 < m[k] :: m[k]
  }

  /**
   * What Limit does not check: the entities of an entry under a lock without entities may add up to more than the
   * count. Parse does not accept such an entry.
   */
  ghost predicate Fits(entry: Entry, locked: Entry) {
    entry.entities != map[] && locked.entities == map[] ==> Sum(Positive(entry.entities)) <= locked.count
  }

  lemma ValidFits(entry: Entry, locked: Entry)
    requires Valid(entry) && AtMost(entry, locked)
    ensures Fits(entry, locked)
  {
    assert Positive(entry.entities) == entry.entities || entry.entities == map[];
  }

  /** What the entry suppresses of what was found. */
  ghost predicate IsSuppressedPart(entry: Entry, found: multiset<string>, suppressed: multiset<string>) {
    forall k :: suppressed[k] == if Suppresses(entry, found, k) then found[k] else 0
  }

  /**
   * What an entry within its lock suppresses is within the lock: in total,
   * and for each entity when the lock lists entities.
   */
  lemma SuppressedWithin(entry: Entry, locked: Entry, found: multiset<string>, suppressed: multiset<string>)
    requires Valid(locked) && AtMost(entry, locked) && Fits(entry, locked)
    requires IsSuppressedPart(entry, found, suppressed)
    ensures |suppressed| <= locked.count
    ensures locked.entities != map[] ==> forall k :: suppressed[k] <= Allowed(locked, k)
  {
    if entry.entities == map[] {
      if Suppresses(entry, found, "") {
        assert suppressed == found;
      } else {
        assert suppressed == multiset{};
      }
    } else {
      SizeWithinSum(suppressed, Positive(entry.entities));
      if locked.entities != map[] {
        SumBelow(Positive(entry.entities), locked.entities);
      }
    }
  }

  /** As many of each key as its count. */
  ghost function Copies(m: map<string, int>): (t: multiset<string>)
    requires forall k :: k in m ==> 0 < m[k]
    ensures forall k :: t[k] == if k in m then m[k] else 0
    ensures |t| == Sum(m)
  {
    if m == map[] then multiset{}
    else
      var k :| k in m && Sum(m) == m[k] + Sum(m - {k});
      Copies(m - {k})[k := m[k]]
  }

  /** So an entry within its lock stays within its count for all that can be found, if and only if it fits. */
  lemma FitsExactly(entry: Entry, locked: Entry)
    requires Valid(locked) && AtMost(entry, locked)
    ensures Fits(entry, locked) <==>
            forall found, suppressed :: IsSuppressedPart(entry, found, suppressed) ==> |suppressed| <= locked.count
  {
    if Fits(entry, locked) {
      forall found, suppressed | IsSuppressedPart(entry, found, suppressed) ensures |suppressed| <= locked.count {
        SuppressedWithin(entry, locked, found, suppressed);
      }
    } else {
      var all := Copies(Positive(entry.entities));
      assert IsSuppressedPart(entry, all, all);
    }
  }

  /** An entry that does not fit: two violations are suppressed under a lock that allows one. */
  lemma LockCanBeExceeded()
    ensures var entry, locked := Entry(1, map["f" := 2]), Entry(1, map[]);
            && Valid(locked) && AtMost(entry, locked) && !Fits(entry, locked)
            && IsSuppressedPart(entry, multiset{"f", "f"}, multiset{"f", "f"})
  {
    var entry := Entry(1, map["f" := 2]);
    assert Positive(entry.entities) == entry.entities;
    SumInsert(map[], "f", 2);
    assert map[]["f" := 2] == entry.entities;
  }

  /** The entry that records what was found: with entities when every candidate has a key. */
  function RecordedEntry(found: multiset<string>): Entry {
    Entry(|found|, if "" in found then map[] else map k | k in found :: found[k])
  }

  /** A recorded entry is valid, suppresses all it was recorded from, and fits it exactly. */
  lemma RecordedFitsExactly(found: multiset<string>)
    requires found != multiset{}
    ensures var entry := RecordedEntry(found);
            && Valid(entry)
            && (forall k :: k in found ==> Suppresses(entry, found, k))
            && UnusedKeys(entry, found) == {} && ExceededKeys(entry, found) == {}
  {
    assert 0 < |found|;
    if "" !in found {
      var entry := RecordedEntry(found);
      var k :| k in found;
      assert k in entry.entities;
      SumOfCounts(found, entry.entities);
    }
  }
}
