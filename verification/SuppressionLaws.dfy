/** Laws across Apply, Record, Prune and Limit. */
module SuppressionLaws {
  import opened Basics
  import opened SuppressionEntries
  import opened Suppressions
  import opened SuppressionUpdates
  import opened SuppressionLimits

  /** Whether a diagnostic is a candidate of an entry of a deleted file. */
  predicate IsGoneFor(scope: Scope, present: string -> bool, item: Diagnostic) {
    IsCandidate(item) && IsGone(scope, present, NormalizePath(item.file.value), item.rule)
  }

  /** Pruning is one function of its inputs, whatever the order of iteration. */
  lemma PruneIsUnique(
    file: File, items: seq<Diagnostic>, scope: Scope, present: string -> bool, a: File, b: File)
    requires IsPruned(file, items, scope, present, a) && IsPruned(file, items, scope, present, b)
    ensures a == b
  {
    forall f, r ensures Lookup(a, f, r) == Lookup(b, f, r) {
      assert Lookup(a, f, r) == PrunedLookup(file, items, scope, present, f, r);
    }
    forall f ensures f in a.Keys <==> f in b.Keys {
      EmptyOrNot(a, f);
      EmptyOrNot(b, f);
    }
    SameLookups(a, b);
  }

  /** A pruned file is valid and no entry allows more than before. */
  lemma PruneNeverRaises(file: File, items: seq<Diagnostic>, scope: Scope, present: string -> bool, pruned: File)
    requires ValidFile(file) && IsPruned(file, items, scope, present, pruned)
    ensures ValidFile(pruned)
    ensures forall f, r :: Lookup(pruned, f, r).Some? ==>
              Lookup(file, f, r).Some? && AtMost(Lookup(pruned, f, r).value, Lookup(file, f, r).value)
  {
    forall f, r | Lookup(pruned, f, r).Some?
      ensures Lookup(file, f, r).Some? && Valid(Lookup(pruned, f, r).value)
      ensures AtMost(Lookup(pruned, f, r).value, Lookup(file, f, r).value)
    {
      assert Lookup(pruned, f, r) == PrunedLookup(file, items, scope, present, f, r);
      LoweredIsAtMost(Lookup(file, f, r).value, Found(items, f, r));
    }
  }

  /** After pruning, the same run finds nothing unused. */
  lemma PruneLeavesNothingUnused(
    file: File, items: seq<Diagnostic>, scope: Scope, present: string -> bool, pruned: File, u: Finding)
    requires ValidFile(file) && IsPruned(file, items, scope, present, pruned)
    ensures !IsUnused(pruned, items, scope, u)
  {
    assert Lookup(pruned, u.file, u.rule) == PrunedLookup(file, items, scope, present, u.file, u.rule);
    if Lookup(pruned, u.file, u.rule).Some? && scope.Covers(u.file, u.rule) {
      LoweredIsUsed(Lookup(file, u.file, u.rule).value, Found(items, u.file, u.rule));
    }
  }

  /** Pruning keeps exactly the suppressions that are not of deleted files. */
  lemma PruneKeepsSuppressions(
    file: File, items: seq<Diagnostic>, scope: Scope, present: string -> bool, pruned: File, item: Diagnostic)
    requires ValidFile(file) && IsPruned(file, items, scope, present, pruned) && item in items
    ensures IsSuppressed(pruned, items, item) <==>
            IsSuppressed(file, items, item) && !IsGoneFor(scope, present, item)
  {
    if IsCandidate(item) {
      var f, r, key := NormalizePath(item.file.value), item.rule, KeyOf(item);
      assert Lookup(pruned, f, r) == PrunedLookup(file, items, scope, present, f, r);
      var i :| 0 <= i < |items| && items[i] == item;
      FoundHas(items, i, f, r);
      if Lookup(file, f, r).Some? {
        LoweredSuppressesSame(Lookup(file, f, r).value, Found(items, f, r), key);
      }
    }
  }

  /**
   * Applying the pruned file suppresses and reports the same diagnostics,
   * exactly when no suppressed diagnostic is in a file that Prune takes to
   * be deleted, and it reports no unused entry.
   */
  lemma PruneKeepsResult(file: File, items: seq<Diagnostic>, scope: Scope, present: string -> bool, pruned: File,
                         before: Result, after: Result)
    requires ValidFile(file) && IsPruned(file, items, scope, present, pruned)
    requires IsResult(file, items, scope, before) && IsResult(pruned, items, scope, after)
    ensures after.unused == []
    ensures (after.suppressed == before.suppressed && after.reported == before.reported) <==>
            forall item :: item in before.suppressed ==> !IsGoneFor(scope, present, item)
  {
    if after.unused != [] {
      var u := after.unused[0];
      assert u in after.unused;
      PruneLeavesNothingUnused(file, items, scope, present, pruned, u);
      assert false;
    }
    forall item | item in items ensures item in before.suppressed <==> IsSuppressed(file, items, item) {
      PickedHas(file, items, true, item);
    }
    forall item | item in items
      ensures IsSuppressed(pruned, items, item) <==>
              IsSuppressed(file, items, item) && !IsGoneFor(scope, present, item)
    {
      PruneKeepsSuppressions(file, items, scope, present, pruned, item);
    }
    if forall item :: item in before.suppressed ==> !IsGoneFor(scope, present, item) {
      SamePicked(file, pruned, items, true);
      SamePicked(file, pruned, items, false);
    } else {
      var item :| item in before.suppressed && IsGoneFor(scope, present, item);
      PickedHas(file, items, true, item);
      PickedHas(pruned, items, true, item);
    }
  }

  /** When the run analyzed the file of every candidate, pruning changes nothing of the result. */
  lemma PruneOfAnalyzedFiles(file: File, items: seq<Diagnostic>, scope: Scope, present: string -> bool, pruned: File,
                             before: Result, after: Result)
    requires ValidFile(file) && IsPruned(file, items, scope, present, pruned)
    requires IsResult(file, items, scope, before) && IsResult(pruned, items, scope, after)
    requires forall item :: item in items && IsCandidate(item) ==> NormalizePath(item.file.value) in scope.files
    ensures after.unused == [] && after.suppressed == before.suppressed && after.reported == before.reported
  {
    forall item | item in before.suppressed ensures !IsGoneFor(scope, present, item) {
      PickedHas(file, items, true, item);
    }
    PruneKeepsResult(file, items, scope, present, pruned, before, after);
  }

  /** A suppressed violation in a file that the run did not analyze and that is not there: it is reported after
      pruning. */
  lemma PruneCanReport(message: string)
    ensures var item := Diagnostic(ArchitectureViolation, Error, Some("a.ts"), "r", None, message);
            var file, scope := map["a.ts" := map["r" := Entry(1, map[])]], Scope({}, {"r"}, {"r"}, true);
            && ValidFile(file) && IsPruned(file, [item], scope, path => false, map[])
            && IsSuppressed(file, [item], item) && IsGoneFor(scope, path => false, item)
            && !IsSuppressed(map[], [item], item)
  {
    var item := Diagnostic(ArchitectureViolation, Error, Some("a.ts"), "r", None, message);
    var file: File := map["a.ts" := map["r" := Entry(1, map[])]];
    assert Lookup(file, "a.ts", "r") == Some(Entry(1, map[]));
    FoundOfAppended([], item, "a.ts", "r");
    assert [] + [item] == [item];
    assert |Found([item], "a.ts", "r")| == 1;
  }

  /** Pruning twice is pruning once. */
  lemma PruneIsIdempotent(file: File, items: seq<Diagnostic>, scope: Scope, present: string -> bool,
                          once: File, twice: File)
    requires ValidFile(file)
    requires IsPruned(file, items, scope, present, once) && IsPruned(once, items, scope, present, twice)
    ensures twice == once
  {
    forall f, r
      ensures Lookup(once, f, r) == PrunedLookup(once, items, scope, present, f, r)
    {
      assert Lookup(once, f, r) == PrunedLookup(file, items, scope, present, f, r);
      if Lookup(once, f, r).Some? && scope.Covers(f, r) {
        LoweredIsUsed(Lookup(file, f, r).value, Found(items, f, r));
      }
    }
    PruneIsUnique(once, items, scope, present, once, twice);
  }

  /** Limiting is one function of its inputs. */
  lemma LimitIsUnique(file: File, locked: File, a: File, b: File)
    requires IsLimited(file, locked, a) && IsLimited(file, locked, b)
    ensures a == b
  {
    forall f, r ensures Lookup(a, f, r) == Lookup(b, f, r) {
      assert Lookup(a, f, r) == LimitedLookup(file, locked, f, r);
    }
    forall f ensures f in a.Keys <==> f in b.Keys {
      assert f in a <==> f in b;
    }
    SameLookups(a, b);
  }

  /** Limit changes the file exactly when it reports a failure, which it does when some entry exceeds the lock. */
  lemma LimitChangesOnlyFailures(file: File, locked: File, limited: File, failures: seq<Failure>)
    requires IsLimited(file, locked, limited) && AreFailures(file, locked, failures)
    ensures limited == file <==> failures == []
    ensures failures == [] <==> forall failure :: !IsFailure(file, locked, failure)
  {
    if failures == [] {
      forall f, r ensures Lookup(file, f, r) == LimitedLookup(file, locked, f, r) {
        assert Failure(f, r) !in failures;
      }
      forall f | f in file && file[f] != map[] ensures exists r :: LimitedLookup(file, locked, f, r).Some? {
        EmptyOrNot(file, f);
        var r :| Lookup(file, f, r).Some?;
        assert LimitedLookup(file, locked, f, r).Some?;
      }
      LimitIsUnique(file, locked, limited, file);
    } else {
      var failure := failures[0];
      assert failure in failures && IsFailure(file, locked, failure);
      assert Lookup(limited, failure.file, failure.rule) == LimitedLookup(file, locked, failure.file, failure.rule);
    }
  }

  /** Limiting twice is limiting once, and the second time nothing fails. */
  lemma LimitIsIdempotent(file: File, locked: File, once: File, twice: File, failures: seq<Failure>)
    requires IsLimited(file, locked, once)
    requires IsLimited(once, locked, twice) && AreFailures(once, locked, failures)
    ensures failures == [] && twice == once
  {
    forall failure ensures !IsFailure(once, locked, failure) {
      assert Lookup(once, failure.file, failure.rule) == LimitedLookup(file, locked, failure.file, failure.rule);
    }
    LimitChangesOnlyFailures(once, locked, twice, failures);
  }

  lemma LimitKeepsValid(file: File, locked: File, limited: File)
    requires ValidFile(file) && ValidFile(locked) && IsLimited(file, locked, limited)
    ensures ValidFile(limited)
  {
    forall f, r | Lookup(limited, f, r).Some? ensures Valid(Lookup(limited, f, r).value) {
      assert Lookup(limited, f, r) == LimitedLookup(file, locked, f, r);
    }
  }

  /** What is within the lock: nothing without a locked entry, and else its count and its entity counts. */
  ghost predicate IsWithin(suppressed: multiset<string>, locked: Option<Entry>) {
    match locked
    case None => suppressed == multiset{}
    case Some(entry) =>
      && |suppressed| <= entry.count
      && (entry.entities != map[] ==> forall k :: suppressed[k] <= Allowed(entry, k))
  }

  /** An entry that Limit keeps fits its lock; every entry that Parse accepts does. */
  ghost predicate FitsLock(file: File, locked: File, path: string, rule: string) {
    var entry, lock := Lookup(file, path, rule), Lookup(locked, path, rule);
    entry.Some? && lock.Some? && AtMost(entry.value, lock.value) ==> Fits(entry.value, lock.value)
  }

  lemma ValidFitsLock(file: File, locked: File, path: string, rule: string)
    requires ValidFile(file)
    ensures FitsLock(file, locked, path, rule)
  {
    var entry, lock := Lookup(file, path, rule), Lookup(locked, path, rule);
    if entry.Some? && lock.Some? && AtMost(entry.value, lock.value) {
      ValidFits(entry.value, lock.value);
    }
  }

  /** Whatever the file says, what Apply suppresses after Limit is within the lock for every file and rule. */
  lemma LimitedSuppressesWithinLock(
    file: File, locked: File, limited: File, items: seq<Diagnostic>, path: string, rule: string)
    requires ValidFile(locked) && IsLimited(file, locked, limited) && FitsLock(file, locked, path, rule)
    ensures IsWithin(Found(Picked(limited, items, |items|, true), path, rule), Lookup(locked, path, rule))
  {
    var suppressed := Found(Picked(limited, items, |items|, true), path, rule);
    var found := Found(items, path, rule);
    forall k ensures suppressed[k] == if SuppressesKey(limited, items, path, rule, k) then found[k] else 0 {
      FoundSuppressed(limited, items, path, rule, k);
    }
    assert Lookup(limited, path, rule) == LimitedLookup(file, locked, path, rule);
    if Lookup(limited, path, rule).Some? {
      var entry, lock := Lookup(limited, path, rule).value, Lookup(locked, path, rule).value;
      if entry == lock {
        ValidFits(entry, lock);
      }
      SuppressedWithin(entry, lock, found, suppressed);
    } else {
      assert suppressed == multiset{};
    }
  }

  /** A pruned file is within the file it was pruned from. */
  lemma PruneStaysWithinOriginal(file: File, items: seq<Diagnostic>, scope: Scope, present: string -> bool,
                                 pruned: File, limited: File, failures: seq<Failure>)
    requires ValidFile(file) && IsPruned(file, items, scope, present, pruned)
    requires IsLimited(pruned, file, limited) && AreFailures(pruned, file, failures)
    ensures failures == [] && limited == pruned
  {
    PruneNeverRaises(file, items, scope, present, pruned);
    forall failure ensures !IsFailure(pruned, file, failure) {
      assert Lookup(pruned, failure.file, failure.rule).Some? ==>
               AtMost(Lookup(pruned, failure.file, failure.rule).value, Lookup(file, failure.file, failure.rule).value);
    }
    LimitChangesOnlyFailures(pruned, file, limited, failures);
  }

  lemma RecordKeepsValid(file: File, items: seq<Diagnostic>, rules: Option<seq<string>>, recorded: File)
    requires ValidFile(file) && IsRecorded(file, items, rules, recorded)
    ensures ValidFile(recorded)
  {
    forall f, r | Lookup(recorded, f, r).Some? ensures Valid(Lookup(recorded, f, r).value) {
      assert Lookup(recorded, f, r) == RecordedLookup(file, items, rules, f, r);
      if Found(items, f, r) != multiset{} {
        RecordedFitsExactly(Found(items, f, r));
      }
    }
  }

  /** A recorded group is neither unused nor exceeded. */
  lemma RecordedGroupsFit(file: File, items: seq<Diagnostic>, rules: Option<seq<string>>, recorded: File,
                          scope: Scope, finding: Finding)
    requires IsRecorded(file, items, rules, recorded)
    requires IsSelected(rules, finding.rule) && Found(items, finding.file, finding.rule) != multiset{}
    ensures !IsUnused(recorded, items, scope, finding) && !IsExceeded(recorded, items, finding)
  {
    var f, r := finding.file, finding.rule;
    assert Lookup(recorded, f, r) == RecordedLookup(file, items, rules, f, r);
    RecordedFitsExactly(Found(items, f, r));
  }

  /** After recording, no candidate of a recorded rule is reported. */
  lemma RecordedAreNotReported(file: File, items: seq<Diagnostic>, rules: Option<seq<string>>, recorded: File,
                               scope: Scope, result: Result, item: Diagnostic)
    requires IsRecorded(file, items, rules, recorded) && IsResult(recorded, items, scope, result)
    ensures item in result.reported ==> !(IsCandidate(item) && IsSelected(rules, item.rule))
  {
    PickedHas(recorded, items, false, item);
    if item in result.reported && IsCandidate(item) && IsSelected(rules, item.rule) {
      var f, r := NormalizePath(item.file.value), item.rule;
      var i :| 0 <= i < |items| && items[i] == item;
      FoundHas(items, i, f, r);
      assert Lookup(recorded, f, r) == RecordedLookup(file, items, rules, f, r);
      RecordedFitsExactly(Found(items, f, r));
      assert false;
    }
  }
}
