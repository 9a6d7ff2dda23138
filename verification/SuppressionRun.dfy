/** How a run updates the suppressions file, limits it by the rules lock, and applies it. */
module SuppressionRun {
  import opened Basics
  import opened Ordering
  import opened SuppressionEntries
  import opened Suppressions
  import opened SuppressionApply
  import opened SuppressionUpdates
  import opened SuppressionLimits
  import opened SuppressionLaws

  /** defaultRules: the rule glob is the default one and the severity is error. */
  datatype Options = Options(
    suppressAll: bool,
    suppressRules: seq<string>,
    prune: bool,
    defaultRules: bool,
    passOnUnused: bool)
  {
    predicate Updates() {
      suppressAll || suppressRules != [] || prune
    }

    /** The rules to record, when the options ask for recording. */
    function Recorded(): Option<seq<string>> {
      if suppressAll then None else Some(suppressRules)
    }
  }

  /** What the rule evaluation tells; the lock is the suppressions of the rules lock. */
  datatype Evaluation = Evaluation(
    files: set<string>,
    evaluated: set<string>,
    known: set<string>,
    complete: bool,
    lock: Option<File>)

  datatype Outcome = Outcome(
    written: Option<File>,
    diagnostics: seq<Diagnostic>,
    suppressed: seq<Diagnostic>,
    unused: seq<Finding>)

  function RuleError(rule: string): Diagnostic {
    Diagnostic(RuleExecutionError, Error, None, rule, None, "")
  }

  function UnusedDiagnostic(u: Finding): Diagnostic {
    Diagnostic(UnusedSuppression, Error, Some(u.file), u.rule, if u.entity == "" then None else Some(u.entity), "")
  }

  /** A rule error that stops an update of the suppressions file. */
  predicate Blocks(suppressRules: seq<string>, known: set<string>, item: Diagnostic) {
    && item.kind == RuleExecutionError
    && (suppressRules == [] || item.rule in suppressRules || item.rule !in known)
  }

  method BlockingRuleErrors(suppressRules: seq<string>, items: seq<Diagnostic>, known: set<string>)
    returns (count: nat)
    ensures count == |set i | 0 <= i < |items| && Blocks(suppressRules, known, items[i])|
  {
    count := 0;
    ghost var blocking: set<nat> := {};
    for n := 0 to |items|
      invariant blocking == set i | 0 <= i < n && Blocks(suppressRules, known, items[i])
      invariant count == |blocking|
    {
      if items[n].kind != RuleExecutionError {
        continue;
      }
      if suppressRules == [] || items[n].rule in suppressRules || items[n].rule !in known {
        count := count + 1;
        blocking := blocking + {n};
      }
    }
    assert blocking == set i | 0 <= i < |items| && Blocks(suppressRules, known, items[i]);
  }

  /** The ids of --suppress-rule that name no loaded rule, each once and sorted. */
  method UnknownSuppressRules(suppressRules: seq<string>, known: set<string>) returns (ids: seq<string>)
    ensures AscendingStrings(ids) && forall id :: id in ids <==> id in suppressRules && id !in known
  {
    ids := [];
    for n := 0 to |suppressRules|
      invariant forall id :: id in ids <==> id in suppressRules[..n] && id !in known
      invariant forall i, j :: 0 <= i < j < |ids| ==> ids[i] != ids[j]
    {
      var id := suppressRules[n];
      if id !in known && id !in ids {
        ids := ids + [id];
      }
    }
    ids := OrderedStrings(ids);
  }

  predicate HasRuleError(items: seq<Diagnostic>) {
    exists item :: item in items && item.kind == RuleExecutionError
  }

  function ScopeOf(options: Options, run: Evaluation, items: seq<Diagnostic>): Scope {
    Scope(run.files, run.evaluated, run.known, options.defaultRules && !HasRuleError(items))
  }

  /** The update is refused for an unknown rule or a rule that could not run. */
  ghost predicate IsRefused(options: Options, run: Evaluation, items: seq<Diagnostic>) {
    || (run.complete && exists id :: id in options.suppressRules && id !in run.known)
    || (exists item :: item in items && Blocks(options.suppressRules, run.known, item))
  }

  /** The suppressions file after the update, if the options ask for one and it is not refused. */
  ghost predicate IsUpdated(
    options: Options, run: Evaluation, items: seq<Diagnostic>, present: string -> bool, file: File, updated: File)
  {
    if !options.Updates() || IsRefused(options, run, items) then updated == file
    else if options.suppressAll || options.suppressRules != [] then IsRecorded(file, items, options.Recorded(), updated)
    else IsPruned(file, items, ScopeOf(options, run, items), present, updated)
  }

  /** What is written: the updated file, unless there is nothing to write or the update is refused. */
  ghost function Written(
    options: Options, run: Evaluation, items: seq<Diagnostic>, fileExists: bool, updated: File): Option<File>
  {
    if !options.Updates() || IsRefused(options, run, items) then None
    else if options.suppressAll || options.suppressRules != [] || fileExists then Some(updated)
    else None
  }

  method Update(options: Options, run: Evaluation, items: seq<Diagnostic>, scope: Scope, present: string -> bool,
                file: File, fileExists: bool, unknown: seq<string>)
    returns (updated: File, written: Option<File>)
    requires ValidFile(file) && scope == ScopeOf(options, run, items)
    requires forall id :: id in unknown <==> run.complete && id in options.suppressRules && id !in run.known
    ensures IsUpdated(options, run, items, present, file, updated) && ValidFile(updated)
    ensures written == Written(options, run, items, fileExists, updated)
  {
    updated, written := file, None;
    if options.Updates() {
      if unknown != [] {
        assert unknown[0] in unknown;
        return;
      }
      var blocked := BlockingRuleErrors(options.suppressRules, items, run.known);
      BlockedOrNot(options.suppressRules, items, run.known);
      if 0 < blocked {
        return;
      }
      if options.suppressAll || options.suppressRules != [] {
        updated := Record(file, items, options.Recorded());
        RecordKeepsValid(file, items, options.Recorded(), updated);
      } else {
        updated := Prune(file, items, scope, present);
        PruneNeverRaises(file, items, scope, present, updated);
      }
      if options.suppressAll || options.suppressRules != [] || fileExists {
        written := Some(updated);
      }
    }
  }

  lemma BlockedOrNot(suppressRules: seq<string>, items: seq<Diagnostic>, known: set<string>)
    ensures (exists item :: item in items && Blocks(suppressRules, known, item)) <==>
            0 < |set i | 0 <= i < |items| && Blocks(suppressRules, known, items[i])|
  {
    var blocking := set i | 0 <= i < |items| && Blocks(suppressRules, known, items[i]);
    if exists item :: item in items && Blocks(suppressRules, known, item) {
      var item :| item in items && Blocks(suppressRules, known, item);
      var i :| 0 <= i < |items| && items[i] == item;
      assert i in blocking;
    }
    if 0 < |blocking| {
      var i :| i in blocking;
      assert items[i] in items;
    }
  }

  /** Diagnostics that are no candidates do not change what is found. */
  lemma {:induction false} FoundIgnores(items: seq<Diagnostic>, more: seq<Diagnostic>, path: string, rule: string)
    requires forall item :: item in more ==> !IsCandidate(item)
    ensures Found(items + more, path, rule) == Found(items, path, rule)
  {
    if more == [] {
      assert items + more == items;
    } else {
      var rest, last := more[..|more| - 1], more[|more| - 1];
      FoundIgnores(items, rest, path, rule);
      assert items + more == (items + rest) + [last];
      FoundOfAppended(items + rest, last, path, rule);
    }
  }

  function RuleErrors(rules: seq<string>): (items: seq<Diagnostic>)
    ensures forall item :: item in items ==> item.kind == RuleExecutionError
  {
    seq(|rules|, i requires 0 <= i < |rules| => RuleError(rules[i]))
  }

  /** The errors that a run adds to the diagnostics before it applies the file. */
  function AddedErrors(unknown: seq<string>, failures: seq<Failure>): (items: seq<Diagnostic>)
    ensures forall item :: item in items ==> item.kind == RuleExecutionError
  {
    RuleErrors(unknown) + RuleErrors(seq(|failures|, i requires 0 <= i < |failures| => failures[i].rule))
  }

  function UnusedDiagnostics(unused: seq<Finding>): (items: seq<Diagnostic>)
    ensures forall item :: item in items ==> !IsCandidate(item)
  {
    seq(|unused|, i requires 0 <= i < |unused| => UnusedDiagnostic(unused[i]))
  }

  /**
   * The stages of a run in order: update, limit, apply. The file is one that
   * Parse accepted, and so are the locked suppressions.
   */
  method ApplySuppressions(options: Options, run: Evaluation, items: seq<Diagnostic>, present: string -> bool,
                           file: File, fileExists: bool)
    returns (updated: File, limited: File, unknown: seq<string>, failures: seq<Failure>, applied: Result,
             outcome: Outcome)
    requires ValidFile(file) && (run.lock.Some? ==> ValidFile(run.lock.value))
    // The file is updated as the options say and written unless that is refused.
    ensures IsUpdated(options, run, items, present, file, updated)
    ensures outcome.written == Written(options, run, items, fileExists, updated)
    // One error for each unknown rule, then one for each entry over the lock, both in order; then the file is applied.
    ensures AscendingStrings(unknown)
    ensures forall id :: id in unknown <==> run.complete && id in options.suppressRules && id !in run.known
    ensures if run.lock.Some? then AreFailures(updated, run.lock.value, failures) else failures == []
    ensures IsResult(limited, items + AddedErrors(unknown, failures), ScopeOf(options, run, items), applied)
    ensures outcome.suppressed == applied.suppressed && outcome.unused == applied.unused
    ensures outcome.diagnostics ==
            applied.reported + if options.passOnUnused then [] else UnusedDiagnostics(applied.unused)
    // The lock limits what is applied, and so what is suppressed.
    ensures if run.lock.Some? then IsLimited(updated, run.lock.value, limited) else limited == updated
    ensures run.lock.Some? ==> forall f, r ::
              IsWithin(Found(outcome.suppressed, f, r), Lookup(run.lock.value, f, r))
    // Without a lock, recording everything leaves no candidate reported, and pruning leaves nothing unused.
    ensures run.lock.None? && options.suppressAll && !IsRefused(options, run, items) ==>
              forall item :: item in outcome.diagnostics ==> !IsCandidate(item)
    ensures (run.lock.None? && options.prune && !options.suppressAll && options.suppressRules == []) ==>
              (!IsRefused(options, run, items) ==> outcome.unused == [])
  {
    unknown, failures := [], [];
    if options.suppressRules != [] && run.complete {
      unknown := UnknownSuppressRules(options.suppressRules, run.known);
    }
    var scope := ScopeOf(options, run, items);
    var written;
    updated, written := Update(options, run, items, scope, present, file, fileExists, unknown);
    limited := updated;
    if run.lock.Some? {
      limited, failures := Limit(updated, run.lock.value);
    }
    var errors := AddedErrors(unknown, failures);
    applied := Apply(limited, items + errors, scope);
    var left := applied.reported;
    if !options.passOnUnused {
      left := left + UnusedDiagnostics(applied.unused);
    }
    outcome := Outcome(written, left, applied.suppressed, applied.unused);
    if run.lock.Some? {
      SuppressedIsWithinLock(updated, run.lock.value, limited, items + errors);
    } else if !IsRefused(options, run, items) {
      NothingLeft(options, run, items, errors, scope, present, file, updated, applied);
    }
  }

  lemma SuppressedIsWithinLock(updated: File, locked: File, limited: File, items: seq<Diagnostic>)
    requires ValidFile(updated) && ValidFile(locked) && IsLimited(updated, locked, limited)
    ensures forall f, r :: IsWithin(Found(Picked(limited, items, |items|, true), f, r), Lookup(locked, f, r))
  {
    forall f, r ensures IsWithin(Found(Picked(limited, items, |items|, true), f, r), Lookup(locked, f, r)) {
      ValidFitsLock(updated, locked, f, r);
      LimitedSuppressesWithinLock(updated, locked, limited, items, f, r);
    }
  }

  /** The rule errors that a run adds change neither what is recorded nor what is pruned. */
  lemma NothingLeft(options: Options, run: Evaluation, items: seq<Diagnostic>, more: seq<Diagnostic>, scope: Scope,
                    present: string -> bool, file: File, updated: File, applied: Result)
    requires ValidFile(file) && scope == ScopeOf(options, run, items)
    requires IsUpdated(options, run, items, present, file, updated) && !IsRefused(options, run, items)
    requires forall item :: item in more ==> !IsCandidate(item)
    requires IsResult(updated, items + more, scope, applied)
    ensures options.suppressAll ==> forall item :: item in applied.reported ==> !IsCandidate(item)
    ensures options.prune && !options.suppressAll && options.suppressRules == [] ==> applied.unused == []
  {
    forall f, r ensures Found(items + more, f, r) == Found(items, f, r) {
      FoundIgnores(items, more, f, r);
    }
    if options.suppressAll {
      assert IsRecorded(file, items + more, None, updated);
      forall item | item in applied.reported ensures !IsCandidate(item) {
        RecordedAreNotReported(file, items + more, None, updated, scope, applied, item);
      }
    } else if options.prune && options.suppressRules == [] && applied.unused != [] {
      assert IsPruned(file, items + more, scope, present, updated);
      var u := applied.unused[0];
      assert u in applied.unused;
      PruneLeavesNothingUnused(file, items + more, scope, present, updated, u);
      assert false;
    }
  }
}
