/** The state machine of the linter client (packages/client/src/client.ts). */
module Client {
  // Every call of the host and every callback (a timer, a settled promise, an exit of the serve
  // process) is a method; the class invariant holds between any two of them, so it holds over every
  // interleaving. What the serve process, the file system and the clock answer is chosen arbitrarily.

  import opened Basics

  datatype ClientState = Idle | Starting | Ready | Invalidated | Fallback | Disposed

  type Diagnostic = string

  /** One analysis of the workspace: the epoch of the rule files in which it was requested, when it
      started, and its diagnostics by file. */
  datatype Analysis = Analysis(epoch: nat, startedAt: int, byFile: map<string, seq<Diagnostic>>)

  /** A background refresh whose promise is not settled. */
  datatype Refresh = Refresh(targetEpoch: nat, startedAt: int)

  /** How a synchronous request ends. The serve process may also fail while the client reads its
      output, even after the answer. */
  datatype Outcome = Answered(byFile: map<string, seq<Diagnostic>>, failed: bool) | Rejected(failed: bool)

  const REFRESH_IDLE_MS := 750

  // ------------------------------------------------------------- saved-file reanalyses

  /** One look at a file's modification time, and whether it caused a reanalysis. */
  datatype Check = Check(file: string, modifiedAt: Option<int>, triggered: bool)

  /** The modification time that last caused a reanalysis for a file. */
  function LastTriggered(log: seq<Check>, file: string): Option<int> {
    if log == [] then None
    else if log[|log| - 1].triggered && log[|log| - 1].file == file then log[|log| - 1].modifiedAt
    else LastTriggered(log[..|log| - 1], file)
  }

  /** Every reanalysis was for a time other than that of the one before for its file. */
  predicate NeverRepeats(log: seq<Check>) {
    log == []
    || (var last := log[|log| - 1];
        && NeverRepeats(log[..|log| - 1])
        && (last.triggered ==> last.modifiedAt.Some? && last.modifiedAt != LastTriggered(log[..|log| - 1], last.file)))
  }

  function Triggers(log: seq<Check>, file: string): nat {
    if log == [] then 0
    else Triggers(log[..|log| - 1], file) + if log[|log| - 1].triggered && log[|log| - 1].file == file then 1 else 0
  }

  /** A file whose modification time does not change causes at most one reanalysis. */
  lemma {:induction false} UnchangedFileTriggersOnce(log: seq<Check>, file: string, modifiedAt: int)
    requires NeverRepeats(log)
    requires forall c <- log :: c.file == file ==> c.modifiedAt == Some(modifiedAt)
    ensures Triggers(log, file) <= 1
    ensures Triggers(log, file) == 1 ==> LastTriggered(log, file) == Some(modifiedAt)
  {
    if log != [] {
      var init := log[..|log| - 1];
      assert log == init + [log[|log| - 1]];
      UnchangedFileTriggersOnce(init, file, modifiedAt);
    }
  }

  /** The file was saved after the analysis whose diagnostics are shown started, and that version
      has not had its reanalysis. Times in whole seconds get a margin of one second. */
  predicate IsSaved(analyzedAt: int, savedVersions: map<string, int>, file: string, modifiedAt: Option<int>) {
    && modifiedAt.Some?
    && modifiedAt.value >= analyzedAt - (if modifiedAt.value % 1_000 == 0 then 1_000 else 0)
    && !(file in savedVersions && savedVersions[file] == modifiedAt.value)
  }

  /** The versions are those that last caused a reanalysis, and none caused two in a row. */
  ghost predicate AreLast(savedVersions: map<string, int>, checks: seq<Check>) {
    && NeverRepeats(checks)
    && forall f {:trigger LastTriggered(checks, f)} ::
         LastTriggered(checks, f) == if f in savedVersions then Some(savedVersions[f]) else None
  }

  /** The refreshes were started before now. */
  ghost predicate AreStarted(refreshes: map<nat, Refresh>, next: nat, epoch: nat, now: int) {
    forall r <- refreshes :: r < next && refreshes[r].targetEpoch <= epoch && refreshes[r].startedAt <= now
  }

  lemma OneMoreCheck(savedVersions: map<string, int>, checks: seq<Check>, check: Check)
    requires AreLast(savedVersions, checks)
    requires check.triggered ==>
               && check.modifiedAt.Some?
               && !(check.file in savedVersions && savedVersions[check.file] == check.modifiedAt.value)
    ensures AreLast(if check.triggered then savedVersions[check.file := check.modifiedAt.value] else savedVersions,
                    checks + [check])
  {
    assert (checks + [check])[..|checks|] == checks;
    assert LastTriggered(checks, check.file)
        == if check.file in savedVersions then Some(savedVersions[check.file]) else None;
  }

  // ------------------------------------------------------------------------- the client

  class LintAIClient {
    const oneshot: bool
    var state: ClientState
    var child: bool
    /** The analysis whose diagnostics are shown; its diagnostics are dropped by clearing it. */
    var diagnostics: Analysis
    var diagnosticsAnalyzedAt: int
    var oneshotCache: Option<Analysis>
    var analysisFailed: bool
    var analysisEpoch: nat
    var pendingRuleInvalidation: bool
    var ruleTimer: bool
    var lastDiagnosticsRequestAt: int
    var savedVersionsAnalyzed: map<string, int>
    var refreshInFlight: Option<nat>
    /** The background refreshes that were started and are not settled. */
    var refreshes: map<nat, Refresh>
    var nextRefresh: nat
    /** The last value of the clock. */
    var clock: int
    ghost var checks: seq<Check>

    constructor (oneshot: bool)
      ensures Valid() && state == Idle && checks == []
    {
      this.oneshot := oneshot;
      state, child := Idle, false;
      diagnostics, diagnosticsAnalyzedAt, oneshotCache, analysisFailed := Analysis(0, -1, map[]), -1, None, false;
      analysisEpoch, pendingRuleInvalidation, ruleTimer := 0, false, false;
      lastDiagnosticsRequestAt, savedVersionsAnalyzed := -1, map[];
      refreshInFlight, refreshes, nextRefresh := None, map[], 0;
      clock, checks := 0, [];
    }

    /** What holds at every point, also inside a call. */
    ghost predicate Consistent()
      reads this
    {
      && (diagnostics.byFile != map[] ==>
            diagnostics.epoch == analysisEpoch && diagnostics.startedAt == diagnosticsAnalyzedAt)
      && (oneshotCache.Some? ==> oneshotCache.value.epoch == analysisEpoch)
      && diagnosticsAnalyzedAt <= clock
      && AreStarted(refreshes, nextRefresh, analysisEpoch, clock)
      && AreLast(savedVersionsAnalyzed, checks)
    }

    /** What holds between two calls. */
    ghost predicate Valid()
      reads this
    {
      Consistent() && state != Starting
    }

    /** The clock is monotone, and so is the time of the analysis whose diagnostics are shown. */
    twostate predicate Later()
      reads this
    {
      && clock >= old(clock)
      && diagnosticsAnalyzedAt >= old(diagnosticsAnalyzedAt)
      && analysisEpoch >= old(analysisEpoch)
      && old(checks) <= checks
    }

    // ------------------------------------------------------------------- the environment

    method Now() returns (now: int)
      modifies this`clock
      ensures now == clock >= old(clock)
    {
      now :| now >= clock;
      clock := now;
    }

    /** Sends a request and waits for the answer. Without a serve process it is rejected at once. */
    method RequestSync() returns (outcome: Outcome)
      requires Consistent()
      modifies this`state, this`child, this`diagnostics, this`refreshInFlight, this`clock
      ensures Consistent() && Later()
      ensures outcome.failed ==> state == if old(state) == Disposed then Disposed else Fallback
      ensures !outcome.failed ==> state == old(state)
    {
      if !child {
        return Rejected(false);
      }
      outcome := *;
      if outcome.failed {
        HandleServeFailure();
      }
      var _ := Now();
    }

    // ----------------------------------------------------------------- results of analyses

    method SetDiagnostics(byFile: map<string, seq<Diagnostic>>, requestedIn: nat, analyzedAt: int)
      requires Consistent() && requestedIn == analysisEpoch && diagnosticsAnalyzedAt <= analyzedAt <= clock
      modifies this`diagnostics, this`diagnosticsAnalyzedAt, this`analysisFailed
      ensures Consistent() && diagnosticsAnalyzedAt == analyzedAt
      ensures diagnostics == Analysis(requestedIn, analyzedAt, byFile) && !analysisFailed
    {
      diagnostics := Analysis(requestedIn, analyzedAt, byFile);
      diagnosticsAnalyzedAt := analyzedAt;
      analysisFailed := false;
    }

    method SetReanalyzeFailure(startedAt: int)
      requires Consistent() && diagnosticsAnalyzedAt <= startedAt <= clock
      modifies this`diagnostics, this`diagnosticsAnalyzedAt, this`analysisFailed
      ensures Consistent() && diagnosticsAnalyzedAt == startedAt && diagnostics.byFile == map[] && analysisFailed
    {
      diagnostics := diagnostics.(byFile := map[]);
      analysisFailed := true;
      diagnosticsAnalyzedAt := startedAt;
    }

    /** The serve process cannot be used any more: the client falls back to single runs. */
    method HandleServeFailure()
      requires Consistent()
      modifies this`state, this`child, this`diagnostics, this`refreshInFlight
      ensures Consistent() && Later()
      ensures state == if old(state) == Disposed then Disposed else Fallback
      ensures old(state) == Fallback ==> child == old(child) && diagnostics == old(diagnostics)
      ensures old(state) != Fallback && old(state) != Disposed ==> !child && diagnostics.byFile == map[]
    {
      if state == Disposed || state == Fallback {
        return;
      }
      diagnostics := diagnostics.(byFile := map[]);
      child, refreshInFlight := false, None;
      state := Fallback;
    }

    /** What is shown comes from an analysis of this epoch that started no earlier. */
    predicate IsFresh(start: int)
      reads this`diagnostics, this`analysisEpoch
    {
      diagnostics.epoch == analysisEpoch && diagnostics.startedAt >= start
    }

    // ------------------------------------------------------------------ synchronous analyses

    /** Asks a new serve process for the first analysis. */
    method Initialize()
      requires Consistent() && state == Starting
      modifies this`state, this`child, this`diagnostics, this`diagnosticsAnalyzedAt, this`analysisFailed
      modifies this`refreshInFlight, this`clock
      ensures Valid() && Later()
      ensures state == Fallback || state == if pendingRuleInvalidation then Invalidated else Ready
      ensures state != Fallback ==> IsFresh(old(clock))
    {
      var startedAt := Now();
      var outcome := RequestSync();
      if outcome.Answered? {
        SetDiagnostics(outcome.byFile, analysisEpoch, startedAt);
        state := if pendingRuleInvalidation then Invalidated else Ready;
      } else {
        HandleServeFailure();
      }
    }

    /** Starts a serve process and asks for the first analysis. */
    method StartServe()
      requires Consistent() && state != Disposed
      modifies this`state, this`child, this`diagnostics, this`diagnosticsAnalyzedAt, this`analysisFailed
      modifies this`refreshInFlight, this`clock
      ensures Valid() && Later()
      ensures state == Fallback || state == if pendingRuleInvalidation then Invalidated else Ready
      ensures state != Fallback ==> IsFresh(old(clock))
    {
      state := Starting;
      var spawned: bool := *;
      if !spawned {
        HandleServeFailure();
        return;
      }
      child := true;
      Initialize();
    }

    method EnsureStarted()
      requires Valid()
      modifies this`state, this`child, this`diagnostics, this`diagnosticsAnalyzedAt, this`analysisFailed
      modifies this`refreshInFlight, this`clock
      ensures Valid() && Later()
      ensures old(state) in {Disposed, Ready, Invalidated, Fallback} ==>
                && state == old(state) && child == old(child) && diagnostics == old(diagnostics)
                && diagnosticsAnalyzedAt == old(diagnosticsAnalyzedAt) && analysisFailed == old(analysisFailed)
                && refreshInFlight == old(refreshInFlight) && clock == old(clock)
      ensures old(state) == Idle ==> if oneshot then state == Fallback else state == Fallback || IsFresh(old(clock))
    {
      if state == Disposed || state == Ready || state == Invalidated || state == Fallback {
        return;
      }
      if oneshot {
        state := Fallback;
        return;
      }
      StartServe();
    }

    /** After a change of the rule files: a new analysis, by a new process if the old one fails. */
    method RefreshInvalidatedDiagnosticsSync()
      requires Valid()
      modifies this`state, this`child, this`diagnostics, this`diagnosticsAnalyzedAt, this`analysisFailed
      modifies this`refreshInFlight, this`clock
      ensures Valid() && Later()
      ensures old(state) != Invalidated ==> state == old(state) && diagnostics == old(diagnostics)
      ensures old(state) == Invalidated && state == Ready ==> IsFresh(old(clock))
    {
      if state != Invalidated {
        return;
      }
      var targetEpoch := analysisEpoch;
      if !child {
        StartServe();
        return;
      }
      var startedAt := Now();
      var outcome := RequestSync();
      if outcome.Answered? {
        if targetEpoch != analysisEpoch || state != Invalidated {
          return;
        }
        SetDiagnostics(outcome.byFile, targetEpoch, startedAt);
        state := Ready;
      } else {
        child := false;
        StartServe();
      }
    }

    /** After a save: a new analysis before the lint of the saved file is answered. */
    method ReanalyzeSync()
      requires Valid() && state == Ready
      modifies this`state, this`child, this`diagnostics, this`diagnosticsAnalyzedAt, this`analysisFailed
      modifies this`refreshInFlight, this`clock, this`lastDiagnosticsRequestAt
      ensures Valid() && Later()
      ensures state == Ready ==> diagnosticsAnalyzedAt >= old(clock)
    {
      var targetEpoch := analysisEpoch;
      var startedAt := Now();
      lastDiagnosticsRequestAt := startedAt;
      var outcome := RequestSync();
      if targetEpoch != analysisEpoch || state != Ready {
        return;
      }
      if outcome.Answered? {
        SetDiagnostics(outcome.byFile, targetEpoch, startedAt);
      } else {
        SetReanalyzeFailure(startedAt);
      }
    }

    // ------------------------------------------------------------------ background refreshes

    method StartRefresh()
      requires Valid()
      modifies this`state, this`child, this`diagnostics, this`diagnosticsAnalyzedAt, this`analysisFailed
      modifies this`refreshInFlight, this`refreshes, this`nextRefresh, this`clock
      ensures Valid() && Later()
      ensures old(state) == Ready ==> state == Ready && diagnostics == old(diagnostics)
      ensures old(state) == Ready && old(refreshInFlight).Some? ==> refreshes == old(refreshes)
      ensures old(state) == Ready && old(refreshInFlight).None? ==>
                && refreshes == old(refreshes)[old(nextRefresh) := Refresh(analysisEpoch, clock)]
                && refreshInFlight == Some(old(nextRefresh))
    {
      EnsureStarted();
      if state != Ready || refreshInFlight.Some? {
        return;
      }
      var startedAt := Now();
      refreshes := refreshes[nextRefresh := Refresh(analysisEpoch, startedAt)];
      refreshInFlight, nextRefresh := Some(nextRefresh), nextRefresh + 1;
    }

    method MaybeStartRefresh()
      requires Valid() && state == Ready
      modifies this`state, this`child, this`diagnostics, this`diagnosticsAnalyzedAt, this`analysisFailed
      modifies this`refreshInFlight, this`refreshes, this`nextRefresh, this`clock
      modifies this`lastDiagnosticsRequestAt
      ensures Valid() && Later() && state == Ready && diagnostics == old(diagnostics)
      ensures var idle := old(lastDiagnosticsRequestAt) >= 0
              && lastDiagnosticsRequestAt - old(lastDiagnosticsRequestAt) > REFRESH_IDLE_MS;
              refreshes != old(refreshes) <==> idle && old(refreshInFlight).None?
    {
      var now := Now();
      var lastRequestAt := lastDiagnosticsRequestAt;
      lastDiagnosticsRequestAt := now;
      if lastRequestAt < 0 || now - lastRequestAt <= REFRESH_IDLE_MS || refreshInFlight.Some? {
        return;
      }
      StartRefresh();
      assert old(nextRefresh) in refreshes && old(nextRefresh) !in old(refreshes);
    }

    /** A refresh result that must be dropped. */
    predicate IsOutdated(r: Refresh)
      reads this
    {
      r.targetEpoch != analysisEpoch || state != Ready || r.startedAt < diagnosticsAnalyzedAt
    }

    /** The promise of a background refresh is settled, with an answer or an error. */
    method RefreshSettled(id: nat, byFile: Option<map<string, seq<Diagnostic>>>)
      requires Valid() && id in refreshes
      modifies this`diagnostics, this`diagnosticsAnalyzedAt, this`analysisFailed, this`refreshInFlight, this`refreshes
      ensures Valid() && Later() && id !in refreshes
      ensures refreshes == old(refreshes) - {id} && refreshInFlight == None
      ensures old(IsOutdated(refreshes[id])) ==>
                && diagnostics == old(diagnostics) && diagnosticsAnalyzedAt == old(diagnosticsAnalyzedAt)
                && analysisFailed == old(analysisFailed)
      ensures !old(IsOutdated(refreshes[id])) ==>
                && diagnosticsAnalyzedAt == old(refreshes[id].startedAt) && analysisFailed == byFile.None?
                && diagnostics.byFile == byFile.GetOr(map[])
    {
      var r := refreshes[id];
      if !IsOutdated(r) {
        if byFile.Some? {
          SetDiagnostics(byFile.value, r.targetEpoch, r.startedAt);
        } else {
          SetReanalyzeFailure(r.startedAt);
        }
      }
      refreshInFlight, refreshes := None, refreshes - {id};
    }

    // ----------------------------------------------------------------------- other events

    /** The serve process exited, or its output in the background could not be read. */
    method ServeFailed()
      requires Valid()
      modifies this`state, this`child, this`diagnostics, this`refreshInFlight
      ensures Valid() && Later()
      ensures state == if old(state) == Disposed then Disposed else Fallback
    {
      HandleServeFailure();
    }

    method ScheduleRuleInvalidation()
      requires Valid()
      modifies this`pendingRuleInvalidation, this`ruleTimer
      ensures Valid() && Later() && ruleTimer
    {
      pendingRuleInvalidation, ruleTimer := true, true;
    }

    /** Starts the next epoch, with no results. */
    method DropResults()
      requires Consistent()
      modifies this`diagnostics, this`oneshotCache, this`analysisFailed, this`analysisEpoch
      modifies this`pendingRuleInvalidation, this`refreshInFlight
      ensures Consistent() && analysisEpoch == old(analysisEpoch) + 1
      ensures !pendingRuleInvalidation && refreshInFlight.None?
      ensures diagnostics.byFile == map[] && oneshotCache.None? && !analysisFailed
    {
      analysisEpoch, pendingRuleInvalidation := analysisEpoch + 1, false;
      diagnostics, analysisFailed, oneshotCache, refreshInFlight := diagnostics.(byFile := map[]), false, None, None;
    }

    /** The timer of a rule change fired: all diagnostics so far are dropped. */
    method ApplyRuleInvalidation()
      requires Valid() && ruleTimer
      modifies this`ruleTimer, this`state, this`diagnostics, this`oneshotCache, this`analysisFailed
      modifies this`analysisEpoch, this`pendingRuleInvalidation, this`refreshInFlight
      ensures Valid() && Later()
      ensures !ruleTimer && (old(state) == Disposed ==> analysisEpoch == old(analysisEpoch) && state == Disposed)
      ensures old(state) != Disposed ==>
                && analysisEpoch == old(analysisEpoch) + 1 && !pendingRuleInvalidation && refreshInFlight.None?
                && diagnostics.byFile == map[] && oneshotCache.None? && !analysisFailed
                && state == if old(state) == Idle || old(state) == Fallback then old(state) else Invalidated
    {
      ruleTimer := false;
      if state == Disposed {
        return;
      }
      DropResults();
      if state == Idle || state == Starting || state == Fallback {
        return;
      }
      state := Invalidated;
    }

    method Dispose()
      requires Valid()
      modifies this`state, this`child, this`ruleTimer
      ensures Valid() && Later() && state == Disposed
      ensures old(state) != Disposed ==> !child && !ruleTimer
    {
      if state == Disposed {
        return;
      }
      ruleTimer, child, state := false, false, Disposed;
    }

    // ------------------------------------------------------------------------ diagnostics

    /** Looks at the modification time, and analyzes again when the file was saved. Afterwards, if
        the serve process still works, that version of the file has been analyzed or has had its
        one analysis. */
    method ReanalyzeIfSaved(file: string) returns (modifiedAt: Option<int>)
      requires Valid() && state == Ready
      modifies this
      ensures Valid() && Later()
      ensures var saved := IsSaved(old(diagnosticsAnalyzedAt), old(savedVersionsAnalyzed), file, modifiedAt);
              checks == old(checks) + [Check(file, modifiedAt, saved)]
      ensures !IsSaved(diagnosticsAnalyzedAt, savedVersionsAnalyzed, file, modifiedAt)
    {
      modifiedAt := *;
      var saved := NoteCheck(file, modifiedAt);
      if saved {
        ReanalyzeSync();
      } else {
        MaybeStartRefresh();
      }
    }

    method NoteCheck(file: string, modifiedAt: Option<int>) returns (saved: bool)
      requires Valid()
      modifies this`savedVersionsAnalyzed, this`checks
      ensures Valid() && Later()
      ensures saved == IsSaved(diagnosticsAnalyzedAt, old(savedVersionsAnalyzed), file, modifiedAt)
      ensures checks == old(checks) + [Check(file, modifiedAt, saved)]
      ensures savedVersionsAnalyzed ==
              if saved then old(savedVersionsAnalyzed)[file := modifiedAt.value] else old(savedVersionsAnalyzed)
    {
      saved := IsSaved(diagnosticsAnalyzedAt, savedVersionsAnalyzed, file, modifiedAt);
      OneMoreCheck(savedVersionsAnalyzed, checks, Check(file, modifiedAt, saved));
      if saved {
        savedVersionsAnalyzed := savedVersionsAnalyzed[file := modifiedAt.value];
      }
      checks := checks + [Check(file, modifiedAt, saved)];
    }

    function Lookup(a: Analysis, file: string): seq<Diagnostic> {
      if file in a.byFile then a.byFile[file] else []
    }

    /** The diagnostics of a file. An answer that is not empty comes from an analysis that was
        requested since the last change of the rule files. */
    method GetDiagnostics(file: string) returns (answer: seq<Diagnostic>, source: Option<Analysis>)
      requires Valid()
      modifies this
      ensures Valid() && Later()
      ensures answer == if source.None? then [] else Lookup(source.value, file)
      ensures answer != [] ==> source.value.epoch == analysisEpoch
      ensures old(state) == Disposed ==> answer == [] && state == Disposed
    {
      EnsureStarted();
      if state == Invalidated {
        RefreshInvalidatedDiagnosticsSync();
      }
      if state == Ready {
        var _ := ReanalyzeIfSaved(file);
        return Lookup(diagnostics, file), Some(diagnostics);
      }
      if state == Fallback {
        answer, source := GetOneshotDiagnostics(file);
        return;
      }
      return [], None;
    }

    method GetOneshotDiagnostics(file: string) returns (answer: seq<Diagnostic>, source: Option<Analysis>)
      requires Valid() && state == Fallback
      modifies this`oneshotCache, this`analysisFailed, this`clock
      ensures Valid() && Later()
      ensures source.Some? && source.value.epoch == analysisEpoch && answer == Lookup(source.value, file)
    {
      if oneshotCache.None? {
        var startedAt := Now();
        var byFile: Option<map<string, seq<Diagnostic>>> := *;
        analysisFailed := byFile.None?;
        oneshotCache := Some(Analysis(analysisEpoch, startedAt, byFile.GetOr(map[])));
      }
      source := oneshotCache;
      answer := Lookup(oneshotCache.value, file);
    }
  }
}
