# LintAI: a verified model

LintAI checks architecture rules of TypeScript programs. Facts about the program are extracted by a
Go server, rules are Datalog programs, violations can be suppressed by a counted file, and editors
talk to a long-running process over framed JSON-RPC. This project models the parts of it that carry
invariants over a whole run or across several functions, and proves them. Code that changes state is
modelled as classes and methods with loops; code that computes is modelled as functions.

`dafny verify dfyconfig.toml` checks everything.

| Files | Part of LintAI |
|---|---|
| `TypeKeys`, `TypeFacts`, `TypeRecording`, `MergedTypes`, `Graphs` | canonical keys of (cyclic) types with a cache, type facts, their merge and their closure, for one config group and over all |
| `Datalog`, `RulePrograms` | stratified models; the prelude slice and the rewrite of negated globs keep the model |
| `ProgramText`, `Literals` | the scanner that splits clause terminators, and the printer of string literals |
| `SuppressionEntries`, `Suppressions`, `SuppressionApply`, `SuppressionUpdates`, `SuppressionLimits`, `SuppressionLaws`, `SuppressionRun` | the suppressions file: apply, record, prune, limit, and their composition in a run |
| `Frames`, `FrameSyntax`, `JsonRpc` | Content-Length framing (Language Server Protocol 3.17, Base Protocol, Header Part) on both sides |
| `Spawner`, `Client`, `Requests` | the process multiplexer, the linter client and its requests, as state machines under every interleaving |
| `Snapshots`, `ProjectConfigs` | the merge, resolve and filter pipeline of a snapshot; the search for the config that owns a file |
| `DiagnosticOrder`, `Diagnostics`, `SortedLists` | compiler diagnostics: the tree comparators and the indexed collection |
| `PositionMaps` | byte offsets against UTF-16 offsets |
| `Basics`, `Ordering` | options, sets of elements, byte strings, the order of strings |

Conventions:

- Iteration over a Go map picks the next key arbitrarily (`:|`), so a postcondition holds for every order.
- Clocks, file times, timers, answers of processes and write results are chosen arbitrarily.
- Hashes (xxh3, sha1) are injective: a type key is a tree, an ID is that tree. Sorting and compacting
  a list of strings that is used as a set is the set.
- Statements about "any result" of Apply, Record, Prune and Limit are over the predicates `IsResult`,
  `IsRecorded`, `IsPruned` and `IsLimited`, which the methods establish and which determine the result.

Four facts that a reader of the code may not expect:

- `CompareDiagnostics` does not look at the codes inside message chains, so it is coarser than
  `EqualDiagnostics`; `EqualMeansCompareZero` says exactly when they agree, and
  `ChainCodesAreNotCompared` has the example. `Lookup` returns the first added of the diagnostics that
  compare as 0 with its argument. When a member equals the argument, what it returns is that member if
  and only if the first added one has the same codes inside its chains (`LookupFindsEqual`);
  `LookupCanMissEqual` has a collection in which the equal member is there and is not returned. It
  finds every member if and only if no two members compare as 0 (`LookupFindsAll`).
- `Prune` keeps what is suppressed only if no suppressed diagnostic is in a file that it takes to be
  deleted. `PruneKeepsResult` says so in both directions, `PruneCanReport` has the example, and
  `PruneOfAnalyzedFiles` is the case in which the run analyzed the files of all candidates.
- `Limit` bounds what is suppressed for every file that passes Parse. For any file it does so if and only
  if, under a lock without entities, the positive entity counts of an entry add up to at most the locked
  count (`FitsExactly`); `LockCanBeExceeded` has the example.
- A restart of the serve process empties the buffer of its output, but the old process stays attached.
  The framing is right as long as what comes of each process is whole frames (`WholeFramesInterleave`);
  one late byte makes the first answer of the new process a failure if and only if it does not end a
  line (`LateByteFails`).

A spawned process that the helper never heard of, because the spawner had failed before, stays in the
table of channels while its exit is reported; `Spawner.Spawn` says so.

## Model

| member | source | states |
|---|---|---|
| TypeKeys.Extractor.TypeKey | internal/tsgo/lintaiapi/types.go:373-401 | The walk with the memo table returns, from any valid table and any stack that is a path to the type, exactly the key, height, free flag and reach of the walk without a table |
| TypeKeys.Extractor.BuildKey | internal/tsgo/lintaiapi/types.go:402-506 | The same for the part after the cut-off, back-reference and cache tests; the new table entry is right for every later use |
| TypeKeys.CacheHit | internal/tsgo/lintaiapi/types.go:388-401 | An entry that passes the free and reach tests at the same depth is the key of the type above the current stack |
| TypeKeys.ReuseIsSound | internal/tsgo/lintaiapi/types.go:373-401 | A free key built above one stack is the key above any other stack of the same length that is a path to the type and avoids what the key reached |
| TypeKeys.ReuseNeedsPath | internal/tsgo/lintaiapi/types.go:388-401 | Counterexample: without the path condition the free and reach tests would accept a wrong key |
| TypeKeys.CompleteKeyAvoidsStack | internal/tsgo/lintaiapi/types.go:373-506 | A key without back reference and cut belongs to a type from which no walk comes back to the stack |
| TypeKeys.CompleteKeyHasNoCycle | internal/tsgo/lintaiapi/types.go:373-506 | A type on a cycle never has such a key, for any stack |
| TypeKeys.FlagsDescribeKey | internal/tsgo/lintaiapi/types.go:362-371 | The free flag says exactly that the key has no back reference, and reach is recorded exactly when the key has a truncation mark |
| TypeKeys.CutOffKeyIsHigh | internal/tsgo/lintaiapi/types.go:346-354 | A key with a truncation mark has, with its stack, a height above the depth limit |
| TypeKeys.UntruncatedIdIsComplete | internal/tsgo/lintaiapi/types.go:322-354 | An ID made from a key has a key that was never cut off |
| TypeKeys.Extractor.TypeID | internal/tsgo/lintaiapi/types.go:322-340 | After any calls before it, the ID is the same function of graph, display text and type, and it is remembered |
| TypeKeys.Extractor.CheckTruncated | internal/tsgo/lintaiapi/types.go:346-354 | The remembered answer is the one of the walk without a table |
| TypeKeys.RenamingKeepsKey | internal/tsgo/lintaiapi/types.go:373-506 | A shape-preserving renaming of the type graph, which may also reorder unions, keeps every key, height and flag |
| TypeKeys.RenamingKeepsId | internal/tsgo/lintaiapi/types.go:322-354 | And so it keeps every ID and whether the type is truncated |
| TypeFacts.MergeCommutative | internal/tsgo/lintaiapi/types.go:946-1002 | Merging two facts with one identity does not depend on their order, up to the start of the location |
| TypeFacts.MergeAssociative | internal/tsgo/lintaiapi/types.go:946-1002 | Merging is associative, also when structures conflict |
| TypeFacts.MergeIdempotent | internal/tsgo/lintaiapi/types.go:946-1002 | A fact merged with itself is itself |
| TypeFacts.MergeNorm | internal/tsgo/lintaiapi/types.go:993-1002 | The merge depends on locations only by where they start |
| TypeFacts.MergeIsLeastUpperBound | internal/tsgo/lintaiapi/types.go:946-983 | The merge is the least upper bound in the order of what facts contribute |
| TypeFacts.BelowTransitive | internal/tsgo/lintaiapi/types.go:946-983 | That order is transitive |
| TypeFacts.BelowAntisymmetric | internal/tsgo/lintaiapi/types.go:946-983 | And antisymmetric, up to the start of the location |
| TypeFacts.MergeTypes | internal/tsgo/lintaiapi/types.go:929-944 | The result lists each ID once, and what it lists is the fold of the incoming facts into the existing ones |
| TypeFacts.MergeGroups | internal/tsgo/lintaiapi/snapshot.go:324-393 | The same over all config groups |
| TypeFacts.AddAllJoins | internal/tsgo/lintaiapi/types.go:929-983 | The merged facts have exactly the given IDs, each with the join of its facts |
| TypeFacts.MergeOrderIrrelevant | internal/tsgo/lintaiapi/types.go:929-983 | Lists with the same elements, in any order and with any repetition, merge to the same facts |
| TypeFacts.GroupOrderIrrelevant | internal/tsgo/lintaiapi/types.go:929-944 | So the facts of consistent groups do not depend on the order of the groups; `MergedTypes` shows that recorded groups are consistent |
| TypeRecording.NewFactMentions | internal/tsgo/lintaiapi/types.go:218-274 | A fact refers to exactly the IDs of the types that are visited after its type |
| TypeRecording.IdFixesIdentity | internal/tsgo/lintaiapi/types.go:232-274 | Types with one ID, even in two config groups, agree on all fields that the merge takes from the left fact |
| TypeRecording.Recorder.Record | internal/tsgo/lintaiapi/types.go:161-200 | One visit: the recorded facts are again the merge of all visits so far |
| TypeRecording.Recorder.VisitType | internal/tsgo/lintaiapi/types.go:161-230 | The recursive visit ends on cyclic graphs, visits each type once, and leaves only types on the way unexplored |
| TypeRecording.Recorder.EmitFunctionType | internal/tsgo/lintaiapi/types.go:161-200 | It adds one visit of exactly the types that the root reaches, no visited type is left without its children, and the ID that it returns has a fact |
| TypeRecording.Recorder.TypesOfFunction | internal/tsgo/lintaiapi/snapshot.go:1869-1888 | The IDs of the return type and of the parameters, in order, each of a type that was visited; visits are only added |
| TypeRecording.VisitedIsRecorded | internal/tsgo/lintaiapi/types.go:161-200 | The ID of every type that was ever visited has a fact |
| TypeRecording.Recorder.FactsAreClosed | internal/tsgo/lintaiapi/types.go:161-275 | Between any two calls, every ID that a recorded fact mentions has a fact |
| TypeRecording.RecordingOrderIrrelevant | internal/tsgo/lintaiapi/types.go:161-200 | The recorded facts depend on the set of visits, not on their order |
| TypeRecording.RecordedFactsAreClosed | internal/tsgo/lintaiapi/types.go:946-983 | Closure survives conflict merges and truncation |
| TypeRecording.ReachIds | internal/tsgo/lintaiapi/types.go:881-915 | The worklist marks exactly the IDs reachable from the functions |
| TypeRecording.KeepReachableTypes | internal/tsgo/lintaiapi/types.go:881-927 | The kept facts are the selection of exactly those IDs, in order |
| TypeRecording.KeptFactsAreClosed | internal/tsgo/lintaiapi/types.go:881-927 | The kept facts are the reachable ones and are closed again; `MergedTypes` shows that the merged facts it starts from are closed |
| TypeRecording.Recorder.TypeFactList | internal/tsgo/lintaiapi/types.go:871-880 | The list of a recorder has each recorded fact once |
| MergedTypes.RecordingsAreConsistent | internal/tsgo/lintaiapi/types.go:232-274 | The fact lists of any recorders over any config groups agree on the identity of each ID |
| MergedTypes.VisitedIsListed | internal/tsgo/lintaiapi/types.go:871-880 | And it is on the list that the recorder of a config group leaves |
| MergedTypes.MergedFactsAreClosed | internal/tsgo/lintaiapi/types.go:929-983 | Merging closed lists, also with conflicts between them, gives a closed list |
| MergedTypes.MergedRecordingsAreClosed | internal/tsgo/lintaiapi/snapshot.go:324-372 | So the facts merged over all config groups have each ID once and are closed, with no assumption about the groups but that recorders made them |
| MergedTypes.RecordingOrderOfGroupsIrrelevant | internal/tsgo/lintaiapi/snapshot.go:324-372 | And they do not depend on the order of the config groups |
| MergedTypes.KeptOfMergedAreClosed | internal/tsgo/lintaiapi/snapshot.go:370-373 | What is kept of them is exactly what the functions reach, and it is closed |
| Datalog.StratificationIrrelevant | engine/program.go:59-164 | Every stratification of a program gives the same model |
| Datalog.ModelIsClosed | engine/program.go:59-164 | The model of a stratified program is closed under its clauses |
| Datalog.SliceHolds | engine/program.go:313-354 | A program and a slice of it that contains all clauses of a set of predicates closed under reading agree on that set |
| RulePrograms.CheckReservedPredicates | engine/program.go:356-393 | It accepts exactly the programs that neither declare nor define a reserved predicate |
| RulePrograms.PremisesFor | engine/program.go:313-354 | The predicates read by the clauses of one predicate, positively or negated |
| RulePrograms.Worklist | engine/program.go:325-345 | The loop over the pending symbols ends with the least set that has the direct reads and is closed under reading |
| RulePrograms.PreludeFor | engine/program.go:313-354 | The slice has exactly the prelude clauses of that least set |
| RulePrograms.SliceKeepsModel | engine/program.go:313-393 | For every accepted rule program, the slice and the full prelude give the same facts of every needed predicate and of every predicate of the rule, under any two stratifications |
| RulePrograms.RewriteNegatedGlobs | engine/program.go:287-311 | Exactly the negated glob premises are replaced, and the replacement is declared when there was one |
| RulePrograms.RewriteDerives | engine/program.go:202-222 | The rewritten program derives the same facts in the same rounds |
| RulePrograms.RewriteKeepsModel | engine/program.go:202-311 | Rewriting keeps the model of a program, however the program and the rewritten one are stratified |
| RulePrograms.PreparationKeepsModel | engine/program.go:59-90 | The steps in their order: for an accepted rule program, the slice of the prelude for the rewritten rule together with the rewritten rule gives the facts of the full prelude and the rule as it was written, for every needed and every rule predicate, under any two stratifications |
| RulePrograms.GlobAnswersExist | engine/program.go:202-222 | Base facts that answer the glob predicates exist for every matcher, with patterns that fail answered as no match |
| ProgramText.LexIsLossless | engine/program.go:224-285 | Tokens cover the text byte for byte |
| ProgramText.SplitConstantTerminators | engine/program.go:224-285 | The index-moving scanner stays in bounds and computes the piece-by-piece split |
| ProgramText.SplitKeepsNonBlank | engine/program.go:224-285 | The sequence of bytes other than space and tab is unchanged |
| ProgramText.SplitSplitsDots | engine/program.go:224-285 | Up to blanks, the tokens of the result are those of the text with each clause-ending dot split off its constant; strings and comments stay byte for byte |
| ProgramText.FirstTokenStays | engine/program.go:224-285 | A token stays a token when the text after it changes but keeps its first byte |
| Literals.EscapeString | packages/sdk/src/index.ts:55-86 | The loop prints the literal of the string |
| Literals.PaddedHexRoundTrip | packages/sdk/src/index.ts:51-53 | Padded hexadecimal digits read back as the number |
| Literals.EscapeRoundTrip | packages/sdk/src/index.ts:55-86 | Reading a printed literal gives back the string, for every string |
| Literals.LiteralIsOneToken | packages/sdk/src/index.ts:55-86 | The scanner takes a literal as one token and goes on exactly after its closing quote, whatever follows |
| SuppressionEntries.ParseEntry | suppressions/suppressions.go:119-149 | The running checks with early exits accept exactly the entries with positive counts and nonempty keys whose entity counts add up to the count |
| SuppressionUpdates.Parse | suppressions/suppressions.go:78-151 | A file is accepted exactly when every entry is, and then holds exactly the parsed entries |
| SuppressionApply.GroupCandidates | suppressions/suppressions.go:313-325 | Each group holds the indexes of its candidates, in order |
| SuppressionApply.CandidatesAreTheGroup | suppressions/suppressions.go:291-325 | The indexes are exactly those of the candidates of the file and rule |
| SuppressionApply.CandidatesOfKey | suppressions/suppressions.go:360-364 | Grouping again by key gives as many indexes as diagnostics have the key |
| SuppressionApply.ApplyKeys | suppressions/suppressions.go:360-377 | Over the keys in any order: exactly the candidates of the allowed keys are marked, and the exceeded findings are exactly the other keys |
| SuppressionApply.UnusedEntities | suppressions/suppressions.go:378-386 | Over the entities in any order: exactly the entities with fewer candidates than allowed, also those with none |
| SuppressionApply.ApplyEntry | suppressions/suppressions.go:343-387 | One entry marks exactly the diagnostics that it suppresses and adds exactly its unused and exceeded findings |
| SuppressionApply.Apply | suppressions/suppressions.go:338-406 | In every map order: reported and suppressed are the stable partition, and unused and exceeded are the strictly sorted lists of exactly the findings of the specification |
| Suppressions.ResultIsUnique | suppressions/suppressions.go:338-406 | That specification has one result, so the order of iteration does not show |
| Suppressions.CompareKeysIsOrder | suppressions/suppressions.go:408-416 | The sort key is a total order without ties between different findings |
| Suppressions.PickedIsPartition | suppressions/suppressions.go:389-396 | Reported and suppressed diagnostics together are the input, none lost or doubled |
| Suppressions.FoundSuppressed | suppressions/suppressions.go:338-396 | Of a group, the output suppresses all diagnostics with a suppressed key and none with another |
| SuppressionUpdates.Record | suppressions/suppressions.go:418-451 | In every map order: the entries of the selected groups are the recorded ones, all others stay |
| SuppressionUpdates.EntryFor | suppressions/suppressions.go:436-444 | The counting loop, which stops at a candidate without key, makes the recorded entry of the group |
| SuppressionEntries.RecordedFitsExactly | suppressions/suppressions.go:436-444 | A recorded entry is valid, suppresses every candidate it was made from, and is neither unused nor exceeded |
| SuppressionLaws.RecordedAreNotReported | suppressions/suppressions.go:418-451 | Applying what was recorded reports no candidate of a recorded rule |
| SuppressionLaws.RecordedGroupsFit | suppressions/suppressions.go:418-451 | No recorded group is unused or exceeded |
| SuppressionLaws.RecordKeepsValid | suppressions/suppressions.go:418-451 | Recording keeps the file valid for Parse |
| SuppressionUpdates.LowerEntry | suppressions/suppressions.go:460-480 | One unused finding: its entry is still there, and afterwards has what all findings so far leave of it |
| SuppressionUpdates.Prune | suppressions/suppressions.go:453-495 | The result has exactly the lowered entries, without those of deleted files, and no path without rules |
| SuppressionEntries.LoweredIsAtMost | suppressions/suppressions.go:460-480 | Lowering never raises a count and keeps the sum of the entities |
| SuppressionEntries.LoweredIsUsed | suppressions/suppressions.go:460-480 | Nothing of a lowered entry is unused, and lowering it again changes nothing |
| SuppressionEntries.LoweredSuppressesSame | suppressions/suppressions.go:460-480 | A lowered entry suppresses the same candidates |
| SuppressionLaws.PruneKeepsResult | suppressions/suppressions.go:453-495 | Applying the pruned file reports nothing unused, and the same is suppressed and reported if and only if no suppressed diagnostic is in a file taken to be deleted |
| SuppressionLaws.PruneOfAnalyzedFiles | suppressions/suppressions.go:453-495 | When the run analyzed the file of every candidate, reported and suppressed stay the same without further condition |
| SuppressionLaws.PruneCanReport | suppressions/suppressions.go:481-492 | Counterexample: a suppressed violation of a file that was not analyzed and is not there is reported after pruning |
| SuppressionLaws.PruneKeepsSuppressions | suppressions/suppressions.go:453-495 | Diagnostic by diagnostic: exactly the suppressions of deleted files go |
| SuppressionLaws.PruneNeverRaises | suppressions/suppressions.go:453-495 | The pruned file is valid and no entry allows more than before |
| SuppressionLaws.PruneIsIdempotent | suppressions/suppressions.go:453-495 | Pruning twice is pruning once |
| SuppressionLaws.PruneIsUnique | suppressions/suppressions.go:453-495 | Pruning has one result in every map order |
| SuppressionLimits.CheckLimit | suppressions/suppressions.go:515-537 | The cases find a failure exactly when the entry allows something that the lock does not |
| SuppressionLimits.SortedKeys | suppressions/suppressions.go:552-559 | Each key once, in strict order |
| SuppressionLimits.Limit | suppressions/suppressions.go:505-550 | Exactly the failing entries become the locked ones or go, with exactly one failure for each, in strict order |
| SuppressionLaws.LimitedSuppressesWithinLock | engine/suppressions.go:149-159 | After Limit by a valid lock, at most the locked count of each file and rule is suppressed, and at most the locked count of each entity when the lock lists entities, for every entry that fits the lock, so for every file that Parse accepts |
| SuppressionEntries.SuppressedWithin | suppressions/suppressions.go:338-406 | The bound for one entry, including entities against a lock without them |
| SuppressionEntries.FitsExactly | suppressions/suppressions.go:505-550 | An entry within its lock can never suppress more than the locked count if and only if it fits: under a lock without entities its positive entity counts add up to at most that count |
| SuppressionEntries.LockCanBeExceeded | suppressions/suppressions.go:515-537 | Counterexample: an entry that does not fit, which Parse rejects and the checks of Limit accept |
| SuppressionLaws.LimitIsIdempotent | suppressions/suppressions.go:505-550 | Limiting again fails nowhere and changes nothing |
| SuppressionLaws.LimitChangesOnlyFailures | suppressions/suppressions.go:505-550 | The file changes if and only if a failure is reported, which is if and only if some entry exceeds the lock |
| SuppressionLaws.LimitKeepsValid | suppressions/suppressions.go:505-550 | Limiting keeps the file valid |
| SuppressionLaws.PruneStaysWithinOriginal | suppressions/suppressions.go:453-550 | A pruned file limited by the original fails nowhere and stays as it is |
| SuppressionRun.BlockingRuleErrors | engine/suppressions.go:172-198 | The count is the number of rule errors that block |
| SuppressionRun.UnknownSuppressRules | engine/suppressions.go:201-222 | The unknown ids, each once and sorted |
| SuppressionRun.Update | engine/suppressions.go:116-147 | Unless an unknown rule or a blocking rule error refuses it, the file is recorded or pruned, and it is written except for a pruned file that was not there |
| SuppressionRun.ApplySuppressions | engine/suppressions.go:89-170 | The whole run: the added errors are exactly one for each unknown rule and one for each failing entry, both ascending, and which file is applied; with a lock, at most the locked counts are suppressed; without one, no candidate is left after --suppress-all and nothing is unused after --prune-suppressions |
| Frames.FrameDecoder.Push | packages/client/src/frames.ts:8-31 | A chunk yields exactly the messages complete so far, and the buffer is exactly the unfinished rest |
| Frames.FrameDecoder.PushAll | packages/client/src/frames.ts:8-31 | Over every way of cutting a stream into chunks, the messages and the rest are those of the whole stream |
| Frames.DecodeConcat | packages/client/src/frames.ts:8-31 | Decoding a stream in two parts is decoding it at once |
| Frames.FrontIsStable | packages/client/src/frames.ts:13-30 | A frame or an error found at the front stays what it is when more bytes come |
| FrameSyntax.FrontIsByBytes | packages/client/src/frames.ts:13-30 | What one round takes, said without a search: the header ends at the first separator, its first line of field name, colon, white space and digits announces the length, and the payload is that many bytes after the separator |
| FrameSyntax.FrontIsUnique | packages/client/src/frames.ts:13-30 | The bytes allow only one such front |
| Frames.DecodeOfEncoded | packages/client/src/frames.ts:3-31 | The frames of any messages followed by an unfinished tail decode to those messages and that tail |
| Frames.FrontOfEncoded | packages/client/src/frames.ts:3-6 | One encoded frame is taken off the front, whatever follows |
| Frames.UnfinishedWaits | packages/client/src/frames.ts:8-31 | A strict prefix of a frame yields nothing and stays buffered |
| Frames.WholeFramesInterleave | packages/client/src/client.ts:685-711 | Output of several processes on one buffer decodes to all their messages in order, when each part of it is whole frames |
| Frames.LateByteFails | packages/client/src/client.ts:615-628 | One late byte of a cut frame of the replaced process before an answer of the new one: the answer is taken if the byte ends a line, and else it is a failure, for every byte and every answer |
| Frames.StdoutReader.HandleStdout | packages/client/src/client.ts:685-711 | The client's reader handles the same messages and keeps the same rest as the decoder |
| JsonRpc.Reader.ReadPayload | jsonrpc/jsonrpc.go:57-91 | The header loop over the stateful reader computes the first payload or error of the stream, and leaves exactly the rest |
| JsonRpc.Writer.WriteResponse | jsonrpc/jsonrpc.go:93-103 | The writer appends one frame of the shared format |
| JsonRpc.ReadOfEncoded | jsonrpc/jsonrpc.go:57-103 | Reading a written frame gives the payload and leaves the rest of the stream |
| JsonRpc.ReaderAgreesWithDecoder | jsonrpc/jsonrpc.go:57-103 | Reader and decoder, written in two languages, agree on every stream of frames |
| Spawner.Spawner.Spawn | packages/client/src/spawner.ts:139-200 | A new process gets a new channel; if the helper could not be told, it exits at once |
| Spawner.Spawner.Receive | packages/client/src/spawner.ts:284-309 | Any messages keep the invariant, and a process whose exit was reported gets no more output |
| Spawner.Spawner.ReadSync | packages/client/src/spawner.ts:202-222 | All pending output at once, or nothing, with the end reported only when nothing is pending |
| Spawner.Spawner.Flush | packages/client/src/spawner.ts:311-331 | A scheduled flush hands out pending output to listeners and reports the exit once, last |
| Spawner.Spawner.Fail | packages/client/src/spawner.ts:333-344 | Every registered process exits and no channel stays registered; a second failure does nothing |
| Spawner.Spawner.ChannelsAreSound | packages/client/src/spawner.ts:55-62 | In every reachable state: handed-out bytes followed by pending bytes are the bytes received in order, and exit listeners ran at most once, only with nothing pending and nothing more to come |
| Client.LintAIClient.GetDiagnostics | packages/client/src/client.ts:256-277 | A nonempty answer comes from an analysis requested in the current epoch; clock, analysis time and epoch never go back |
| Client.LintAIClient.ReanalyzeIfSaved | packages/client/src/client.ts:639-675 | After the check, the version of the file has been analyzed or has had its one reanalysis |
| Client.LintAIClient.NoteCheck | packages/client/src/client.ts:639-657 | A check triggers exactly when the file was saved after the shown analysis started and this version had no reanalysis, and is remembered |
| Client.UnchangedFileTriggersOnce | packages/client/src/client.ts:639-657 | In every run, a file whose modification time does not change triggers at most one reanalysis |
| Client.LintAIClient.StartServe | packages/client/src/client.ts:397-442 | Starting, with failures at any point, ends in fallback or shows an analysis of the current epoch that started after the call |
| Client.LintAIClient.EnsureStarted | packages/client/src/client.ts:381-395 | It starts only an idle client; in every other state the process, what is shown, its time, the refresh in flight and the clock are as before |
| Client.LintAIClient.RefreshInvalidatedDiagnosticsSync | packages/client/src/client.ts:603-630 | After a rule change the client is ready again only with an analysis of the current epoch that started after the call |
| Client.LintAIClient.ReanalyzeSync | packages/client/src/client.ts:659-675 | A client that is still ready shows an analysis, or a failure, that started after the call |
| Client.LintAIClient.StartRefresh | packages/client/src/client.ts:312-339 | With a refresh in flight none is started; otherwise one starts with the current epoch and time |
| Client.LintAIClient.MaybeStartRefresh | packages/client/src/client.ts:593-601 | A refresh starts exactly after an idle time with none in flight, and what is shown does not change |
| Client.LintAIClient.RefreshSettled | packages/client/src/client.ts:312-339 | An answer of an older epoch, or older than what is shown, changes nothing; any other is shown with its own start time |
| Client.LintAIClient.ApplyRuleInvalidation | packages/client/src/client.ts:806-829 | A rule change starts a new epoch, drops all results of the old one, and invalidates the client unless it is idle or in fallback |
| Client.LintAIClient.HandleServeFailure | packages/client/src/client.ts:735-757 | After a failure the client falls back and shows nothing of the dead process |
| Client.LintAIClient.RequestSync | packages/client/src/client.ts:525-549 | A request may fail at any point of reading the answer, also after it; then the client has fallen back, unless it was disposed. Which response is the answer is the subject of `Requests` |
| Client.LintAIClient.SetDiagnostics | packages/client/src/client.ts:759-765 | It needs a result of the current epoch that is not older than what is shown |
| Client.LintAIClient.Dispose | packages/client/src/client.ts:345-379 | A disposed client has no process and no timer |
| Client.LintAIClient.GetOneshotDiagnostics | packages/client/src/client.ts:444-500 | The answer of a single run is of the current epoch |
| Requests.ServeRequests.EnqueueRequest | packages/client/src/client.ts:551-581 | A request gets an id that no request had before and becomes pending, or is rejected at once without a process |
| Requests.ServeRequests.HandleResponse | packages/client/src/client.ts:713-733 | A response of any process settles the pending request with its id with its own outcome, and nothing else |
| Requests.ServeRequests.HandleWriteFailure | packages/client/src/client.ts:574-580 | A failed write, also one reported late, leaves its request settled and not pending, and changes no earlier outcome |
| Requests.ServeRequests.HandleServeFailure | packages/client/src/client.ts:735-757 | Everything pending is rejected and there is no process; a client that is disposed or in fallback changes nothing |
| Requests.ServeRequests.StartServe | packages/client/src/client.ts:397-405 | A process is started also after its predecessor failed; the client is not in fallback any more, and pending requests and outcomes stay as they are |
| Requests.ServeRequests.Dispose | packages/client/src/client.ts:345-379 | The shutdown request takes an id of its own, the process is gone, and pending requests stay pending |
| Requests.ServeRequests.RequestSync | packages/client/src/client.ts:513-549 | Whatever is read meanwhile, also for other requests and of replaced processes, an answer is the value that its own request was resolved with |
| Requests.CalledOnce | packages/client/src/client.ts:574-580 | In the log of every run there is one call of the callbacks of a request when it is settled, and another only for a failed write that is reported afterwards |
| Requests.ServeRequests.CallbacksRunOnce | packages/client/src/client.ts:713-757 | The calls that the methods really make are those of the log: in every reachable state, one for the outcome and one for each failed write reported afterwards, none for a pending request but those |
| Requests.OutcomeIsFinal | packages/client/src/client.ts:713-757 | The outcome of a promise never changes, over restarts too |
| Requests.ResolvedByOwnResponse | packages/client/src/client.ts:713-733 | A promise that resolved did so by a response with its own id that came while it was open, with the value of that response |
| Requests.ResolvedByOwnProcess | packages/client/src/client.ts:551-581 | When processes answer only what was written to them, that response came from the process that the request was written to, whatever processes were started since |
| Snapshots.MergeById | internal/tsgo/lintaiapi/snapshot.go:861-875 | The loop with the seen map appends each new ID once |
| Snapshots.MergedByIdHas | internal/tsgo/lintaiapi/snapshot.go:861-875 | The merge has exactly the IDs of both lists and only records of them |
| Snapshots.MergedByIdDistinct | internal/tsgo/lintaiapi/snapshot.go:861-875 | No ID occurs twice |
| Snapshots.MergeKeepsTargets | internal/tsgo/lintaiapi/snapshot.go:826-842 | Merging groups leaves no call edge without its target, though functions with known IDs are dropped |
| Snapshots.EveryCallResolvesOnce | internal/tsgo/lintaiapi/snapshot.go:412-447 | Each pending call becomes one edge to a function of the snapshot or one external call |
| Snapshots.ResolvePending | internal/tsgo/lintaiapi/snapshot.go:412-447 | The loop with the index computes exactly those edges and external calls |
| Snapshots.KeepingLeavesNoDanglingEdges | internal/tsgo/lintaiapi/snapshot.go:395-410 | Dropping the functions outside the modules leaves no edge without its target |
| Snapshots.Snapshot.MergeSnapshot | internal/tsgo/lintaiapi/snapshot.go:826-842 | All relations and the type facts after the merge, and the invariant: every edge has its target, and every type that a function names has its fact, for every group of which that holds |
| Snapshots.VisitedTypesAreKnown | internal/tsgo/lintaiapi/snapshot.go:1869-1888 | It holds of a group whose functions name types that its recorder visited |
| Snapshots.MergeOthers | internal/tsgo/lintaiapi/snapshot.go:826-842 | The nine relations that nothing refers to are merged by ID, each by itself |
| Snapshots.Snapshot.KeepTypes | internal/tsgo/lintaiapi/types.go:881-915 | The types that the remaining functions reach stay, in order, and every type that a function names keeps its fact |
| Snapshots.Snapshot.ResolveDtsCalls | internal/tsgo/lintaiapi/snapshot.go:412-447 | Edges and external calls after it; their number counts every pending call once |
| Snapshots.Snapshot.KeepModuleFiles | internal/tsgo/lintaiapi/snapshot.go:395-410 | The kept functions and edges, and every kept edge leads into a module |
| Snapshots.BuildSnapshot | internal/tsgo/lintaiapi/snapshot.go:324-393 | Over any groups whose own edges lead to their own functions and whose functions name types that their recorders visited: every call edge of the result leads to a function of the result, with the filter in a module; and every type that a function or a fact names has its fact, after conflict merges between groups and after the removal of types |
| ProjectConfigs.OwningConfig | internal/tsgo/lintaiapi/snapshot.go:688-722 | The search with the visited map ends on cyclic references and returns the first stop in depth-first preorder, else the nearest config |
| ProjectConfigs.Search | internal/tsgo/lintaiapi/snapshot.go:694-720 | The recursive search from any visited set returns the first stop of the preorder that leaves that set out, and has visited all of it when there is none |
| ProjectConfigs.PreorderIsReachable | internal/tsgo/lintaiapi/snapshot.go:688-722 | That preorder has each reachable config and no other |
| ProjectConfigs.OwnerListsFile | internal/tsgo/lintaiapi/snapshot.go:688-722 | When all loads succeed: the owner lists the file whenever a reachable config does, and else is the nearest config |
| DiagnosticOrder.DiagnosticsAreOrdered | internal/tsgo/internal/ast/diagnostic.go:440-529 | The comparator over nested chains and related information is antisymmetric and transitive, with strictness: a total preorder |
| DiagnosticOrder.EqualMeansCompareZero | internal/tsgo/internal/ast/diagnostic.go:399-529 | Equality holds if and only if the comparison is 0 and the codes inside the chains agree |
| DiagnosticOrder.ChainCodesAreNotCompared | internal/tsgo/internal/ast/diagnostic.go:431-467 | Counterexample: comparison 0 without equality |
| DiagnosticOrder.CompareIsReflexive | internal/tsgo/internal/ast/diagnostic.go:484-487 | A diagnostic compares as 0 with itself, so, with `EqualMeansCompareZero`, the shortcut for one pointer in both functions changes nothing |
| DiagnosticOrder.EqualIsSymmetric | internal/tsgo/internal/ast/diagnostic.go:399-438 | Equality does not depend on which diagnostic came first |
| SortedLists.SortIsStable | internal/tsgo/internal/ast/diagnostic.go:355-377 | The sort keeps the order of diagnostics that compare as 0 |
| SortedLists.FirstTie | internal/tsgo/internal/ast/diagnostic.go:342-345 | The leftmost element that compares as 0 is the first of all that do |
| SortedLists.BinarySearch | internal/tsgo/internal/ast/diagnostic.go:342-345 | On a sorted list the search finds an element that compares as 0 whenever there is one, at its leftmost place |
| Diagnostics.DiagnosticsCollection.FindEqual | internal/tsgo/internal/ast/diagnostic.go:275-285 | Index and collisions find an equal diagnostic whenever one was added |
| Diagnostics.DiagnosticsCollection.Add | internal/tsgo/internal/ast/diagnostic.go:271-312 | No two members are ever equal, the count and all lists are right, and the result is the one equal member |
| Diagnostics.DiagnosticsCollection.SortedList | internal/tsgo/internal/ast/diagnostic.go:355-377 | A list marked as sorted is sorted, and sorting loses nothing |
| Diagnostics.DiagnosticsCollection.GetGlobalDiagnostics | internal/tsgo/internal/ast/diagnostic.go:348-361 | Exactly the members without a file, sorted |
| Diagnostics.DiagnosticsCollection.GetDiagnosticsForFile | internal/tsgo/internal/ast/diagnostic.go:363-377 | Exactly the members of the file's path key, sorted |
| Diagnostics.DiagnosticsCollection.Lookup | internal/tsgo/internal/ast/diagnostic.go:332-346 | It returns the first added of the members that compare as 0, so it finds something for everything equal to a member |
| Diagnostics.LookupFindsEqual | internal/tsgo/internal/ast/diagnostic.go:332-346 | When a member equals the argument, what is returned is that member if and only if the first added tie has the codes of the argument inside its chains |
| Diagnostics.LookupFindsAll | internal/tsgo/internal/ast/diagnostic.go:332-346 | Over the collection: every argument equal to a member gets that member, for all members, if and only if no two members compare as 0 |
| Diagnostics.LookupCanMissEqual | internal/tsgo/internal/ast/diagnostic.go:332-346 | Counterexample: of two members that compare as 0, looking up the second returns the first, which is not equal |
| Diagnostics.FirstTiedIsTied | internal/tsgo/internal/ast/diagnostic.go:332-346 | The first added tie is a member that compares as 0, and there is one whenever a member does |
| Diagnostics.DiagnosticsCollection.GetDiagnostics | internal/tsgo/internal/ast/diagnostic.go:379-390 | All members, sorted, as many as the count |
| PositionMaps.DecodeJSStringRune | internal/tsgo/internal/stringutil/util.go:336-344 | One to four bytes, and two code units exactly for four bytes, also for lone surrogates and invalid bytes |
| PositionMaps.PositionMap.constructor | internal/tsgo/internal/ast/positionmap.go:41-62 | The loop stores one entry for each character that is not ASCII, with the counts up to its end |
| PositionMaps.PositionMap.UTF8ToUTF16 | internal/tsgo/internal/ast/positionmap.go:70-90 | The binary search subtracts the delta of the last entry up to the offset |
| PositionMaps.PositionMap.UTF16ToUTF8 | internal/tsgo/internal/ast/positionmap.go:92-113 | The binary search adds the delta of the last entry up to the code unit offset |
| PositionMaps.ConversionsCount | internal/tsgo/internal/ast/positionmap.go:70-113 | At every character boundary both conversions equal counting one by one, so they are inverse |
| PositionMaps.BoundariesAscend | internal/tsgo/internal/ast/positionmap.go:70-113 | Both counts are strictly monotone over the boundaries |
| PositionMaps.CharsCoverText | internal/tsgo/internal/ast/positionmap.go:41-62 | The boundaries cover the text to its end |

## Left out

- Collisions of the hashes behind type IDs and entity IDs.
- The TypeScript checker: shapes of types, the child graph, call resolution and ambient matching are given; `classifyType` and `resolveTypeTargetPath` are not part of this model.
- The text of `typeDisplay`; it is a parameter.
- TypeRecording.Recorder.Record: takes the ID from the function that `Extractor.TypeID` is proved to compute, instead of calling the extractor object.
- Mangle's built-in predicates, transforms, aggregation and fact limit, and the checks of glob uses and wildcards; `glob` is any total predicate.
- `dlTag`, `formatNumber` and the rule builder of the SDK.
- JSON encoding and decoding: a predicate says which payloads decode; for the suppressions file the decoded object is given.
- Frames.FrameDecoder.Push: lengths are unbounded numbers, so a length beyond the exact range of a double is not modelled; nor are Unicode white space and the line ends U+2028 and U+2029, which the regular expression of the header also takes, and bytes that are not UTF-8.
- Frames.StdoutReader.HandleStdout: models the stream of one process up to its failure; how late output of a replaced process mixes in is said for whole frames and for one late byte only.
- JsonRpc.Reader.ReadPayload: 64-bit overflow of the length, Unicode case folding of header names and white space outside ASCII are not modelled.
- Standard input of spawned processes, results of one-off runs, and the file descriptors of the spawner's helper.
- The client's list of problems and its file watcher; timers and timeouts happen at arbitrary times.
- Client.LintAIClient.RequestSync: takes the answer as given; `Requests.ServeRequests.RequestSync` says which response it is, and the two classes are not one object.
- Requests.ServeRequests.HandleResponse: the text of an error and the parsing of a payload are left out; a payload that does not parse is a failure of the process.
- The texts of messages, failures and warnings, and the explanation added to exceeded violations.
- SuppressionRun.ApplySuppressions: the final sort of the diagnostics is left out, and the test for the default rule glob and severity is one flag.
- SuppressionLaws.LimitedSuppressesWithinLock: assumes that the lock passes Parse and that the entry fits it, which cannot be dropped (`LockCanBeExceeded`) and which Parse ensures.
- Reading and writing the suppressions file, the rules lock file and Windows paths.
- Diagnostics.DiagnosticsCollection.Add: diagnostics are values that do not change after they are added, the mutex is left out, and a file name is never empty.
- `mapDtsToSource` is a function parameter, and the order of `sortSnapshot` is left out.
- PositionMaps.PositionMap.UTF8ToUTF16: says nothing about offsets inside a character beyond what the entries give.
