# Verified model of the sandbox runner and its neighbours

A Dafny model of the parts of Lumen Copilot whose correctness spans many steps: the sandbox runner's
engine, the durable audit protocol, the execution-image reference, the embedding migration with its
readiness guard, and the QA report table. `dafny verify dfyconfig.toml` checks all of it.

## Layout

| files | what they model |
|---|---|
| `ByteStreams`, `BudgetedReader`, `UstarArchives`, `MemberNames`, `OutputCollector` | collecting output files from a chunked archive under a byte budget (ustar Interchange Format, `pax` section of IEEE Std 1003.1) |
| `Utf8Decoding`, `StreamRetention` | draining stdout and stderr through incremental decoders and bounded buffers (RFC 3629 section 3; Unicode section 3.9) |
| `ExecutionDeadline` | the shared deadline and its callbacks, as a step relation over any number of threads |
| `ProcessCleanup`, `ExecutionFlow`, `ExecutionReports` | one execution from dispatch to report, and the process table it leaves |
| `ResultCache`, `ExecutionEngine` | the cache of reports, shared by executions and closes of all sessions |
| `ContainerBounds`, `SessionContainers` | bounds, fingerprint and the container of a session while `close` interferes |
| `CollectionPermits`, `TeardownPools` | the three collection permits; the two thread pools, session locks and cancel; both as step relations |
| `WheelNames`, `PackageReplace` | distribution names (PEP 427 "Escaping and Unicode", PEP 503 "Normalized Names") and in-place replacement of installed packages |
| `AuditTransactions` | one write, an ambiguous COMMIT, reconciliation, at most one retry |
| `Grammar`, `ImageReference`, `ReferenceShapes` | the reference grammar as regular expressions, the validator's split, and printing |
| `EmbeddingMigration` | upgrade and downgrade over a catalog with data, and the readiness guard |
| `ReportTable` | rendering the report and reading it back (GitHub Flavored Markdown section 4.10) |
| `Options`, `Sequences`, `AsciiText`, `Decimals` | shared vocabulary |

Code that changes state step by step is a class or a method with loops, proved against functions
whose meaning separate lemmas establish. Concurrency is a relation over single steps, and its
theorems are about every run of that relation. The daemon, the database server, pip, the network and
clocks are parameters or arbitrary values.

## Where the code decides against its documentation

- The archive collector swallows the deadline's `TimeoutError` with every other `OSError` (line 1297
  of `engine.py`): an interrupted collection comes back flagged as truncated, not as a timeout.
- A clipped stream does not always end as `sandbox_limit_output`: after an out-of-memory kill the
  stderr is replaced, and a stopped container reports neither stream. `ClippedEndsAsOutputLimit` gives
  the cases. `ClipTells` shows that a program printing the marker counts as clipped.
- `close` forgets results but not their sizes, against the "no orphans" of
  `sandbox_runner/tests/test_teardown_is_not_starvable.py`. `CloseLeavesOrphans` says exactly when;
  `NewestSurvives` says what the stale bytes cost.
- The cleanup loop can miss a process: one that forks and exits after it was listed leaves a child that
  no pass has seen. `PassLeaves` is exact, `ChildEscapes` the run. So a container in use again may
  hold such a child, which is what `ExecuteUnlocked` promises and no more; and the next execution takes
  it for part of its baseline (`SnapshotSparesEscaped`).
- `remaining` reads the flag without the lock and lets the body run a moment later, so a watch may enter
  its body after the deadline has expired and its own callback was called: `EntersOnlyIfCleared` says
  which, `LateEntry` is the schedule.
- A `close` during an execution does not keep that session's result out of the cache
  (`RememberedAnyway`, `ClosedAndRemembered`).
- Package replacement is not always an overlay: a staged file whose place is taken by a surviving
  directory lands inside that directory. `OverlayUnlessObstructed` is exact, `ObstructedCompletes` an example.
- The readiness guard takes a parked column for absent when its type is not of the form `vector(n)`.
  `ReadyExactly` says when, `UnsizedParkedColumnIsMissed` the example. And a downgrade is
  lossless for vectors, not for their fingerprints (`DownAndUp`).
- `name:tag@` is accepted as a reference without digest (line 1447 of `config.py` tests for an empty one).
- `_matches_bounds` looks only at what a policy asks for, so by itself it would reuse a container with
  more bounds; the fingerprint rules that out (`CreatedMatches`, `EqualFingerprintsSameContainer`).
- When discarding an ambiguous connection fails, the attempt surfaces as a timeout without
  reconciliation, and an error of the recovery itself comes before the caller's cancellation; so a
  raised error alone does not mean that no row was written. A cancellation that arrives while the first
  attempt's session closes (line 109 of `audit_transactions.py`) is raised in place of its answer, and
  skips reconciliation (`CancelledWhileClosing`). `Succeeds` spells out when a call returns.

## Model

| member | source | states |
|---|---|---|
| BudgetedReaders.BudgetedReader.constructor | sandbox_runner/lumen_sandbox_runner/engine.py:220-224 | a negative budget counts as zero; nothing is delivered yet |
| BudgetedReaders.BudgetedReader.Read | sandbox_runner/lumen_sandbox_runner/engine.py:226-251 | for every chunking and every sequence of read sizes, a read is the next window of the stream cut at the budget; a short read means all of that was delivered, and then `exhausted` holds exactly when the stream is longer than the budget; the buffer never exceeds what is left of the budget; once exhausted, nothing more is pulled |
| BudgetedReaders.BudgetedReader.Fill | sandbox_runner/lumen_sandbox_runner/engine.py:230-246 | the pulling loop ends with enough bytes, or with everything the budget keeps and a truthful flag |
| BudgetedReaders.BudgetedReader.Pulled | sandbox_runner/lumen_sandbox_runner/engine.py:233-246 | what one chunk adds, in the case that fits and in the case that is cut |
| BudgetedReaders.Served | sandbox_runner/lumen_sandbox_runner/engine.py:247-251 | the bytes handed out are the next window, and none is lost between them and the buffer |
| OutputCollector.CollectOutputs | sandbox_runner/lumen_sandbox_runner/engine.py:1255-1313 | an archive the daemon does not serve is an empty collection, flagged; otherwise as below, within both bounds in any case |
| OutputCollector.CollectMembers | sandbox_runner/lumen_sandbox_runner/engine.py:1266-1313 | for every archive, chunking, read-ahead size and byte budget: the files are a prefix of the regular members in order, each byte-complete and under the last component of its path, and, unless the deadline interrupts, exactly those whose entries lie whole within the budget, at most 64; together they hold at most the budget; a flag of False means every regular member was collected, and an archive within both bounds is collected in full and never flagged |
| OutputCollector.CollectNext | sandbox_runner/lumen_sandbox_runner/engine.py:1271-1300 | one turn of the loop passes one entry and appends its file whole, or ends with a collection as promised |
| OutputCollector.CollectRegular | sandbox_runner/lumen_sandbox_runner/engine.py:1278-1296 | a regular member is appended whole, or ends the collection at the count bound, the budget or the deadline |
| OutputCollector.CollectedAt | sandbox_runner/lumen_sandbox_runner/engine.py:1276-1313 | each way the loop ends leaves what collection may return |
| OutputCollector.TarFile.Next | sandbox_runner/lumen_sandbox_runner/engine.py:1270-1273 | the parser finds the header of exactly the next entry, or the archive's end, or the budget's cut |
| OutputCollector.TarFile.Extract | sandbox_runner/lumen_sandbox_runner/engine.py:1281-1287 | a member's data comes out whole or not at all |
| OutputCollector.TarStream.Read | sandbox_runner/lumen_sandbox_runner/engine.py:1270-1270 | read-ahead by records does not show: reads are windows of what the budget keeps |
| OutputCollector.StoppedAt | sandbox_runner/lumen_sandbox_runner/engine.py:1276-1300 | wherever the loop stops, what it has is a prefix of what both bounds admit; at the cut, the count bound or the end it is all of it |
| OutputCollector.BlockRead | sandbox_runner/lumen_sandbox_runner/engine.py:1272-1300 | the block read where an entry should start is its header, a trailing zero block, or short, and then the budget cut the archive |
| OutputCollector.BodyRead | sandbox_runner/lumen_sandbox_runner/engine.py:1284-1287 | data of the declared length is the entry's data; any other length means the budget ends inside it |
| UstarArchives.WholeEntries | sandbox_runner/lumen_sandbox_runner/engine.py:1255-1313 | the count of leading entries whose header and data lie within the budget: all of these and not the next one |
| UstarArchives.WholeFilesFit | sandbox_runner/lumen_sandbox_runner/engine.py:1255-1313 | the files of those entries hold at most the budget |
| UstarArchives.EntryAt | sandbox_runner/lumen_sandbox_runner/engine.py:1270-1287 | where each header and its data lie in the byte stream of an archive |
| MemberNames.FileNameIsName | sandbox_runner/lumen_sandbox_runner/engine.py:1288-1288 | a file's name is the one name of its path: the last component, `.` components and slashes behind it ignored, or empty when there is none |
| MemberNames.FinalIsBase | sandbox_runner/lumen_sandbox_runner/engine.py:1288-1288 | below any directory and before any trailing slashes and `.` components, a base is its path's name |
| MemberNames.DeliveredAreCarried | sandbox_runner/lumen_sandbox_runner/engine.py:1271-1296 | every delivered file is a regular member's data under its path's name |
| MemberNames.HeaderReadsBack | sandbox_runner/lumen_sandbox_runner/engine.py:1272-1285 | name, size and type are read off a header as an archive writer lays them out |
| StreamRetention.Drain | sandbox_runner/lumen_sandbox_runner/engine.py:1191-1219 | for every interleaving and cutting of stdout and stderr, each text is the clipped replacement decoding of its own side's whole byte sequence |
| StreamRetention.RetainedSide.Feed | sandbox_runner/lumen_sandbox_runner/engine.py:1200-1209 | the retained text stays the first cap + 1 characters of what the bytes so far decode to, and never exceeds that |
| StreamRetention.RetainedSide.Finish | sandbox_runner/lumen_sandbox_runner/engine.py:1210-1211 | the flushed text is the first cap + 1 characters of the whole stream's decoding |
| StreamRetention.ClipPrefix | sandbox_runner/lumen_sandbox_runner/engine.py:1193-1195 | the lookahead character is enough: clipping the retained text is clipping the whole stream |
| StreamRetention.ClipTells | sandbox_runner/lumen_sandbox_runner/engine.py:291-298 | the retained text is returned unchanged exactly when the stream has at most cap characters; a clipped one is its first 262,144 characters and the note; the marker is there exactly when it was clipped or the program printed the marker itself |
| StreamRetention.SidesAppend | sandbox_runner/lumen_sandbox_runner/engine.py:1200-1209 | each side's bytes are those its chunks carry, in order |
| Utf8Decoding.DecodeSplit | sandbox_runner/lumen_sandbox_runner/engine.py:1196-1211 | decoding in pieces, with undecoded bytes carried over, equals decoding at once |
| Utf8Decoding.HeadIsMaximalSubpart | sandbox_runner/lumen_sandbox_runner/engine.py:1196-1197 | the decoder's step follows Unicode, section 3.9: a scalar is exactly a well-formed sequence, a replacement covers exactly a maximal subpart, and it waits exactly while the bytes can still become one |
| Utf8Decoding.PlausibleBegins | sandbox_runner/lumen_sandbox_runner/engine.py:1196-1197 | the byte-wise test is the same as being the beginning of some well-formed sequence |
| Utf8Decoding.EncodeChar | sandbox_runner/lumen_sandbox_runner/engine.py:1196-1197 | every scalar value has a well-formed sequence that stands for it (RFC 3629, section 3) |
| Utf8Decoding.DecodeEncode | sandbox_runner/lumen_sandbox_runner/engine.py:1196-1211 | well-formed text survives the trip through bytes unchanged |
| Utf8Decoding.TextByHeads | sandbox_runner/lumen_sandbox_runner/engine.py:1196-1211 | the text is, part by part, the character of a well-formed sequence or U+FFFD, and then the text of the rest |
| Utf8Decoding.CompleteIsEncoded | sandbox_runner/lumen_sandbox_runner/engine.py:1196-1197 | a scalar value has no other well-formed sequence: no overlong forms, no surrogates |
| Utf8Decoding.LeadBytes | sandbox_runner/lumen_sandbox_runner/engine.py:1196-1197 | exactly the lead bytes of Unicode, table 3-7, start a sequence |
| WheelNames.WheelNamesItsDistribution | sandbox_runner/lumen_sandbox_runner/engine.py:171-182 | for every distribution name and every version and tags, the name read off the PEP 427 file name is the PEP 503 normal form of the distribution |
| WheelNames.NormaliseIsCanonical | sandbox_runner/lumen_sandbox_runner/engine.py:180-182 | normalising yields a canonical name, is idempotent, and leaves a name alone exactly when it was canonical |
| WheelNames.NormaliseJoinsWords | sandbox_runner/lumen_sandbox_runner/engine.py:180-182 | the normal form is the words between runs of separators, in lower case, with single hyphens between them |
| WheelNames.CollapseEscape | sandbox_runner/lumen_sandbox_runner/engine.py:180-182 | normalisation cannot tell an escaped name from the original, wherever a run of separators is cut |
| WheelNames.RefuseDenied | sandbox_runner/lumen_sandbox_runner/engine.py:1078-1090 | accepts exactly when no wheel's distribution is denied; a refusal names one that is there and denied |
| WheelNames.AcceptedWheelhouse | sandbox_runner/lumen_sandbox_runner/engine.py:1045-1090 | a wheelhouse passes exactly when no resolved distribution has the normal form of a non-blank denied line, however either is spelled |
| PackageReplacement.FileSystem.Replace | sandbox_runner/lumen_sandbox_runner/commands.py:46-72 | completes exactly when every manifest can be removed in order and the staged tree then merges; a completed replacement leaves exactly the old files minus the listed ones with the staged tree merged in, and exactly the directories that survive pruning plus those of the merge; completed or not, nothing outside the target and the staging copy is removed or changed |
| PackageReplacement.FileSystem.RemoveInstalled | sandbox_runner/lumen_sandbox_runner/commands.py:51-68 | over all distributions one after the other: completes exactly when each named one has a manifest that can be cleared by then; the files that go are exactly the listed ones, the directories that go exactly the in-root ancestors of listed files with nothing but such directories left below them; a failure still removes nothing else |
| PackageReplacement.NamedByWheels | sandbox_runner/lumen_sandbox_runner/commands.py:50-54 | the distributions replaced are exactly those with the normal form of a resolved one, however either is spelled |
| PackageReplacement.ListedByWheels | sandbox_runner/lumen_sandbox_runner/commands.py:50-63 | a file is to go exactly if the manifest of such a distribution names it inside the target |
| PackageReplacement.FileSystem.RemoveDistribution | sandbox_runner/lumen_sandbox_runner/commands.py:55-68 | completes exactly when every entry is inside, no directory, and not below a file that the entries before it leave; what was removed before a failure is listed |
| PackageReplacement.FileSystem.PruneParents | sandbox_runner/lumen_sandbox_runner/commands.py:64-68 | deepest-first `rmdir` with failures ignored removes exactly the prunable directories |
| PackageReplacement.PruneInTwoSteps | sandbox_runner/lumen_sandbox_runner/commands.py:51-68 | pruning after each distribution equals pruning once after all of them |
| PackageReplacement.PruneStep | sandbox_runner/lumen_sandbox_runner/commands.py:64-68 | when the deepest remaining directory is tried, it is empty exactly if it is prunable |
| PackageReplacement.FileSystem.CopyTree | sandbox_runner/lumen_sandbox_runner/commands.py:70-70 | completes exactly when the staged tree is there, no file stands where a directory is needed and no staged file lands on a directory; then every staged file is where it lands and everything else as it was |
| PackageReplacement.FileSystem.CopyFile | sandbox_runner/lumen_sandbox_runner/commands.py:70-70 | one file is copied to its place, or into a directory that stands there |
| PackageReplacement.LandingsDiffer | sandbox_runner/lumen_sandbox_runner/commands.py:70-70 | no two staged files land on one path, even where directories stand in the way |
| PackageReplacement.MergedIsWellFormed | sandbox_runner/lumen_sandbox_runner/commands.py:70-70 | the merged tree is again a tree |
| PackageReplacement.OverlayUnlessObstructed | sandbox_runner/lumen_sandbox_runner/commands.py:46-72 | the target is exactly old-minus-listed overlaid by the staged tree if and only if no staged file finds a surviving directory in its place |
| PackageReplacement.ObstructedCompletes | sandbox_runner/lumen_sandbox_runner/commands.py:46-72 | a replacement that completes and is obstructed |
| PackageReplacement.FileSystem.RemoveTree | sandbox_runner/lumen_sandbox_runner/commands.py:71-71 | the staging copy goes, and nothing else |
| ExecutionDeadlines.EachCallbackOnce | sandbox_runner/lumen_sandbox_runner/execution.py:34-57 | over every interleaving: once all calls are over, the callbacks registered at expiry were called, last registered first, each once for every watch of it between its lock sections then; every later watch called its own once, and nothing else was called |
| ExecutionDeadlines.RunRegisters | sandbox_runner/lumen_sandbox_runner/execution.py:43-57 | in every reachable state before expiry the callbacks registered are exactly those of the watches between their lock sections |
| ExecutionDeadlines.NoCallAfterLeaving | sandbox_runner/lumen_sandbox_runner/execution.py:54-57 | when every watch of a callback that was entered has left before expiry, no expiring thread ever calls it |
| ExecutionDeadlines.ReverseAt | sandbox_runner/lumen_sandbox_runner/execution.py:38-39 | the callbacks are called in reverse order of registration |
| ExecutionDeadlines.RemovesFirst | sandbox_runner/lumen_sandbox_runner/execution.py:54-57 | a watch withdraws one entry of its own and leaves the others in their order |
| ExecutionDeadlines.ExpiredForever | sandbox_runner/lumen_sandbox_runner/execution.py:34-57 | `expired` never resets, and from then on nothing is registered or withdrawn and no watch is cleared for its body |
| ExecutionDeadlines.EntersOnlyIfCleared | sandbox_runner/lumen_sandbox_runner/execution.py:23-57 | of the watches that have not entered their body when the deadline has expired, exactly those that had read the flag clear before and not acted on it yet can still enter, for an arbitrary clock; all others never do |
| ExecutionDeadlines.NoBodyAfterSeenExpiry | sandbox_runner/lumen_sandbox_runner/execution.py:24-57 | a watch whose check sees the flag set never enters its body |
| ExecutionDeadlines.LateEntry | sandbox_runner/lumen_sandbox_runner/execution.py:24-57 | the schedule in which a whole expiry, callbacks included, falls between a watch's reading of the flag and its body |
| ExecutionDeadlines.NothingCalledBefore | sandbox_runner/lumen_sandbox_runner/execution.py:34-57 | before expiry no callback is called |
| ExecutionDeadlines.NoPhaseStuck | sandbox_runner/lumen_sandbox_runner/execution.py:23-57 | no phase is stuck: every unfinished call has a step in every reachable state, where lock sections are single steps and callbacks return |
| ExecutionDeadlines.RunKeeps | sandbox_runner/lumen_sandbox_runner/execution.py:23-57 | in every reachable state every entered watch is accounted for exactly once: registered, withdrawn, taken or late |
| ExecutionDeadlines.StepKeeps | sandbox_runner/lumen_sandbox_runner/execution.py:23-57 | each single step keeps that account |
| ExecutionDeadlines.ExpiringStep | sandbox_runner/lumen_sandbox_runner/execution.py:34-37 | the step that sets the flag takes all registered callbacks at once |
| ProcessCleanup.Cleanup | sandbox_runner/lumen_sandbox_runner/commands.py:21-41 | however processes fork and exit meanwhile, no signal reaches PID 1, the script or a baseline process; when the loop stops, its last pass listed the table, killed nothing, and is followed by the script's exit |
| ProcessCleanup.PassLeaves | sandbox_runner/lumen_sandbox_runner/commands.py:25-40 | a pass, whether it kills or not, leaves a foreign process if and only if anything born after its listing, PID 1 aside, is alive: all that was listed is dead or spared |
| ProcessCleanup.SweptLeavesOnlyLater | sandbox_runner/lumen_sandbox_runner/commands.py:21-41 | after the script has exited, all that lives beside PID 1 and the baseline was born after the last listing; the table is quiet exactly when nothing born after it lives, PID 1 aside |
| ProcessCleanup.QuietExactly | sandbox_runner/lumen_sandbox_runner/commands.py:21-41 | and that stays the exact condition as long as only later-born processes are stray, which they are for good |
| ProcessCleanup.QuietListing | sandbox_runner/lumen_sandbox_runner/commands.py:25-40 | while no new process descends from a spared one, a pass whose listing shows nothing foreign kills nothing and leaves nothing foreign |
| ProcessCleanup.NothingIsBorn | sandbox_runner/lumen_sandbox_runner/commands.py:25-40 | where only spared processes live and none of them forks, nothing is born |
| ProcessCleanup.ChildEscapes | sandbox_runner/lumen_sandbox_runner/commands.py:25-40 | the exception is real: a parent that forks and exits after being listed leaves its child alive when the script is gone |
| ProcessCleanup.KillsOnlyStrays | sandbox_runner/lumen_sandbox_runner/commands.py:29-35 | a signal sent to a pid read before never reaches a baseline process, even when the pid was used again in between |
| ProcessCleanup.OnlyLaterStays | sandbox_runner/lumen_sandbox_runner/commands.py:21-41 | what a cleanup achieved is not undone by anything processes do later |
| ProcessCleanup.SnapshotSparesEscaped | sandbox_runner/lumen_sandbox_runner/commands.py:3-16 | an escaped process is in the next execution's baseline and is spared from then on |
| ExecutionFlow.Sandbox.ExecuteUnlocked | sandbox_runner/lumen_sandbox_runner/engine.py:584-675 | on every exit after the snapshot, also by exception, with removals that succeed: the container is stopped, or every live process in it outside the pre-execution baseline was born after the last cleanup pass had listed the table; the baseline is exactly what was there before; a report is that of the run, of an error that names a limit, or a timeout, the last exactly when the deadline was over or passed; a limit means a container that no longer runs; when no cleanup fails, a call answers as the run, its crash or its collection demands |
| ExecutionFlow.Sandbox.RunGuarded | sandbox_runner/lumen_sandbox_runner/engine.py:628-639 | before the deadline expires, snapshot, body and cleanup leave the container swept in that sense, or remove it |
| ExecutionFlow.Sandbox.TakeSnapshot | sandbox_runner/lumen_sandbox_runner/engine.py:705-711 | the baseline is exactly what was there before, escaped processes of earlier executions included |
| ExecutionFlow.Sandbox.ExecuteBody | sandbox_runner/lumen_sandbox_runner/engine.py:719-858 | what the body reports is the classification of the daemon's reply as collection and clipping amend it; a failure while the container runs is raised with its text; the baseline is dropped only once the container is swept |
| ExecutionFlow.Collect | sandbox_runner/lumen_sandbox_runner/engine.py:828-842 | files, reason and stderr after collection, against the classification; only collection itself can raise |
| ExecutionFlow.Sandbox.StopProcesses | sandbox_runner/lumen_sandbox_runner/engine.py:612-616 | cleanup runs the script's passes on the container's processes, only with a baseline and a container said to run; success before the deadline means swept, failure keeps the baseline |
| ExecutionFlow.Sandbox.Conclude | sandbox_runner/lumen_sandbox_runner/engine.py:640-675 | an error without a limit is raised again; an expired deadline overrides any report, and the container is removed whatever the daemon said while it was expired; a limit ends the container and is never a success |
| ExecutionFlow.ReportsSettle | sandbox_runner/lumen_sandbox_runner/engine.py:817-842 | every report of the body, once finalised, has success only with `completed`, and no limit with success |
| ExecutionFlow.RunDecides | sandbox_runner/lumen_sandbox_runner/engine.py:791-858 | the report of a run from the daemon's reply alone: success exactly with exit code 0, no process limit hit, no limit named, nothing clipped and nothing left uncollected; killed exactly after running out of memory or in a stopped container; and which reason otherwise |
| ExecutionFlow.AnswersFrom | sandbox_runner/lumen_sandbox_runner/engine.py:640-675 | the crash or collection error of a run is raised, or reported under the limit it names |
| ExecutionFlow.NotedIsUnmarked | sandbox_runner/lumen_sandbox_runner/engine.py:833-842 | the note on a partial collection does not count as clipped text |
| ExecutionFlow.ClippedEndsAsOutputLimit | sandbox_runner/lumen_sandbox_runner/engine.py:841-842 | when a clipped stream ends as `sandbox_limit_output`: always after a normal end, on stdout only after an out-of-memory kill, never after a stopped container |
| ExecutionFlow.ClippedErrorIsLost | sandbox_runner/lumen_sandbox_runner/engine.py:800-802 | a run in which a clipped stderr leaves no trace: the program ran out of memory |
| ExecutionFlow.ResourceReason | sandbox_runner/lumen_sandbox_runner/engine.py:694-703 | which texts, in any letter case, are attributed to scratch, pids or memory, and that all others are to none |
| ExecutionFlow.ReasonOfCrash | sandbox_runner/lumen_sandbox_runner/engine.py:643-650 | the words put in front of a daemon's error (line 823) neither hide nor add a limit |
| ExecutionEngine.Engine.ExecuteExisting | sandbox_runner/lumen_sandbox_runner/engine.py:388-406 | a cached key returns its result and touches nothing; otherwise, whatever other executions and closes did to the cache meanwhile, it is left so, or is exactly what remembering the new report makes of it then; every cached report was produced under its own key, was not killed, and is settled |
| ExecutionEngine.Engine.Meanwhile | sandbox_runner/lumen_sandbox_runner/engine.py:371-419 | any number of results of other sessions and of closes leave the cache sound |
| ExecutionEngine.LookupFinds | sandbox_runner/lumen_sandbox_runner/engine.py:392-394 | a cached report is the one stored under the key |
| ResultCaches.ResultCache.Remember | sandbox_runner/lumen_sandbox_runner/engine.py:300-319 | from every state that `close` can leave: at most 64 results, whose streams and files together hold at most 128 MiB, and the survivors are the longest suffix of insertion order within both bounds with the stale bytes counted in |
| ResultCaches.ResultCache.Close | sandbox_runner/lumen_sandbox_runner/engine.py:410-419 | only entries the call covers go, and the accounted bytes stay: what was retained becomes stale |
| ResultCaches.Survivors | sandbox_runner/lumen_sandbox_runner/engine.py:313-319 | the longest suffix that fits, every longer one being over a bound |
| ResultCaches.AccountedSplits | sandbox_runner/lumen_sandbox_runner/engine.py:313-316 | the sum the loop tests is the retained bytes plus the stale ones |
| ResultCaches.RetainedIsContents | sandbox_runner/lumen_sandbox_runner/engine.py:185-199 | the retained bytes are the lengths of every stdout, stderr and collected file of the cached results, each once |
| ResultCaches.FitsMeans | sandbox_runner/lumen_sandbox_runner/engine.py:313-316 | the two bounds over those contents |
| ResultCaches.PutKeepsPlace | sandbox_runner/lumen_sandbox_runner/engine.py:311-312 | remembering a key again does not make it younger |
| ResultCaches.NewestSurvives | sandbox_runner/lumen_sandbox_runner/engine.py:300-319 | a new result survives its own insertion exactly when it fits beside the stale bytes; stale bytes above the cap empty the cache |
| ResultCaches.CloseLeavesOrphans | sandbox_runner/lumen_sandbox_runner/engine.py:417-419 | `close` leaves orphaned byte entries exactly when it covers a cached result |
| ResultCaches.RememberedAnyway | sandbox_runner/lumen_sandbox_runner/engine.py:388-419 | a result remembered after other threads used the cache is there exactly if it fits beside the stale bytes; a `close` of its own session during the execution makes no difference |
| ResultCaches.ClosedAndRemembered | sandbox_runner/lumen_sandbox_runner/engine.py:388-419 | such a run: closed while it executes, the session has its result cached afterwards |
| ResultCaches.OpenKeys | sandbox_runner/lumen_sandbox_runner/engine.py:417-419 | `close` drops exactly the covered keys |
| ResultCaches.CloseForgets | sandbox_runner/lumen_sandbox_runner/engine.py:417-419 | `close` forgets the keys of its session, of one generation or of all, and no others |
| ResultCaches.OpenAppend | sandbox_runner/lumen_sandbox_runner/engine.py:417-419 | what it leaves keeps its order, and so its age |
| ResultCaches.EvictAgrees | sandbox_runner/lumen_sandbox_runner/engine.py:317-319 | an eviction keeps keys, sizes and stale bytes in agreement |
| SessionContainers.Session.Ensure | sandbox_runner/lumen_sandbox_runner/engine.py:425-507 | with `close` interfering between any two daemon calls and any failure: the number of the session's containers never rises above one, or above what it was; a container returned has the requested generation, the configured runtime or none reported, an equal fingerprint and matching bounds; a new one is launched only under an agreed runtime and from a local image, and is then the only one |
| SessionContainers.SuitsMeans | sandbox_runner/lumen_sandbox_runner/engine.py:428-457 | a container is reused exactly when generation, fingerprint, reported runtime and bounds are those asked for |
| SessionContainers.Session.Reuse | sandbox_runner/lumen_sandbox_runner/engine.py:426-457 | a found container suits; when none is found, one was removed or there was none, and what is left was left after removing an unsuitable one of this generation |
| SessionContainers.Session.Launch | sandbox_runner/lumen_sandbox_runner/engine.py:459-507 | at most one container is added, and one that is gone or whose bounds do not match when it is looked at is never returned |
| SessionContainers.Session.Close | sandbox_runner/lumen_sandbox_runner/engine.py:410-416 | no container is ever added, and on success none that is covered is left |
| ContainerBounds.FingerprintInjective | sandbox_runner/lumen_sandbox_runner/engine.py:538-554 | fingerprints are equal exactly for policies equal up to the effective output cap |
| ContainerBounds.JoinInjective | sandbox_runner/lumen_sandbox_runner/engine.py:541-554 | joining with a bar is injective on parts that hold none |
| ContainerBounds.EqualFingerprintsSameContainer | sandbox_runner/lumen_sandbox_runner/engine.py:538-582 | policies with equal fingerprints have the same engine flags, root mode, output cap and wall clock |
| ContainerBounds.CreatedMatches | sandbox_runner/lumen_sandbox_runner/engine.py:509-582 | a container created faithfully from a policy passes its check, and passes another policy's check exactly when that one asks for nothing else |
| ContainerBounds.MatchesExactly | sandbox_runner/lumen_sandbox_runner/engine.py:509-536 | the check passes exactly the containers with the memory and no swap beyond it, process limit, CPU share and root mode asked for, and the bounded volume as the only mount at the workspace |
| ContainerBounds.SizeInjective | sandbox_runner/lumen_sandbox_runner/engine.py:45-70 | the volume's option text determines the scratch size |
| ContainerBounds.EffectiveOutputCap | sandbox_runner/lumen_sandbox_runner/engine.py:1136-1141 | between one byte and 64 MiB, below the request only at the ceiling, above it only at one byte, and the ceiling when none is made |
| ContainerBounds.CapSurvivesLabel | sandbox_runner/lumen_sandbox_runner/engine.py:1136-1152 | the cap read back from the label is the one the container was created with; no label gives more than the ceiling |
| CollectionPermits.RunKeeps | sandbox_runner/lumen_sandbox_runner/engine.py:129-134 | over every run with any number of threads: permits left and collections in flight make three, a call that is over has released exactly what it acquired, one that never acquired raised with its deadline expired, and at most three times 64 MiB of file data is held |
| CollectionPermits.ExpiredCallsCollectNothing | sandbox_runner/lumen_sandbox_runner/engine.py:1236-1250 | at both looks at the deadline an expired call turns back without collecting |
| CollectionPermits.HeldAt | sandbox_runner/lumen_sandbox_runner/engine.py:129-134 | the data held is that of the collections in flight, each counted once |
| CollectionPermits.StepKeeps | sandbox_runner/lumen_sandbox_runner/engine.py:1236-1252 | each step of a thread, and each expiry from outside, keeps that |
| CollectionPermits.SomeoneMoves | sandbox_runner/lumen_sandbox_runner/engine.py:1236-1252 | while a call is not over some call can move, and a release never finds the permits full |
| CollectionPermits.HeldWithin | sandbox_runner/lumen_sandbox_runner/engine.py:129-134 | file data held is bounded by the collections in flight times the ceiling |
| TeardownPools.RunKeeps | sandbox_runner/lumen_sandbox_runner/main.py:37-45 | over every run: neither pool runs more than its threads, executions of one session exclude each other, a session has at most one container, and what a finished teardown set out to remove is gone |
| TeardownPools.CanTearDown | sandbox_runner/lumen_sandbox_runner/main.py:122-135 | a teardown under way can always go on, and a waiting one can start when a teardown worker is free, without any step of an execution |
| TeardownPools.TeardownMoveKeeps | sandbox_runner/lumen_sandbox_runner/engine.py:410-416 | a teardown removes containers of its own session and generation only |
| TeardownPools.Drain | sandbox_runner/lumen_sandbox_runner/main.py:37-45 | from every reachable state teardown steps alone bring any teardown to its end, in three steps of its own when a worker is free |
| TeardownPools.CancelUnblocks | sandbox_runner/lumen_sandbox_runner/engine.py:410-423 | with every execution worker blocked under its session lock, cancelling removes the generation's container and lets its execution end |
| TeardownPools.MoveWorks | sandbox_runner/lumen_sandbox_runner/engine.py:410-416 | every teardown step brings all teardowns together nearer to their end |
| TeardownPools.ExecutionsLeaveTeardowns | sandbox_runner/lumen_sandbox_runner/engine.py:254-263 | no step of an execution disables a teardown or gives it more to do |
| TeardownPools.GoneForGood | sandbox_runner/lumen_sandbox_runner/engine.py:410-416 | a removed container never comes back, whatever is ensured later |
| AuditTransactions.DurableAudit.ExecuteIdempotent | backend/app/db/audit_transactions.py:194-230 | whatever COMMITs do, connections, timeouts and cancellations, also one while the first attempt's session closes: one or two write attempts, and when two; the event's row is left alone or written once; a return means exactly that canonical row is there, and happens exactly under the condition spelled out; otherwise which error is raised; both reconciliations read nothing exactly under another condition, and that means an error and no row; a durable first COMMIT is never retried |
| AuditTransactions.DurableAudit.Recover | backend/app/db/audit_transactions.py:214-226 | at most one retry, and none when the read fails or finds the row; when it reads nothing twice |
| AuditTransactions.DurableAudit.Attempt | backend/app/db/audit_transactions.py:102-145 | the row after one attempt, when the attempt is acknowledged and when it is ambiguous; a cancellation on the way out of its session replaces either by a plain cancellation |
| AuditTransactions.DurableAudit.InSession | backend/app/db/audit_transactions.py:110-145 | the same inside the session, before it is closed |
| AuditTransactions.DurableAudit.Reconcile | backend/app/db/audit_transactions.py:161-192 | reads without changing the event's row; found, absent and error are told apart exactly |
| AuditTransactions.DurableAudit.Settle | backend/app/db/audit_transactions.py:147-159 | cancelled exactly if the caller cancelled at least once while the awaited work drained |
| AuditTransactions.DurableAudit.Record | backend/app/db/repositories.py:6149-6213 | insert unless present, then compare: success exactly if the stored row is the canonical one |
| AuditTransactions.RowWrittenOnce | backend/app/db/audit_transactions.py:194-230 | over any number of calls for one event the row is written at most once and never changes |
| AuditTransactions.UndisturbedOutcome | backend/app/db/audit_transactions.py:194-230 | with readable replies and no cancellation, a doubly ambiguous call returns exactly if the row is there in the end, and otherwise has read nothing twice exactly if it is not |
| AuditTransactions.CancelledWhileClosing | backend/app/db/audit_transactions.py:109-124 | two calls that would return and instead raise a cancellation without a look at the row: one with an acknowledged COMMIT, one with an unclear one |
| ImageReferences.AcceptsExactlyPinned | backend/app/core/config.py:1439-1475 | the validator accepts exactly the strings that print a well-formed pinned reference, a bare `@` after one without digest included; that reference is unique and is the one the split finds |
| ImageReferences.PrintedIsAccepted | backend/app/core/config.py:1439-1475 | every well-formed pinned reference is accepted as printed and returned unchanged |
| ImageReferences.SplitPrint | backend/app/core/config.py:1446-1453 | splitting the printed form gives back name, tag and digest, registry ports and all |
| ImageReferences.SplitReprints | backend/app/core/config.py:1446-1453 | whatever is split reprints to itself, up to a bare `@` |
| ImageReferences.NameTail | backend/app/core/config.py:174-186 | what follows a name's last slash is a path component, so the colon of a registry port is never taken for a tag's |
| ReferenceShapes.CapitalsNeedHost | backend/app/core/config.py:174-186 | a capital letter is only accepted in a registry host, and what precedes the slash is one only with a dot or a port |
| ReferenceShapes.TagShape | backend/app/core/config.py:187-190 | a tag is a word character and at most 127 word characters, dots and hyphens |
| ReferenceShapes.DigestShape | backend/app/core/config.py:162-165 | a digest is `sha256:` and 64 lower-case hexadecimal digits |
| ImageReferences.PrintLetters | backend/app/core/config.py:174-190 | nothing of a well-formed reference holds a blank or an `@` |
| Grammar.MatchUses | backend/app/core/config.py:174-190 | a match of an expression holds only characters the expression uses |
| AsciiText.PartitionOf | backend/app/core/config.py:1446-1452 | `partition` splits at the first separator |
| AsciiText.LastPartitionOf | backend/app/core/config.py:1451-1451 | `rpartition` splits after the last one |
| AsciiText.StripsBlanks | backend/app/core/config.py:1443-1443 | `strip` takes all blanks from both ends and nothing else |
| EmbeddingMigration.Database.Upgrade | backend/alembic/versions/20260811_0000-0045_embedding_contract.py:43-189 | succeeds exactly from the schemas spelled out, then leaves exactly the new schema with every vector in its place; any failure changes nothing |
| EmbeddingMigration.Database.Downgrade | backend/alembic/versions/20260811_0000-0045_embedding_contract.py:192-272 | succeeds exactly from the new schema with an empty archive, then leaves the old one with the wide vectors parked; a populated archive, or any other failure, changes nothing |
| EmbeddingMigration.Database.DowngradeTables | backend/alembic/versions/20260811_0000-0045_embedding_contract.py:212-272 | the statements behind the guard succeed exactly then |
| EmbeddingMigration.Database.UpgradeColumns | backend/alembic/versions/20260811_0000-0045_embedding_contract.py:49-99 | the block's branches under three-valued comparisons succeed exactly on the upgradable column types |
| EmbeddingMigration.Database.DowngradeColumns | backend/alembic/versions/20260811_0000-0045_embedding_contract.py:222-269 | a missing column passes the type tests, fails the renaming, and so never gets through |
| EmbeddingMigration.MigrationKeeps | backend/alembic/versions/20260811_0000-0045_embedding_contract.py:1-23 | from any schema at all, neither migration moves, alters or drops a vector of either width, an archived one, or any other column |
| EmbeddingMigration.EventKeeps | backend/alembic/versions/20260811_0000-0045_embedding_contract.py:192-272 | one event keeps the schema legal and the vectors of every chunk the application does not rewrite |
| EmbeddingMigration.RunKeeps | backend/alembic/versions/20260811_0000-0045_embedding_contract.py:1-23 | over every run of upgrades, downgrades, stores and detachments from a legal schema, a chunk not rewritten keeps its 1,024 vector, archived or not, and, if not detached, its 2,048 vector |
| EmbeddingMigration.OldVector | backend/alembic/versions/20260811_0000-0045_embedding_contract.py:116-120 | where a chunk's old vector is: in the archive if it was detached, else set aside or active |
| EmbeddingMigration.DownAndUp | backend/alembic/versions/20260811_0000-0045_embedding_contract.py:13-18 | down and up again restores the whole schema and both vector sets; only the fingerprints are gone |
| EmbeddingMigration.UpAndDown | backend/alembic/versions/20260811_0000-0045_embedding_contract.py:13-18 | up and down again restores the old schema with the parked column and the index in place |
| EmbeddingMigration.ReadyAfterUpgradeOnly | backend/app/db/embedding_contract.py:39-72 | the guard admits every upgraded schema and no downgraded one, whatever the settings |
| EmbeddingMigration.ReadyExactly | backend/app/db/embedding_contract.py:39-79 | with the new columns it admits exactly the schemas without the old index whose parked column is absent or not of the form `vector(n)`; in the last case neither migration would run |
| EmbeddingMigration.UnsizedParkedColumnIsMissed | backend/app/db/embedding_contract.py:75-79 | a schema that shows the exception: ready, although a parked column exists and neither migration would run |
| EmbeddingMigration.DimensionOf | backend/app/db/embedding_contract.py:75-79 | the width read off a printed vector type is its width |
| ReportTable.RowReadsBack | scripts/qa_tracking.py:487-488 | for all cells, whatever bars, backslashes and line breaks they hold, splitting a rendered row at the pipes no backslash precedes and unescaping gives exactly its cells, line breaks as spaces |
| ReportTable.PiecesOfRow | scripts/qa_tracking.py:536-545 | the split has exactly one piece a cell between the outer bars |
| ReportTable.ReportReadsBack | scripts/qa_tracking.py:491-551 | a report has one line for every row below its header, and each reads back as its row |
| ReportTable.RenderReport | scripts/qa_tracking.py:491-551 | the loops produce exactly the selected rows, in order, the note when there are none, or the error for an unknown case |
| ReportTable.RowsInScope | scripts/qa_tracking.py:500-535 | every row is a recorded outcome of the commit and case asked for |
| ReportTable.Reported | scripts/qa_tracking.py:500-535 | no recorded outcome of them is missing |
| ReportTable.RowShows | scripts/qa_tracking.py:524-544 | which build, definitions and environment a row shows |
| ReportTable.DefinitionStateTells | scripts/qa_tracking.py:516-520 | a definition is called current exactly when it is the recorded one |
| ReportTable.MarkdownIsOneLine | scripts/qa_tracking.py:487-488 | an escaped cell has no line break, and no carriage return of its own making |

## Left out

- OutputCollector.CollectMembers: archives are sequences of ustar entries; the ustar prefix field, pax and GNU extension headers, sparse members, corrupt checksums, base64 and content types are not modelled. A stream that ends early, between two entries, looks like a complete archive to the parser; what the flag promises is about complete ones.
- OutputCollector.TarStream.Read: the parser's read-ahead size is any positive number, not the library's.
- StreamRetention.Drain: a stream that breaks off with an exception and the exit code lookup are left to the reply in `ExecutionFlow`.
- ExecutionEngine.Engine.ExecuteExisting: `execute` is the same after ensuring the container, so it has no member of its own; timings, image digest and package list are not part of a report.
- ExecutionFlow.Sandbox.ExecuteBody: installing packages and staging inputs is one step that succeeds or raises; the note on partial collection is without its byte count; the daemon tells the truth about what runs until the deadline expires, and anything after.
- ProcessCleanup.Cleanup: the script's loop need not end, so the model runs it for a given number of passes and says what holds if it stops; a pid with its start time is never used again, and a signal takes effect at once.
- ExecutionFlow.Sandbox.TakeSnapshot: the snapshot reads the table at one moment.
- SessionContainers.Session.Ensure: image digests, environment, mounts and names of the launch, and labels that are not numbers.
- ContainerBounds.FingerprintInjective: a float is its `repr`, and its conversion to billionths is a parameter.
- ContainerBounds.CapSurvivesLabel: labels that `int` reads but that are not plain digits, such as signs or blanks, read as odd ones here.
- WheelNames.WheelNamesItsDistribution: ASCII names only.
- ImageReferences.AcceptsExactlyPinned: ASCII only, as Python's `\w` and `strip` take other alphabets too.
- PackageReplacement.FileSystem.Replace: no symbolic links, no hard links, no `..` in manifests (an entry is inside the target or escapes it); manifests are those at the start, although the script reads each when its turn comes and newer versions of `importlib.metadata` leave out entries that are gone; the order in which `copytree` visits is arbitrary; after a failure only what is unharmed is stated.
- AuditTransactions.DurableAudit.ExecuteIdempotent: other writers do not use the event id, and a COMMIT that has not taken effect when its connection is discarded never does; statement text, tenant binding and pool are not modelled.
- EmbeddingMigration.Database.Upgrade: row-level security, policies and the other columns of the archive; a migration runs in one transaction.
- EmbeddingMigration.RunKeeps: chunks that the application deletes without detaching them.
- CollectionPermits.RunKeeps: the held bytes are file data; encoding copies and the reader's buffer come on top.
- TeardownPools.Drain: that a daemon call returns at all; a removal fails only for a container that is gone.
- ReportTable.RenderReport: sorting by finishing time and hashing; the runs come in order with their digests.
- ReportTable.RowReadsBack: a reader that trims all blanks of a cell recovers it only up to those; cells with a carriage return may end a line for a reader that takes one for a line break.
- ExecutionEngine.Engine.Meanwhile: each `_remember` and the forgetting part of each `close` is one step; threads inside one are not modelled.
- Cryptography, tokens, other migrations and settings, retrieval, connectors and the frontend: thin wrappers or declarations, or code that decides elsewhere.
