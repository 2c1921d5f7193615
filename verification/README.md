# Model of the crate-intelligence server

This project models the parts of an MCP server for Rust crates whose correctness is
not visible in any single function, and proves properties of them:

- **the durable refresh queue** (`RefreshQueue`, `RetryDelay`), the channels on which
  tool handlers wait (`Coordinator`), the worker's loop (`RefreshWorker`), and all of
  them interleaved step by step with any number of handlers (`IndexingSystem`,
  `IndexingRuns`, `IndexingWaits`);
- **the outbound rate limiter**, one acquirer at a time (`RateLimiter`) and under every
  interleaving (`ConcurrentLimiter`);
- **advisory applicability**: version precedence (`SemVer`), OSV and GHSA ranges
  (`AdvisoryRanges`), what their texts mean (`VersionTexts`, `OsvTexts`, `GhsaJoins`), the
  merge of stored rows (`AdvisoryMerge`) and what it answers for given rows
  (`AdvisoryAnswers`);
- **the stdio proxy**: metadata and headers of stateless requests (`StatelessProtocol`,
  `HeaderValue`, `Base64`), and its session machine and relay (`StdioProxy`);
- **fast forms and parsers**: globs as LIKE patterns (`Glob`), cursors and page numbers
  (`Pagination`), registry names and scans (`RegistryName`), the watcher of the registry
  cache (`CacheWatcher`);
- **the index tables**, their replace and prune transactions (`IndexTables`), and what
  replacing reports and repeats (`IndexReplacement`).

`Text`, `Sorting`, `Json` and `Options` hold what the others share.
`dafny verify dfyconfig.toml` checks everything.

State that the program changes in place is a class (`RefreshJobs`,
`IndexingCoordinator`, `Worker`, `OutboundRateLimiter`, `Upstream`, `Watcher`,
`IndexStore`); loops are methods with invariants. Each is proved against functions or
predicates on values, and the properties of runs are lemmas about those. Concurrency is
a machine whose steps are the database statements, map accesses, channel operations,
lock operations and clock readings of the program.

## Assumptions

- A database statement or transaction is one atomic step and does not fail for reasons
  of its own; constraint violations are modelled. `enqueue_or_get_refresh_job_id`, a
  SELECT followed by an INSERT, is one step.
- The worker does not crash between claiming a job and recording its result. The queue
  that a process starts with has no running rows.
- The body of a job is any function from the job to success or failure; it enqueues
  nothing. The network is any function from the number of a POST to its reply.
- Clock readings are integers given as parameters; the limiter's `checked_sub` does not
  fail. A 32-bit page offset wraps around, as in a release build.
- JSON text is a parsed value; `Json.Value` numbers are integers. UTF-8 is a given map
  from text to bytes, and header values are its bytes. The serialisation of cursors is
  any encoding that can be read back.
- A poll of the cache watcher sees one snapshot of the cache.
- Crate names are ASCII where they are lower-cased. Integers are unbounded except in
  `RetryDelay`, `Pagination` and the numbers of `SemVer`.

## Findings

Where the code and a plausible expectation, or its own comments, disagree, the model
follows the code:

- Waiting for a job without a registered waiter reports completion even if the job has
  failed (`IndexingRuns.UnregisteredWaitIsOptimistic`). Completions are sure to be true
  exactly when the waiter is there or the job has finished
  (`IndexingWaits.CompletionIsTruthfulExactlyWhen`).
- A handler that registers after its job has settled waits for its timeout
  (`IndexingWaits.LateRegistrationWaitsInVain`). `IndexingWaits.WaiterIsToldExactlyWhen`
  says exactly which waiting handlers can still be told anything.
- The window bound of the limiter needs a clock that moves between calls, because
  eviction is strict (`RateLimiter.StandingClockBreaksTheBound`), and does not survive
  concurrent acquirers, because fullness is not checked again after the sleep
  (`ConcurrentLimiter.ConcurrentTasksOverrunTheWindow`). For one acquirer
  `RateLimiter.WindowHoldsExactlyWhenSafe` and for any number
  `ConcurrentLimiter.BoundHoldsExactlyWhenRoom` say exactly when it holds.
- A page number whose offset does not fit 32 bits shows rows that were shown before:
  `Pagination.PageNumberIsExactUnlessItWraps`.
- Joining a GHSA text whose last alternative ends in ` ||` with another does not join
  verdicts (`GhsaJoins.DanglingTextLosesAnAlternative`); `GhsaJoins.JoinsExactlyWhen` says
  exactly when it does.
- The comment on the row counts speaks of inserted rows, but skipped types are counted
  too; `IndexReplacement.ReportedTypesAreWrittenExactlyWhen` says when the two agree.
- A version-level replacement from a source other than rustdoc loses types whose names
  another source holds in the same file (`IndexTables.VersionReplacementMayMissTypes`,
  `IndexReplacement.TakenTypeIsReportedButNotWritten`). The only caller of that operation,
  crates/rust-mcp/src/mcp/indexing/rustdoc_json.rs:1644, passes `rustdoc_json`, for which
  nothing is lost (`IndexTables.RustdocReplacementIsExact`); so this does not happen today.
- Repeating a file-level replacement adds its traits again
  (`IndexReplacement.FileReplacementRepeated`); the extraction that uses it,
  crates/rust-mcp/src/mcp/indexing/local_cache.rs:654, finds no traits.

## Model

| member | source | states |
|---|---|---|
| `RefreshQueue.RefreshJobs.EnqueueOrGet` | crates/rust-mcp/src/db/indexing.rs:858-901 | returns the one active job of the (lower-cased crate, scope), adding a pending row only if there is none; keeps the queue invariant |
| `RefreshQueue.KeysIgnoreCase` | crates/rust-mcp/src/db/indexing.rs:858-901 | two jobs have the same key if and only if their scopes agree and their crate names differ in the case of letters only |
| `RefreshQueue.RefreshJobs.ClaimNext` | crates/rust-mcp/src/db/indexing.rs:1207-1232 | claims the least due pending row in (priority, attempts, requested_at, id), or nothing exactly when none is due; uses up one unit of work |
| `RefreshQueue.NextComesFirst` | crates/rust-mcp/src/db/indexing.rs:1212-1224 | the next row has the lowest priority number, then the fewest attempts, then the earliest time, then the lowest id of all that can run |
| `RefreshQueue.RefreshJobs.MarkFinished` | crates/rust-mcp/src/db/indexing.rs:1235-1247 | settles the running row and frees its remaining work; nothing else changes |
| `RefreshQueue.RefreshJobs.MarkFailedOrRequeued` | crates/rust-mcp/src/db/indexing.rs:1250-1273 | a failed attempt fails the row at the third attempt and otherwise requeues it after the delay; never adds work |
| `RefreshQueue.EnqueueKeepsInv` | crates/rust-mcp/src/db/indexing.rs:858-901 | at most one pending or running row per (lower-cased crate, scope), attempts within the bounds of each status: kept by enqueueing |
| `RefreshQueue.WorkOfUpdate` | crates/rust-mcp/src/mcp/indexing/worker.rs:283-328 | changing one row changes the total work by the difference of that row |
| `RefreshQueue.WorkIsNatural` | crates/rust-mcp/src/mcp/indexing/worker.rs:87-328 | with attempts in bounds the work of a queue is never negative and bounds that of each row |
| `RetryDelay.DelayIsNearBackoff` | crates/rust-mcp/src/mcp/indexing/worker.rs:69-83 | for every job id, attempt and clock: within 15% of min(300, 5*2^e), the last clamp never changes it, and within the range of its exponent |
| `RetryDelay.LaterAttemptsWaitLonger` | crates/rust-mcp/src/mcp/indexing/worker.rs:69-83 | whatever the jitter, a later attempt waits longer, until the exponent is capped |
| `RetryDelay.JitteredRange` | crates/rust-mcp/src/mcp/indexing/worker.rs:69-83 | least and greatest delay of each exponent, with division truncating toward zero |
| `RetryDelay.EveryJitterOccurs` | crates/rust-mcp/src/mcp/indexing/worker.rs:74-80 | while nothing wraps around, any 31 successive clock readings give every percentage from -15 to 15 |
| `RetryDelay.NearbyJobsSpread` | crates/rust-mcp/src/mcp/indexing/worker.rs:79-80 | jobs with ids fewer than 31 apart that fail at the same instant get different percentages |
| `Coordinator.IndexingCoordinator.Register` | crates/rust-mcp/src/mcp/indexing/coordinator.rs:100-109 | registers a fresh channel unless there is one; every channel stays coherent |
| `Coordinator.IndexingCoordinator.Subscribe` | crates/rust-mcp/src/mcp/indexing/coordinator.rs:121-129 | joins the receivers of the registered channel; without one nothing changes |
| `Coordinator.IndexingCoordinator.SignalCompletion` | crates/rust-mcp/src/mcp/indexing/coordinator.rs:165-175 | delivers the outcome to a watched channel, closes it and forgets the waiter; no other channel or waiter is touched |
| `Coordinator.RegisterKeepsInv` | crates/rust-mcp/src/mcp/indexing/coordinator.rs:100-109 | registering keeps the channel invariant and leaves older channels as they are |
| `Coordinator.TakeKeepsInv` | crates/rust-mcp/src/mcp/indexing/coordinator.rs:170 | taking a sender out of the map keeps the channel invariant |
| `Coordinator.SendKeepsInv` | crates/rust-mcp/src/mcp/indexing/coordinator.rs:171-173 | a channel takes at most one value, and none when nobody watches |
| `Coordinator.DropKeepsInv` | crates/rust-mcp/src/mcp/indexing/coordinator.rs:170-174 | a sender is dropped only after its one value was sent or nobody watched |
| `IndexingSystem.StepKeepsInv` | crates/rust-mcp/src/mcp/indexing/coordinator.rs:82-175 | every step of any handler, the worker or the outside world keeps queue, channels, worker, log and handlers in agreement |
| `IndexingSystem.InitInv` | crates/rust-mcp/src/mcp/indexing/worker.rs:86-89 | holds at start for any queue without running rows |
| `IndexingSystem.WaitingSeesTheValue` | crates/rust-mcp/src/mcp/indexing/coordinator.rs:139-150 | a waiting handler is woken only for a value that was sent, which is the first signal since it subscribed |
| `IndexingSystem.FirstSignalIsFirst` | crates/rust-mcp/src/mcp/indexing/coordinator.rs:165-175 | the recorded signal of a subscription is the first one for its job |
| `IndexingRuns.RunKeepsInv` | crates/rust-mcp/src/mcp/indexing/worker.rs:86-378 | the whole invariant in every reachable state, whatever the interleaving |
| `IndexingRuns.SettledJobsNeverChange` | crates/rust-mcp/src/db/indexing.rs:1207-1273 | over any stretch of a run rows are only added, keep crate, scope and priority, count attempts upwards and are frozen once finished or failed |
| `IndexingRuns.SubscriberReceivesTheFirstSignal` | crates/rust-mcp/src/mcp/indexing/coordinator.rs:120-160 | a handler that subscribed to a registered channel ends with its own timeout or with exactly the first signal for its job after that; never with Pending or a closed channel |
| `IndexingRuns.OneChannelOneOutcome` | crates/rust-mcp/src/mcp/indexing/coordinator.rs:165-175 | all subscribers of one channel that receive something receive the same |
| `IndexingRuns.ReportsAreJustified` | crates/rust-mcp/src/mcp/indexing/coordinator.rs:120-160 | a received failure was signalled for that job with that message; a completion received through a subscription means a finished row; the closed-channel error and Pending never occur |
| `IndexingRuns.SignalledHandlerCanProceed` | crates/rust-mcp/src/mcp/indexing/coordinator.rs:139-150 | once a signal is out, its waiting handler can proceed and then gets that outcome |
| `IndexingRuns.LateWaiterOnlyTimesOut` | crates/rust-mcp/src/mcp/indexing/coordinator.rs:100-159 | a handler on the registered channel of a job that has settled and is not about to be signalled waits until its own timeout, however the run goes on |
| `IndexingRuns.UnregisteredWaitIsOptimistic` | crates/rust-mcp/src/mcp/indexing/coordinator.rs:131-137 | a run in which a handler without a waiter reports completion although the job failed |
| `IndexingWaits.CompletionIsTruthfulExactlyWhen` | crates/rust-mcp/src/mcp/indexing/coordinator.rs:120-160 | when a handler is about to look for its waiter: every completion that it can then report, in any continuation, is true if and only if the waiter is there or the job has finished |
| `IndexingWaits.LateRegistrationWaitsInVain` | crates/rust-mcp/src/mcp/indexing/coordinator.rs:82-116 | a run that reaches a wait in vain: the job finishes between the enqueue and the registration |
| `IndexingWaits.SignalIsReached` | crates/rust-mcp/src/mcp/indexing/worker.rs:86-378 | from any state the worker can get to signalling a job that has not settled, however much other work comes first |
| `IndexingWaits.RegisteredWaiterIsToldExactlyWhen` | crates/rust-mcp/src/mcp/indexing/coordinator.rs:120-175 | a handler on the registered channel of its job can still receive an outcome if and only if the job has not settled or is about to be signalled |
| `IndexingWaits.WaiterIsToldExactlyWhen` | crates/rust-mcp/src/mcp/indexing/coordinator.rs:82-175 | in every reachable state a waiting handler can still receive an outcome if and only if its channel has been taken up, its job has not settled, or the worker is about to signal it |
| `IndexingRuns.StepSpendsPotential` | crates/rust-mcp/src/mcp/indexing/worker.rs:283-328 | each claim uses up one unit of work plus owed enrichment; no later step of the worker gives it back |
| `IndexingRuns.ClaimsAreBounded` | crates/rust-mcp/src/mcp/indexing/worker.rs:86-378 | claims in a run are at most the work at its start plus what others enqueue; so without others the worker stops |
| `IndexingRuns.IdleWorkerClaimsWhatIsDue` | crates/rust-mcp/src/db/indexing.rs:1207-1232 | an idle worker can claim whenever some pending row is due |
| `IndexingRuns.PendingRowWaits` | crates/rust-mcp/src/db/indexing.rs:1207-1273 | a pending row stays exactly as it is until it is claimed |
| `IndexingRuns.RetriesAreSpaced` | crates/rust-mcp/src/mcp/indexing/worker.rs:328-338 | after a failed attempt the next claim comes at least 5 s (first failure) or 9 s (second) later |
| `IndexingRuns.RetryIsSoonDue` | crates/rust-mcp/src/mcp/indexing/worker.rs:328-338 | 11 s after such a failure an unclaimed job is due again |
| `RefreshWorker.Worker.ProcessNext` | crates/rust-mcp/src/mcp/indexing/worker.rs:114-356 | one turn: claims the next row; for a job of a known scope the row and the watchers are told what its body returned, for any other that it failed: finished and Completed, or requeued or failed with the message and Failed with the same message; enrichment jobs are queued after a crate has been synced and nothing is otherwise; less work is left than before |
| `RefreshWorker.Worker.RecordSuccess` | crates/rust-mcp/src/mcp/indexing/worker.rs:246-325 | after a success the row is finished, its watchers are told Completed, and for a crate sync both enrichment jobs are active and nothing else was added |
| `RefreshWorker.Worker.RecordFailure` | crates/rust-mcp/src/mcp/indexing/worker.rs:327-356 | after a failure the row is failed at the third attempt and otherwise due again after the delay, with the message as last error, and its watchers are told Failed with that message |
| `RefreshWorker.Worker.EnqueueEnrichment` | crates/rust-mcp/src/mcp/indexing/worker.rs:306-324 | both enrichment scopes have an active job afterwards; older rows are untouched and only such jobs, at priority 75, are added |
| `RefreshWorker.Worker.Drain` | crates/rust-mcp/src/mcp/indexing/worker.rs:86-378 | with nobody else enqueueing, the loop settles every row after at most as many claims as there was work; every claimed row ends as the body of its last claim went, all its earlier claims failed, and rows that had settled before are untouched |
| `RateLimiter.OutboundRateLimiter.Acquire` | crates/rust-mcp/src/state.rs:127-191 | new deque, gate and grant of one acquisition; the deque stays a sorted suffix of the grants holding all in the window; the window bound is kept if the clock moved |
| `RateLimiter.OutboundRateLimiter.PassBurstGate` | crates/rust-mcp/src/state.rs:128-139 | consecutive passes are at least the burst interval apart |
| `RateLimiter.OutboundRateLimiter.EnterWindow` | crates/rust-mcp/src/state.rs:142-187 | eviction and, when the window is full, sleep and second eviction give the deque that the lemmas on histories describe |
| `RateLimiter.OutboundRateLimiter.EvictBefore` | crates/rust-mcp/src/state.rs:152-158 | pops exactly the leading entries older than the cutoff |
| `RateLimiter.GoesAheadExactlyWhenThereIsRoom` | crates/rust-mcp/src/state.rs:142-189 | an acquisition that takes no time is possible if and only if fewer than window_max grants are still in the window or the oldest of them has reached its deadline; it leaves those grants and its own |
| `RateLimiter.SleepsExactlyUntilTheDeadline` | crates/rust-mcp/src/state.rs:161-176 | an acquisition that finds window_max grants or more still in the window, the oldest before its deadline, wakes at or after that deadline and keeps what is then still in the window; any other keeps what it found, with no second look |
| `RateLimiter.EvictionFromHistory` | crates/rust-mcp/src/state.rs:147-158 | after an eviction the deque is the suffix of the grants that are not older than the window |
| `RateLimiter.AcquireKeepsDeque` | crates/rust-mcp/src/state.rs:142-190 | for any clock readings the deque stays a sorted suffix holding every grant in the window |
| `RateLimiter.AcquireKeepsWindow` | crates/rust-mcp/src/state.rs:142-190 | if the clock has moved since the last grant, grant k + window_max stays a full window after grant k |
| `RateLimiter.WindowHoldsExactlyWhenSafe` | crates/rust-mcp/src/state.rs:152-189 | one acquisition: whatever its later clock readings, it respects the window if and only if what is left after eviction has at most window_max entries or surplus ones as old as the front |
| `RateLimiter.WindowBoundHolds` | crates/rust-mcp/src/state.rs:127-191 | over whole histories of sequential acquirers on a moving clock, grant k + window_max is at least window_duration after grant k |
| `RateLimiter.StandingClockBreaksTheBound` | crates/rust-mcp/src/state.rs:155 | a history on a clock that stands still in which the bound fails, because eviction is strict |
| `ConcurrentLimiter.BurstPassesAreSpaced` | crates/rust-mcp/src/state.rs:128-139 | under every interleaving of any number of tasks, burst passes are at least the interval apart |
| `ConcurrentLimiter.DequeHoldsTheWindow` | crates/rust-mcp/src/state.rs:142-190 | under every interleaving the deque is a sorted suffix of the grants and misses none that is still in the window |
| `ConcurrentLimiter.StepKeepsWindowState` | crates/rust-mcp/src/state.rs:142-190 | every step of every task keeps lock ownership and the deque |
| `ConcurrentLimiter.TaskSleepsExactlyWhenFull` | crates/rust-mcp/src/state.rs:147-173 | a task that evicts and decides at one instant goes to sleep if and only if at least window_max grants are still in the window and the oldest has not reached its deadline; it sleeps until exactly that deadline |
| `ConcurrentLimiter.TaskWaitsForTheInterval` | crates/rust-mcp/src/state.rs:128-139 | at the burst gate a task sleeps if and only if the interval since the last pass is not over, until exactly its end |
| `ConcurrentLimiter.ConcurrentTasksOverrunTheWindow` | crates/rust-mcp/src/state.rs:166-189 | an interleaving in which the window bound fails, because fullness is not checked again after the sleep |
| `ConcurrentLimiter.GrantRespectsWindowExactlyWhenRoom` | crates/rust-mcp/src/state.rs:175-189 | a grant respects the window if and only if a second inspection of the deque, which the code omits, would find room |
| `ConcurrentLimiter.BoundHoldsExactlyWhenRoom` | crates/rust-mcp/src/state.rs:127-191 | in every interleaving the window bound holds if and only if every request was recorded where a second inspection would have found room |
| `ConcurrentLimiter.UndisturbedRunsKeepTheBound` | crates/rust-mcp/src/state.rs:127-191 | the window bound holds in every run of any number of tasks on a moving clock in which nobody records while another sleeps for the window |
| `SemVer.PrecedenceIsATotalOrder` | crates/rust-mcp/src/mcp/advisories.rs:362-374 | the comparison is total, antisymmetric and transitive |
| `SemVer.ComparisonIsSemVerPrecedence` | crates/rust-mcp/src/mcp/advisories.rs:362-374 | the comparison is the precedence of section 11 of Semantic Versioning 2.0.0 |
| `SemVer.NumericIdentifiersCompareByValue` | crates/rust-mcp/src/mcp/advisories.rs:362-374 | comparing numeric identifiers by length and text is comparing their values, at any length |
| `SemVer.BuildMetadataIsIgnored` | crates/rust-mcp/src/mcp/advisories.rs:362-374 | texts that differ in build metadata only denote the same version for matching |
| `VersionTexts.RenderedVersionsMatch` | crates/rust-mcp/src/mcp/advisories.rs:362-374 | every version written out as text is read back as itself, also with a leading v |
| `VersionTexts.ReadVersionsAreRendered` | crates/rust-mcp/src/mcp/advisories.rs:362-374 | only such texts are read: a text that reads as a version is that version written out, build metadata apart |
| `AdvisoryRanges.TransitionOrderIsTotal` | crates/rust-mcp/src/mcp/advisories.rs:186-203 | the order of (bound, kind) used by the event sort is total |
| `AdvisoryRanges.EventSortIsCanonical` | crates/rust-mcp/src/mcp/advisories.rs:247 | the sorted events depend only on which events there are |
| `AdvisoryRanges.ParseOsvEvents` | crates/rust-mcp/src/mcp/advisories.rs:206-249 | fails exactly on a malformed clause, no introduced, or fixed mixed with last_affected; otherwise yields the sorted events and the limits |
| `AdvisoryRanges.OsvRangeAffects` | crates/rust-mcp/src/mcp/advisories.rs:252-284 | the sweep over the events, guarded by the limits |
| `AdvisoryRanges.SweepIsIntervalMembership` | crates/rust-mcp/src/mcp/advisories.rs:265-283 | on sorted events the sweep is membership in an interval that nothing has ended |
| `AdvisoryRanges.OsvSweepMeetsTheSchema` | crates/rust-mcp/src/mcp/advisories.rs:206-284 | a range is evaluated exactly when well formed, and then is affected exactly by the declarative rule of the Evaluation section of the OSV schema |
| `AdvisoryRanges.OsvVerdictIgnoresEventOrder` | crates/rust-mcp/src/mcp/advisories.rs:206-284 | permuting or repeating the events of a text does not change the verdict |
| `AdvisoryRanges.EvaluateOsvRange` | crates/rust-mcp/src/mcp/advisories.rs:170-180 | verdict of one rendered range; what it is for each kind of clause text, the lemmas of OsvTexts say |
| `AdvisoryRanges.OsvApplicability` | crates/rust-mcp/src/mcp/advisories.rs:168-183 | the early-returning loop computes the greatest verdict of the ranges |
| `AdvisoryRanges.OsvVerdictIsAJoin` | crates/rust-mcp/src/mcp/advisories.rs:168-183 | the verdict of joined range texts is the greater of the two; adding ranges never lowers it |
| `AdvisoryRanges.OsvPieceVerdict` | crates/rust-mcp/src/mcp/advisories.rs:168-183 | each range contributes the verdict it has alone |
| `OsvTexts.IntroducedFixed` | crates/rust-mcp/src/mcp/advisories.rs:206-284 | the text introduced=a,fixed=b, for all bounds that read as versions: affected if and only if a <= v and v < b, or a <= v when b is below a |
| `OsvTexts.IntroducedLastAffected` | crates/rust-mcp/src/mcp/advisories.rs:206-284 | introduced=a,last_affected=b: affected if and only if a <= v and v <= b, or a <= v when b is below a |
| `OsvTexts.FromTheStartFixed` | crates/rust-mcp/src/mcp/advisories.rs:206-284 | introduced=0,fixed=b: affected if and only if v < b |
| `OsvTexts.FromTheStartLastAffected` | crates/rust-mcp/src/mcp/advisories.rs:206-284 | introduced=0,last_affected=b: affected if and only if v <= b |
| `OsvTexts.IntroducedLimited` | crates/rust-mcp/src/mcp/advisories.rs:206-284 | introduced=a,limit=b: affected if and only if a <= v < b |
| `OsvTexts.IntroducedUnlimited` | crates/rust-mcp/src/mcp/advisories.rs:206-284 | introduced=a,limit=*: affected if and only if a <= v |
| `OsvTexts.UnknownKindIsUnknown` | crates/rust-mcp/src/mcp/advisories.rs:212-228 | a clause of any other kind leaves the range undetermined, whatever else it says |
| `AdvisoryRanges.MaxOfIsLeastUpperBound` | crates/rust-mcp/src/mcp/advisories.rs:168-183 | the join is the least verdict at least as great as each |
| `AdvisoryRanges.JoinIgnoresOrderAndRepetition` | crates/rust-mcp/src/mcp/advisories.rs:168-183 | order and duplication of verdicts never matter |
| `AdvisoryRanges.EvaluateAlternative` | crates/rust-mcp/src/mcp/advisories.rs:326-353 | one alternative: invalid if any comparator is malformed, else affected exactly when all comparators hold |
| `AdvisoryRanges.GhsaApplicability` | crates/rust-mcp/src/mcp/advisories.rs:323-360 | the early-returning loop computes the greatest verdict of the alternatives |
| `GhsaJoins.ComparatorMeaning` | crates/rust-mcp/src/mcp/advisories.rs:328-351 | one comparator, blanks included: for each of the five operators and every bound that reads as a version, affected if and only if the order relation holds, and otherwise not affected |
| `GhsaJoins.TwoComparatorsMeaning` | crates/rust-mcp/src/mcp/advisories.rs:326-353 | two comparators: affected if and only if both relations hold |
| `GhsaJoins.GhsaVerdictIsAJoin` | crates/rust-mcp/src/mcp/advisories.rs:323-360 | the verdict of joined alternatives is the greater of the two unless the last alternative of the left text ends in bars |
| `GhsaJoins.GhsaVerdictOfJoin` | crates/rust-mcp/src/mcp/advisories.rs:325 | the exact verdict of a joined text for every left and right text, dangling or not |
| `GhsaJoins.JoinsExactlyWhen` | crates/rust-mcp/src/mcp/advisories.rs:323-360 | a left text joins verdicts with every right text if and only if its last alternative does not end in bars or it is affected already |
| `GhsaJoins.DanglingTextLosesAnAlternative` | crates/rust-mcp/src/mcp/advisories.rs:323-360 | failing inputs: `<low` with bars behind it joined with `<high`, for any two versions, at any version from low up to high, is unknown though the second part is affected |
| `GhsaJoins.DanglingIsBarsAppended` | crates/rust-mcp/src/mcp/advisories.rs:325 | a dangling text is one that is not dangling with bars appended |
| `GhsaJoins.TrailingBarsAreUnknown` | crates/rust-mcp/src/mcp/advisories.rs:328-344 | an alternative that ends in bars is never read |
| `AdvisoryRanges.GhsaPieceVerdict` | crates/rust-mcp/src/mcp/advisories.rs:323-360 | each alternative contributes the verdict it has alone |
| `AdvisoryRanges.WithdrawalOfJoin` | crates/rust-mcp/src/mcp/advisories.rs:110-114 | joined texts record a withdrawal exactly when one of them does |
| `AdvisoryRanges.AppendedClausesOnlyRaise` | crates/rust-mcp/src/mcp/advisories.rs:144-183 | appending to a stored OSV text either withdraws it or never lowers its verdict |
| `AdvisoryMerge.SelectAdvisory` | crates/rust-mcp/src/mcp/advisories.rs:67-105 | among the rows of one ID: nothing if withdrawn or never applicable, else the least row in sort order of greatest priority |
| `AdvisoryMerge.AdvisoriesForQuery` | crates/rust-mcp/src/mcp/advisories.rs:52-107 | the answer meets its declarative definition, for any verdict function |
| `AdvisoryMerge.AdvisoriesForVersion` | crates/rust-mcp/src/mcp/advisories.rs:52-107 | one entry, in ID order, for each ID without trusted withdrawal and with an applicable row, with representative and verdict; what that is for given columns, the lemmas of AdvisoryAnswers say |
| `AdvisoryMerge.AnswerIsTheMaximum` | crates/rust-mcp/src/mcp/advisories.rs:47-51 | the applicability of an entry is the greatest over the rows of its ID |
| `AdvisoryMerge.AnswerIgnoresRowOrder` | crates/rust-mcp/src/mcp/advisories.rs:68-69 | any permutation or repetition of the rows gives the same IDs, verdicts, sources, ranges and version ids |
| `AdvisoryMerge.AdvisoryCounts` | crates/rust-mcp/src/mcp/advisories.rs:127-141 | the counts are the numbers of distinct affected and undetermined IDs |
| `AdvisoryMerge.CountsCoverTheAnswer` | crates/rust-mcp/src/mcp/advisories.rs:127-141 | the two counts add up to the length of the answer |
| `AdvisoryAnswers.GhsaRowAnswer` | crates/rust-mcp/src/mcp/advisories.rs:52-164 | the answer about one GHSA row with one comparator: affected if and only if the relation holds, and otherwise empty |
| `AdvisoryAnswers.OsvRowAnswer` | crates/rust-mcp/src/mcp/advisories.rs:52-183 | the answer about one OSV row with introduced and fixed, of any source: affected if and only if the version is in the interval, and otherwise empty |
| `AdvisoryAnswers.RustSecRowAnswer` | crates/rust-mcp/src/mcp/advisories.rs:52-160 | a row of RustSec, or with a mark of its format, reports the verdict of the library |
| `AdvisoryAnswers.UnknownRowAnswer` | crates/rust-mcp/src/mcp/advisories.rs:80-164 | a row that awaits re-sync, any row for a version that cannot be read, and a row of an unknown source without a known format are reported as unknown |
| `AdvisoryAnswers.ExplicitRowAnswer` | crates/rust-mcp/src/mcp/advisories.rs:72-84 | a row for this very version is reported as affected unless it is withdrawn |
| `AdvisoryAnswers.OneRowAnswer` | crates/rust-mcp/src/mcp/advisories.rs:52-107 | the answer about one row is that row with its verdict, or nothing if it is withdrawn or not affected |
| `AdvisoryAnswers.ResyncIsReported` | crates/rust-mcp/src/mcp/advisories.rs:47-107 | an ID with a row that awaits re-sync is reported unless a trusted row withdraws it, and as unknown if all its rows do |
| `AdvisoryAnswers.ExplicitMatchIsAffected` | crates/rust-mcp/src/mcp/advisories.rs:52-107 | among any rows: an ID with a trusted row for this very version is affected, with such a row as representative, unless it is withdrawn |
| `AdvisoryAnswers.WithdrawnIsNotReported` | crates/rust-mcp/src/mcp/advisories.rs:47-77 | among any rows: a trusted withdrawal suppresses its ID |
| `AdvisoryAnswers.RepresentativeComesFirst` | crates/rust-mcp/src/mcp/advisories.rs:68-69 | among rows of equal priority the one with the least source, range text and version id represents the ID |
| `StdioProxy.Upstream.Send` | crates/rust-mcp-stdio/src/main.rs:266-312 | one POST with the session or with standard headers, and the session that the reply leaves |
| `StdioProxy.Upstream.Reestablish` | crates/rust-mcp-stdio/src/main.rs:239-262 | at most two POSTs; succeeds only with a new session; without a saved handshake nothing is posted |
| `StdioProxy.Upstream.Forward` | crates/rust-mcp-stdio/src/main.rs:204-235 | says for every message and every network what is POSTed and when the result is an error: one POST and what its reply brings; in a session lost to a 404 the handshake is replayed and, if that succeeds, the message sent again and the second reply relayed; keeps the session discipline, at most six POSTs |
| `StdioProxy.OutcomeIsOutcome` | crates/rust-mcp-stdio/src/main.rs:324-349 | a result is what the reply brings, and an error if and only if it brings nothing: no reply, or no JSON in a body that is not a blank or an event stream of a success |
| `StdioProxy.DisciplineGrows` | crates/rust-mcp-stdio/src/main.rs:264-312 | one more POST that fits keeps the discipline of the whole history |
| `StdioProxy.LatestSessionIsGivenOutLast` | crates/rust-mcp-stdio/src/main.rs:291-297 | the session that the discipline speaks of is the one given out last with no handshake begun since |
| `StdioProxy.Run` | crates/rust-mcp-stdio/src/main.rs:78-115 | over a whole run against any upstream: line by line, what is POSTed and what is relayed is the exchange of that message with the handshake and session then held; after a handshake no POST is stateless, handshakes carry no session and all else carries the latest; at most six POSTs a message, exactly one without handshakes |
| `StdioProxy.RelayAnswersRequests` | crates/rust-mcp-stdio/src/main.rs:88-114 | every request is answered, by upstream or by one error with its id and code -32000; notifications get only messages with an id |
| `StdioProxy.EveryRequestIsAnswered` | crates/rust-mcp-stdio/src/main.rs:78-115 | over a run at least one message is written for each request and each malformed line |
| `StatelessProtocol.InsertedVersionIsReadable` | crates/rust-mcp-types/src/protocol.rs:30-62 | the inserted version is read back exactly when the message could carry metadata; otherwise nothing changes |
| `StatelessProtocol.InsertPreservesEntries` | crates/rust-mcp-types/src/protocol.rs:41-62 | no other entry of message, params or _meta is lost or changed |
| `StatelessProtocol.InsertedMetaIsComplete` | crates/rust-mcp-types/src/protocol.rs:41-62 | afterwards the metadata has the latest version, capabilities and client information, those of the client if it gave any |
| `StatelessProtocol.PreparedMessageIsCoherent` | crates/rust-mcp-stdio/src/main.rs:358-375 | header and body never name different versions, the choice of the client is kept, requests without one get the latest; handshake messages and messages that are no requests go out unchanged; preparing twice changes nothing |
| `StatelessProtocol.StatelessRequestHeaders` | crates/rust-mcp-types/src/protocol.rs:67-97 | the receiver reads back version, method and target, which is the name of a tool or prompt or the URI of a resource, and finds no name header without a target |
| `HeaderValue.HeaderValuesRoundTrip` | crates/rust-mcp-types/src/protocol.rs:103-121 | decoding undoes the encoding for every value |
| `HeaderValue.HeaderValuesAreInjective` | crates/rust-mcp-types/src/protocol.rs:103-121 | distinct values never collide |
| `HeaderValue.HeaderValuesAreSafe` | crates/rust-mcp-types/src/protocol.rs:103-121 | every output is printable ASCII without leading or trailing blank |
| `HeaderValue.SafeValuesAreVerbatim` | crates/rust-mcp-types/src/protocol.rs:103-121 | a value goes out verbatim or between the sentinels; verbatim if and only if it is empty or printable, with no blank at an end and not itself between sentinels |
| `Base64.DecodeOfEncode` | crates/rust-mcp-types/src/protocol.rs:103-109 | Base64 of section 4 of RFC 4648: decoding undoes encoding for every byte string |
| `Base64.EncodeOfDecode` | crates/rust-mcp/src/mcp/utils.rs:356-360 | section 5 of RFC 4648 without padding, and section 4: only what encoding produces is accepted |
| `Base64.EncodeIsPrintable` | crates/rust-mcp-types/src/protocol.rs:103-109 | encodings are printable and without blanks |
| `Base64.ThreeBytesAreFourCharacters` | crates/rust-mcp-types/src/protocol.rs:103-109 | section 4 of RFC 4648: the 24 bits of three bytes go out six at a time as characters of the table |
| `Base64.LeftoversAreFilledWithZeroes` | crates/rust-mcp-types/src/protocol.rs:103-109 | one or two bytes left over go out as if zeroes followed, padded or not |
| `Base64.AlphabetsAreThoseOfTheStandard` | crates/rust-mcp/src/mcp/utils.rs:349-371 | the two alphabets are tables 1 and 2 of RFC 4648 |
| `Glob.PathGlobToLike` | crates/rust-mcp/src/mcp/utils.rs:63-77 | builds the pattern of the glob |
| `Glob.LikeMeansTheGlob` | crates/rust-mcp/src/mcp/utils.rs:63-77 | for every glob, text and case folding, the pattern matches under LIKE exactly when the glob matches |
| `Glob.NoDanglingEscape` | crates/rust-mcp/src/mcp/utils.rs:63-77 | a pattern never ends in a lone escape character |
| `Glob.PrefixPattern` | crates/rust-mcp/src/db/indexing.rs:1585 | a prefix without special characters followed by % is a prefix test |
| `Pagination.CursorsRoundTrip` | crates/rust-mcp/src/mcp/utils.rs:349-371 | a cursor is accepted back, unchanged, exactly when it has version 1 and a page size |
| `Pagination.CursorNamesThePage` | crates/rust-mcp/src/mcp/utils.rs:394-409 | a cursor is refused if and only if a limit is given that is not its own; otherwise its offset and limit are used |
| `Pagination.PageHoldsTheOffset` | crates/rust-mcp/src/mcp/utils.rs:405-409 | the page number of a cursor is that of the page with its offset, if it can be represented |
| `Pagination.ApplyPaginationLimit` | crates/rust-mcp/src/mcp/utils.rs:437-453 | cuts to the page size and names the next offset exactly when something was cut off |
| `Pagination.FetchPage` | crates/rust-mcp/src/mcp/tools/krate/versions.rs:75-81 | fetching limit + 1 rows tells exactly whether more follow |
| `Pagination.FollowCursors` | crates/rust-mcp/src/mcp/utils.rs:394-453 | following next_cursor terminates, on a page that reaches the end |
| `Pagination.WalkYieldsTheRows` | crates/rust-mcp/src/mcp/utils.rs:394-453 | the pages of a walk are the rows from its start, each once and in order |
| `Pagination.EarlierPagesAreFull` | crates/rust-mcp/src/mcp/utils.rs:437-453 | every page of a walk but the last is full |
| `Pagination.CompleteWalkYieldsEverything` | crates/rust-mcp/src/mcp/utils.rs:394-453 | a finished walk yields every remaining row exactly once, in order |
| `Pagination.CursorsAgreeWithPageNumbers` | crates/rust-mcp/src/mcp/utils.rs:394-416 | the k-th page by cursor is the page with that number plus k, effective_page included |
| `Pagination.PageNumberIsExactUnlessItWraps` | crates/rust-mcp/src/mcp/utils.rs:410-414 | a page number selects its rows for every result set if and only if the product fits 32 bits |
| `Pagination.PageNumberWrapExample` | crates/rust-mcp/src/mcp/utils.rs:410-414 | a page number that wraps around |
| `RegistryName.RegistryNamesRoundTrip` | crates/rust-mcp/src/mcp/indexing/discovery.rs:317-338 | a text is read as (name, version) exactly when it is a plain name, a hyphen and a valid version; so results concatenate back and every such pair is read back |
| `RegistryName.OneAcceptableSplit` | crates/rust-mcp/src/mcp/indexing/discovery.rs:320-338 | at most one split of any text is acceptable, so the direction of the search does not matter |
| `RegistryName.NothingToRead` | crates/rust-mcp/src/mcp/indexing/discovery.rs:320-338 | nothing is read exactly when no name and version make up the text |
| `RegistryName.ParseRegistryDirName` | crates/rust-mcp/src/mcp/indexing/discovery.rs:320-338 | the search from right to left finds that one split or nothing |
| `RegistryName.CollectCrateVersions` | crates/rust-mcp/src/mcp/indexing/discovery.rs:205-269 | the map holds exactly the crates found with their local versions; every directory is counted, and discovered = parsed + unparseable |
| `RegistryName.CollectLocalVersions` | crates/rust-mcp/src/mcp/indexing/discovery.rs:276-315 | finds for one crate exactly what the full scan holds for it |
| `CacheWatcher.GatedPollIsAFullRescan` | crates/rust-mcp/src/mcp/indexing/cache_watcher.rs:186-215 | the gated poll leaves the index of a full rescan if and only if modification times are honest, and then hands over the same files |
| `CacheWatcher.RunTracksExactlyWhenHonest` | crates/rust-mcp/src/mcp/indexing/cache_watcher.rs:110-226 | over a whole run the index is at every moment what is visible if and only if every poll is honest about the last snapshots |
| `CacheWatcher.RunFollowsTheDirectories` | crates/rust-mcp/src/mcp/indexing/cache_watcher.rs:110-226 | in such a run what a poll hands over is exactly what has newly become visible |
| `CacheWatcher.TimesThatTellAreHonest` | crates/rust-mcp/src/mcp/indexing/cache_watcher.rs:193-215 | if modification times tell contents, every poll is honest |
| `CacheWatcher.TimeMayComeBack` | crates/rust-mcp/src/mcp/indexing/cache_watcher.rs:198-201 | that is not needed: a run of honest polls in which a modification time comes back with other files |
| `CacheWatcher.EachAppearanceIsHandedOverOnce` | crates/rust-mcp/src/mcp/indexing/cache_watcher.rs:110-226 | over a whole run handings and disappearances balance: startup files are never handed over, each later appearance exactly once |
| `CacheWatcher.IndexRemembers` | crates/rust-mcp/src/mcp/indexing/cache_watcher.rs:130-131 | every index entry is a snapshot taken by startup or an earlier poll |
| `CacheWatcher.Watcher.constructor` | crates/rust-mcp/src/mcp/indexing/cache_watcher.rs:68-88 | startup fills the index and enqueues nothing |
| `CacheWatcher.Watcher.BuildInitialIndex` | crates/rust-mcp/src/mcp/indexing/cache_watcher.rs:110-135 | the index holds a snapshot of every listed directory |
| `CacheWatcher.Watcher.Poll` | crates/rust-mcp/src/mcp/indexing/cache_watcher.rs:164-226 | the new index, and exactly the files found new are handed over, counted (new = parsed + unparseable) and have active jobs |
| `CacheWatcher.Watcher.DiscoverSubdirs` | crates/rust-mcp/src/mcp/indexing/cache_watcher.rs:172-183 | new directories are recorded and all their files handed over |
| `CacheWatcher.Watcher.CheckSubdirs` | crates/rust-mcp/src/mcp/indexing/cache_watcher.rs:185-215 | known directories with another modification time are diffed; the others are left alone |
| `CacheWatcher.EnqueueNewFiles` | crates/rust-mcp/src/mcp/indexing/cache_watcher.rs:239-292 | every parseable file ends up with an active job for its crate, the queue gains nothing else, and the counters are the numbers of files, crates and unparseable files |
| `CacheWatcher.GroupByCrate` | crates/rust-mcp/src/mcp/indexing/cache_watcher.rs:244-262 | groups hold exactly the crates and versions of the files; the rest is counted as unparseable |
| `CacheWatcher.ParseCrateFilename` | crates/rust-mcp/src/mcp/indexing/cache_watcher.rs:233-236 | strips the suffix and reads name and version |
| `CacheWatcher.CrateFilesHoldCrates` | crates/rust-mcp/src/mcp/indexing/cache_watcher.rs:228-236 | a file holds a crate and version if and only if its name is valid text and is the name, a hyphen, the version and the suffix; such files are crate files |
| `IndexTables.IndexStore.UpsertSourceFile` | crates/rust-mcp/src/db/indexing.rs:277-310 | finds or adds the one file with that version and path |
| `IndexTables.IndexStore.ClearSourceFileIndexRows` | crates/rust-mcp/src/db/indexing.rs:1295-1315 | removes the symbol, type and impl rows of a file, not traits |
| `IndexTables.IndexStore.ClearCrateVersionIndexRows` | crates/rust-mcp/src/db/indexing.rs:1318-1360 | removes the rows of a version and source from all four tables |
| `IndexTables.IndexStore.InsertIndexedExtractionBatch` | crates/rust-mcp/src/db/indexing.rs:1363-1576 | inserts the batch row by row or fails |
| `IndexTables.IndexStore.ReplaceSourceFileIndexRows` | crates/rust-mcp/src/db/indexing.rs:513-532 | one transaction: the replacement, or nothing at all; keeps the table invariants |
| `IndexTables.IndexStore.ReplaceCrateVersionIndexRows` | crates/rust-mcp/src/db/indexing.rs:535-554 | one transaction: the replacement, or nothing at all; keeps the table invariants |
| `IndexTables.IndexStore.PruneSourceFileIndexAndFiles` | crates/rust-mcp/src/db/indexing.rs:557-568 | removes stale rows, then stale files, and returns how many files; keeps the table invariants |
| `IndexTables.InsertedAllExactly` | crates/rust-mcp/src/db/indexing.rs:1363-1576 | row-by-row insertion fails exactly when some row breaks a constraint, and otherwise appends exactly the rows whose names are free |
| `IndexTables.ReplaceSucceedsExactly` | crates/rust-mcp/src/db/indexing.rs:513-554 | a replacement succeeds exactly when no row of the batch breaks a constraint |
| `IndexTables.ReplaceLeavesTheBatch` | crates/rust-mcp/src/db/indexing.rs:513-554 | afterwards the rows in scope are exactly the batch, less types whose name is taken; all other rows are as before; file-level replacement only adds traits |
| `IndexTables.FileReplacementKeepsFirstTypes` | crates/rust-mcp/src/db/indexing.rs:1418-1481 | after a file-level replacement the types of the file are the first of the batch for each (name, kind) |
| `IndexTables.VersionReplacementMayMissTypes` | crates/rust-mcp/src/db/indexing.rs:1418-1481 | at version level that holds if and only if no other source holds one of the names in the file |
| `IndexTables.RustdocReplacementIsExact` | crates/rust-mcp/src/db/indexing.rs:535-554 | a rustdoc replacement succeeds exactly when item ids are distinct and the file exists, and then all four tables hold exactly the batch |
| `IndexTables.RustdocReplacementReadsBack` | crates/rust-mcp/src/db/indexing.rs:535-554 | the rows read back are the items of the batch in order, symbols, types and impls with version and file, traits without file |
| `IndexReplacement.ReportedTypesAreWrittenExactlyWhen` | crates/rust-mcp/src/db/indexing.rs:1425-1481 | the reported number of types is the number written: always for rustdoc, at file level if and only if the names are distinct, at version level if and only if they are also free in that file |
| `IndexReplacement.OtherCountsAreExact` | crates/rust-mcp/src/db/indexing.rs:1363-1576 | the other counts are those of the rows written |
| `IndexReplacement.TakenTypeIsReportedButNotWritten` | crates/rust-mcp/src/db/indexing.rs:1425-1481 | tables and batches with distinct names where a version-level replacement reports one type and writes none |
| `IndexReplacement.VersionReplacementIsIdempotent` | crates/rust-mcp/src/db/indexing.rs:535-554 | repeating a version-level replacement changes nothing |
| `IndexReplacement.FileReplacementRepeated` | crates/rust-mcp/src/db/indexing.rs:513-532 | repeating a file-level replacement adds its traits again, or fails if one has an item id; the tables stay the same if and only if there are no traits or one with an item id |
| `IndexTables.PruneDeletesWhatIsStale` | crates/rust-mcp/src/db/indexing.rs:1580-1657 | pruning removes exactly the files of the version that were not seen and do not have the rustdoc prefix, and the rows in them |
| `IndexTables.CascadeFindsNothing` | crates/rust-mcp/src/db/indexing.rs:1580-1657 | deleting rows before files leaves nothing to cascade |
| `IndexTables.RustdocPathIsAPrefixTest` | crates/rust-mcp/src/db/indexing.rs:1585 | the LIKE test of the prune statements is a test for the rustdoc prefix |
| `IndexTables.RunKeepsInv` | crates/rust-mcp/src/db/indexing.rs:513-568 | over any sequence of operations every symbol, type and impl row lies in an existing file of its own version and the unique indexes hold |
| `IndexTables.RustdocDataSurvives` | crates/rust-mcp/src/db/indexing.rs:513-568 | rustdoc files, their rows and the rustdoc traits of their version come unchanged through every prune, upsert and replacement of other rows |

## Left out

- Concurrent window bound of the limiter and liveness of a handler that registers late: the program does not provide them; counterexamples are above.
- Scheduling and the passing of wall-clock time: time advances by arbitrary steps, and which task runs next is arbitrary.
- Job bodies, docs.rs scraping, git probing, tarball extraction and metrics: input and output, or calls into libraries.
- The payload column of jobs and `include_dependencies`: no statement of the queue depends on them; what the watcher groups by crate is stated for the groups themselves.
- `rustsec_applicability`: its verdict comes from libraries and is a parameter of `AdvisoryRanges.RangeApplicability`.
- The renderer of stored range texts: not part of this model; the text format is the starting point.
- Parsing of event streams and of JSON in `rust-mcp-stdio/src/main.rs`: a body is given by what it parses to.
- PostgreSQL itself: tables are sequences of rows; connection failures, locking and migrations are left out.
- Columns that no statement of a modelled operation compares are one text (`detail`, `other`).
- Deleting a crate or crate version, and the rows that go with it.
- Races within one poll of the cache watcher, between reading a modification time and listing the directory: a poll sees one snapshot.
- `run_registry_scan` beyond the scan itself: it enqueues jobs through the modelled statement, with a batch limit.
- Failing writes to the client of the stdio proxy: they end the process.
- Unicode lower-casing and the exact Unicode tables of `trim` beyond White_Space: not needed for crate names and version texts.
