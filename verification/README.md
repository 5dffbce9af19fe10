# Verified model of ChronDB's worker protocol, optimistic concurrency and backups

A Dafny 4.11 model of the stateful core of ChronDB and proofs about it. `dafny verify dfyconfig.toml` checks everything.
Every lemma carries `{:induction false}`: no proof leans on automatic induction.

- **The FFI worker** of the Rust binding: one thread owns one native isolate and one handle and drains one FIFO channel.
  `Worker` is the machine (one receive at a time, plain loop and idle loop), `WorkerLoop` the imperative loops over a
  mutable `FfiWorkerState`, proved equal to it. On top: resource conservation (`Lifecycle`), every run as a sequential
  execution (`Sequential`), when suspension is invisible (`Transparency`) and what that asks of callers of a library with
  an append-only index (`IndexedStore`), timing and backoff accounting (`IdleTiming`), client threads and the channel
  (`ClientProtocol`), the global registry (`Registry`), the shared error slot (`ChronDBLib`, `Handlers`).
- **Optimistic concurrency control**: the retry loop (`Retry`), the version tracker (`VersionTracker`), `swap!` as
  read/compute/compare-and-set (`SwapAtom`), checked saves of many threads as durable storage runs them
  (`DurableSaves`), and with the check under the branch lock (`OccInterleaving`).
- **Crash recovery** of durable storage from its write-ahead log: with an index that commits each write (`WalRecovery`), and
  in every run with one that commits now and then, as the server opens it (`BufferedIndex`).
- **Backups**: bundles over a commit graph (`CommitGraph`, `Bundles`, `BackupChains`), keep-newest retention (`Retention`).
- **Two pure cores**: cursor paging (`HistoryPaging`, `Decimal`) and recursive configuration merge (`DeepMerge`).

The environment of the worker is a script of turns, one for each receive: what arrives and when, how long the work takes,
how an attempt to open would go. A theorem over all scripts is a theorem over all placements of commands, timeouts, failed
reopens and disconnects. `ClientProtocol` remembers the turns taken, so each such theorem holds in every reachable state
of the concurrent system.

## Where the code and its documentation differ

The model follows the code.

- `:max-retries` is documented as retries; the code compares the attempt number with it, so it bounds all attempts, and one
  is always made (`src/chrondb/concurrency/occ.clj:49`, against line 69): `Retry.WithOccRetry`.
- A nil or false result of the retried function counts as a failed attempt without an exception; after the last attempt
  `throw` is given nil (`src/chrondb/concurrency/occ.clj:67-81`): `Falsy`, `ThrownNil`.
- `verify-version` is documented to throw on a mismatch; a current version of 0 accepts any expectation
  (`src/chrondb/concurrency/occ.clj:113-119`): `VersionTracker.Accepts`, `OccInterleaving.FirstWriteIsUnchecked`.
- `save-with-expected-version` is documented to throw if the version has changed; it checks once, before the branch lock is
  taken and outside the retry, so that no retry repeats the check and two overlapping saves both pass it
  (`src/chrondb/storage/durable.clj:196-205`): `DurableSaves.OverlappingSavesAreBothCounted`. `Retry` and
  `VersionTracker.StaleRetriesAreFutile` are about `with-occ-retry` around a check, which no caller here has.
- After idle suspension the next operation is documented to reopen the database transparently
  (`bindings/rust/src/lib.rs:1379-1381`); reopening indexes the default branch anew, which callers can see
  (`src/chrondb/lib/core.clj:85`, `src/chrondb/index/lucene.clj:362-366`): `IndexedStore.SavingTwiceShows`.
- A failed index update is logged as to be recovered, and its log entry marked complete at once
  (`src/chrondb/storage/durable.clj:49-54`); the Lucene index does not even report it (`src/chrondb/index/lucene.clj:393-394`):
  `WalRecovery.FailedIndexIsRecoveredIff`. Recovery is documented to replay pending
  entries; it stores them and leaves the index to the next one (`src/chrondb/wal/recovery.clj:18-24`): `WalRecovery.OneRecovery`.
  It empties the log only if an entry was pending (`src/chrondb/wal/recovery.clj:92-95`): `WalRecovery.TwoRecoveriesSettle`.
- The only caller of `create-durable-storage` opens the index that does not commit each write
  (`src/chrondb/cli/server.clj:157-173`, `src/chrondb/index/lucene_nrt.clj:89-113`), while the log is marked as if it did, so that
  a killed process can lose writes for good: `BufferedIndex.HeldIffNeverExposed`, `BufferedIndex.TwoRestarts`. As the code
  reads, `force-commit!` calls `compare-and-set!` on an `AtomicBoolean` (`src/chrondb/index/lucene_nrt.clj:206`, line 296),
  which takes only atoms; then the runs without a `Commit` are the ones there are.
- Deleting a document that is not there is documented to return false (`src/chrondb/storage/protocol.clj:35`); durable
  storage never does, since false is a failed attempt to `with-occ-retry`: it tries to the last and throws nil
  (`src/chrondb/storage/git/document.clj:363-364`, `src/chrondb/storage/durable.clj:94-131`): `DurableSaves.DeleteDocument`.
- `DurableSaves.DefaultBranchIsNotChecked` is latent: durable storage loads its configuration without a path, and then the
  default branch is always main (`src/chrondb/storage/durable.clj:171`, `src/chrondb/config.clj:31`).
- `->refspec` is documented to accept the `+` form; a `+` without a colon names no destination, so nothing is stored
  (`src/chrondb/backup/git.clj:41-49`): `Bundles.PlusWithoutColonStoresNothing`. The wildcard does not restore HEAD.
- `load-config` is documented to merge the file with the defaults; a file that holds no map (an empty one reads as nil)
  replaces them (`src/chrondb/config.clj:30-36`): `DeepMerge.FileOverDefaults`.
- `init_worker` returns on a path with a NUL before it tears down the isolate it has just created
  (`bindings/rust/src/lib.rs:733-741`): `Lifecycle.NoIsolateOutlivesTheThread` says that this is the only leak.

## Model

| member | source | states |
|---|---|---|
| WorkerLoop.FfiWorkerState.constructor | bindings/rust/src/lib.rs:150-155 | a new state has no thread, handle -1, nothing answered |
| WorkerLoop.FfiWorkerState.InitWorker | bindings/rust/src/lib.rs:727-772 | opening in place refines `Worker.Init`: which native calls are made on each failure path, that a failed open leaves store, thread and handle, and that a successful one leaves the store that `onOpen` makes |
| WorkerLoop.FfiWorkerState.CloseState | bindings/rust/src/lib.rs:499-513 | refines `Worker.Close`: close before tear-down, each only if open, both nulled |
| WorkerLoop.FfiWorkerState.DispatchCommand | bindings/rust/src/lib.rs:774-875 | one command changes store, slot and native calls as `Worker.Dispatch` says and appends exactly one answer on its own reply channel |
| WorkerLoop.FfiWorkerState.HandleCall | bindings/rust/src/lib.rs:215-497 | what each handler makes of a string, a null pointer or a delete code, through the mutable slot, refines `Handlers.Interpret` |
| WorkerLoop.FfiWorkerState.LastErrorOr | bindings/rust/src/lib.rs:180-183 | reports the slot or the default text, and empties the slot |
| WorkerLoop.FfiWorkerState.ReplyError | bindings/rust/src/lib.rs:959-983 | a refusal on the command's own channel: no text for a last-error request, an error otherwise; nothing else changes |
| WorkerLoop.FfiWorkerState.RunWorkerLoop | bindings/rust/src/lib.rs:877-883 | the plain loop ends in the state, answers and exit that `Worker.Run` gives for the script |
| WorkerLoop.FfiWorkerState.ServeCommand | bindings/rust/src/lib.rs:942-945 | serving on the open database refines `Worker.Serve` |
| WorkerLoop.FfiWorkerState.TakeCommand | bindings/rust/src/lib.rs:910-945 | taking a command, reopening if suspended, refusing if that fails, refines `Worker.HeadStep` |
| WorkerLoop.FfiWorkerState.ReceiveAtHead | bindings/rust/src/lib.rs:907-954 | the receive at the loop head, with suspension on timeout, refines `Worker.HeadStep` |
| WorkerLoop.FfiWorkerState.WaitOutBackoff | bindings/rust/src/lib.rs:930-937 | the one receive that waits out the backoff refines `Worker.BackoffStep` |
| WorkerLoop.FfiWorkerState.RunWorkerLoopWithIdle | bindings/rust/src/lib.rs:893-956 | the idle loop over mutable state ends where `Worker.Run` ends, for every script; it is suspended exactly when the isolate is null |
| WorkerLoop.WorkerThread | bindings/rust/src/lib.rs:688-711 | the thread body (open, the configured loop, close) refines `Worker.ThreadBody`, answers included; it starts exactly if the database opens and no path has a NUL |
| Worker.CheckInterval | bindings/rust/src/lib.rs:901 | the idle timeout itself between 1 s and 30 s, the nearer of the two outside |
| Worker.RunSplit | bindings/rust/src/lib.rs:906-955 | a run of the loop goes on from where an earlier part of its script has led |
| Worker.ExitedStays | bindings/rust/src/lib.rs:911-914 | after the loop has ended nothing further is received or done |
| Worker.OpeningFailsIff | bindings/rust/src/lib.rs:727-762 | opening fails exactly if the isolate cannot be created, a path has a NUL or the library refuses, and the caller gets the error of the first of these, with its own text |
| Lifecycle.AcceptedMeansConserved | bindings/rust/src/lib.rs:499-513 | call sequences the monitor accepts create each isolate once and tear it down once, except the one still alive |
| Lifecycle.AtMostOneLive | bindings/rust/src/lib.rs:733-766 | at no instant of an accepted run are two isolates alive |
| Lifecycle.CommandsRunOnOpenHandles | bindings/rust/src/lib.rs:219-228 | in an accepted run each command runs on a handle opened before and neither closed nor torn down since |
| Lifecycle.StepReady | bindings/rust/src/lib.rs:909-951 | every receive keeps: calls so far accepted, and `suspended` exactly when thread is null and handle is -1 |
| Lifecycle.LoopIsTracked | bindings/rust/src/lib.rs:893-956 | this invariant holds in every reachable state of either loop, however reopening goes |
| Lifecycle.NoIsolateOutlivesTheThread | bindings/rust/src/lib.rs:688-711 | at thread exit every isolate created was torn down exactly once, if and only if it is not the case that a path has a NUL and an isolate was created |
| Sequential.StepExecutesOrNot | bindings/rust/src/lib.rs:907-945 | one receive executes one command on the store, reopened first or not, with exactly that reply; or it changes neither store nor, but for closing the isolate, slot, and answers nothing or refuses |
| Sequential.RunIsPlayed | bindings/rust/src/lib.rs:893-956 | for either loop and every pattern of timeouts and failing reopens, the served answers, the store and the slot are, text for text, one sequential execution in answer order with reopenings before some commands; the other answers are refusals |
| Sequential.SlotIsEmptyAtLoopHead | src/chrondb/lib/core.clj:174-246 | since get, list and history catch everything, the slot is empty at every loop head |
| Sequential.PlainLoopIsSequential | bindings/rust/src/lib.rs:877-883 | the plain loop serves every command, and its answers, store and slot are those of executing its requests one after the other |
| Sequential.OneAnswerEach | bindings/rust/src/lib.rs:774-875 | the reply channels answered are exactly those of the commands taken, in that order |
| Sequential.EveryAnswerIsTold | bindings/rust/src/lib.rs:917-983 | in every run of either loop: an answer is not served exactly if its command came while the loop was backing off or found the database suspended and it could not be opened; then a last-error request is told there is none and every other one that the operation failed, with the literal text that says which of the two it was |
| Transparency.SuspensionIsTransparent | bindings/rust/src/lib.rs:893-956 | if a relation holds of the store to itself and is respected by every command, with equal outcomes, and by reopening then, every reopen succeeding, for any script the two loops take the same calls, exit alike and give the same answers up to text that a silently failing query or delete takes from the slot; all answers are equal if get, list and history never throw |
| Transparency.FinalStoreIsTransparent | bindings/rust/src/lib.rs:692-706 | then the stores that whole threads leave on disk are related; they are the untouched store if the first open fails |
| Transparency.EveryMoveIsRun | bindings/rust/src/lib.rs:906-955 | every sequence of commands, each served after reopening or not as chosen, is a run of the loop for some placement of timeouts |
| Transparency.InvisibleIffStable | bindings/rust/src/lib.rs:893-956 | suspension is invisible to all callers if and only if no store they can bring about is told from its reopened form by any requests |
| Transparency.ToldStoresShow | bindings/rust/src/lib.rs:917-945 | if some store brought about by requests is told from its reopened form, then those requests, silence and the telling ones get other answers |
| Transparency.StableStoresStayAlike | bindings/rust/src/lib.rs:893-956 | while suspension is invisible the stores of the two loops are never told apart either |
| Transparency.UnmovedIsTransparent | bindings/rust/src/lib.rs:893-956 | if reopening changes no store that the plain loop passes through, answers and store are equal |
| IndexedStore.UnchangedIffTidy | src/chrondb/index/lucene.clj:348-376 | reopening leaves a store unchanged if and only if each document of the default branch has one index entry, with its present text; and it makes it so |
| IndexedStore.DeleteIsTold | src/chrondb/lib/core.clj:184-199 | a delete is answered as done if and only if the document was on the branch, and as not found otherwise; it is gone in any case, the same delete again is not found, and no other document is touched |
| IndexedStore.PutIsTold | src/chrondb/lib/core.clj:159-172 | a put that makes a document is answered with it if it parses, leaves it and nothing else changed on the branch, and a delete is then done; any other put is refused with its text and leaves the store |
| IndexedStore.DeletesInRuns | bindings/rust/src/lib.rs:257-272 | in every run of either loop each served delete is done exactly if the commands before it left the document on its branch, wherever the database was suspended |
| IndexedStore.SearchReadsBranch | src/chrondb/lib/core.clj:231-246 | a search changes nothing and its answer depends on the index and the documents of the branch asked alone |
| IndexedStore.TidyIffCareful | src/chrondb/lib/core.clj:159-199 | a command keeps that if and only if it is careful: it saves documents to the default branch only under ids that the index has nothing under, and saves to or deletes from another branch only ids the default branch does not have |
| IndexedStore.TidyIffNeverTold | src/chrondb/lib/core.clj:231-246 | if every entry of the store and of its reopened form can be searched for, the store is tidy exactly if no requests tell the two apart |
| IndexedStore.CarefulCallersSeeNothing | src/chrondb/lib/core.clj:59-88 | callers whose requests are careful get the same answers and leave the same store, index included, with and without suspension |
| IndexedStore.CarelessCallersSeeIt | src/chrondb/lib/core.clj:59-88 | for callers whose requests are not, if in the stores they pass through every entry can be searched for, some of them, silence and one query get another answer |
| IndexedStore.SavingTwiceShows | src/chrondb/api/sql/execution/query.clj:353-429 | from any store: save a document twice (two JSON texts that are objects or null), be silent, select by what only the first text matched then; the row that is there without suspension is gone |
| IdleTiming.NeverSuspendsEarly | bindings/rust/src/lib.rs:942-951 | the isolate is never closed before the idle timeout has passed since the loop began and since every command taken before |
| IdleTiming.SilenceSuspends | bindings/rust/src/lib.rs:947-951 | from any open loop head, n silent receives leave it suspended exactly when elapsed time plus n times the interval reaches the idle timeout (and n is positive); the closing time lies in the stated window |
| IdleTiming.SuspendedInTime | bindings/rust/src/lib.rs:901-951 | after a command that ran for d, silence closes the isolate between idle and max(idle, d) + check interval |
| IdleTiming.BackoffClosedForm | bindings/rust/src/lib.rs:930 | n failures wait at most 2^(n+1)-2 s up to n = 5 and 62 + 32(n-5) s beyond; each wait at most 32 s |
| IdleTiming.StepIsAccounted | bindings/rust/src/lib.rs:909-940 | every receive keeps the accounting of failures, waits and refusals |
| IdleTiming.ReopenIsAccounted | bindings/rust/src/lib.rs:909-940 | in every run failures and waits alternate; a wait is the whole backoff unless one command was rejected or the loop is ending; total waiting is at most the sum of backoffs; unserved answers are one refusal for each failure and at most one more for its wait, in that order with their own texts |
| ClientProtocol.ActionKeepsInv | bindings/rust/src/lib.rs:988-1010 | open, send, receive, drop and the worker's receives keep: the k-th call sent is the k-th answered, the rest wait in the channel in order |
| ClientProtocol.ShutdownIsLast | bindings/rust/src/lib.rs:516-534 | in every interleaving the shutdown is only ever alone in the channel; the worker exits only when no instance is left and every call has its answer |
| ClientProtocol.ExactlyOneAnswer | bindings/rust/src/lib.rs:774-875 | the k-th answer is to the k-th call, and a call has one exactly when its command is no longer queued |
| ClientProtocol.CallsAreTold | bindings/rust/src/lib.rs:917-983 | in every reachable state each call has the answer that the receive which took it owed: served, or refused with the text of its case |
| ClientProtocol.RecordedIsLinearized | bindings/rust/src/lib.rs:994-1009 | the recorded invocations and returns are linearized by the answer order: every answer is to an invocation, no call has two, and real time is respected |
| ClientProtocol.Linearizable | bindings/rust/src/lib.rs:893-1010 | over all interleavings of clients, drops, timeouts and failing reopens the calls are linearizable, and the linearization is, text for text, a sequential execution with reopenings before some commands and refusals in between |
| ClientProtocol.PlainCallsAreSequential | bindings/rust/src/lib.rs:877-883 | without idle suspension the linearization is one sequential execution, text for text |
| ClientProtocol.NoRefusalWhileReopensSucceed | bindings/rust/src/lib.rs:917-940 | if every reopen succeeds no call is refused |
| Registry.ActionKeepsInv | bindings/rust/src/lib.rs:583-617 | each step of an open or drop keeps the per-key invariant if opens that find no live worker start with nothing under way |
| Registry.NoFinalDropMeanwhile | bindings/rust/src/lib.rs:516-534 | while anything is under way for a key no final drop can begin |
| Registry.RegistryIsCoherent | bindings/rust/src/lib.rs:640-669 | in every run in which opens that find no live worker start with nothing under way: at most one live worker for each key, its entry upgrades exactly when it is alive, and opening again shares it |
| Registry.CreatingOpenIsSafeIff | bindings/rust/src/lib.rs:591-614 | such an open keeps at most one live worker, whatever follows in order, if and only if nothing is under way for its key |
| Registry.OverlappingOpensBreakUniqueness | bindings/rust/src/lib.rs:591-614 | two overlapping opens give two live workers on one key |
| Registry.OverlappingDropLosesTheEntry | bindings/rust/src/lib.rs:516-522 | a run: a final drop overlapped by a whole new open removes the new worker's entry, two workers live and the next open finds neither |
| Registry.FailedOpenLeavesNoTrace | bindings/rust/src/lib.rs:591-617 | an open whose worker cannot be created leaves the key as it was |
| Registry.OpenThenDrop | bindings/rust/src/lib.rs:516-534 | an open alone enters a new live worker held once; the last drop after it takes away the entry and stops that worker, and nothing else |
| Registry.ShareThenDrop | bindings/rust/src/lib.rs:591-603 | sharing a worker and dropping the share changes nothing |
| ChronDBLib.ChronDBLib.constructor | java/chrondb/lib/ChronDBLib.java:21 | a new isolate's slot is empty |
| ChronDBLib.ChronDBLib.InvokeText | java/chrondb/lib/ChronDBLib.java:159-308 | pointer and slot after each entry point that returns a string |
| ChronDBLib.ChronDBLib.InvokeDelete | java/chrondb/lib/ChronDBLib.java:197-213 | code and slot after delete |
| ChronDBLib.ChronDBLib.GetLastError | java/chrondb/lib/ChronDBLib.java:502-510 | reading the slot empties it |
| Handlers.FirstNul | bindings/rust/src/lib.rs:185-194 | the position of the first NUL, if any |
| Handlers.ConversionError | bindings/rust/src/lib.rs:215-218 | conversion fails exactly when some argument has a NUL, with the text of the first such argument |
| Handlers.OutcomeDecidesReply | bindings/rust/src/lib.rs:215-497 | with NUL-free arguments: code 0 of a delete is done and 1 not found; a string is its value, or a JSON error; a null pointer is not found for get and an empty list for the three lists; the slot stays |
| Handlers.FailureDecidesText | bindings/rust/src/lib.rs:246-353 | every other outcome is a failed operation with the text of the exception, of the slot, of the null result or the default, as given, and empties the slot |
| Handlers.LastErrorTells | java/chrondb/lib/ChronDBLib.java:502-510 | asked for the last error after any requests, the caller is told a text if and only if a swallowed failure left it |
| Handlers.SlotOnlyChangesText | bindings/rust/src/lib.rs:246-270 | neither the store nor the reply depends on the slot, but for last-error and the text of a query or delete that fails without an exception |
| Handlers.PlaysWithEmptySlot | src/chrondb/lib/core.clj:174-246 | if get, list and history never throw, the slot is empty after any commands and reopenings |
| Handlers.ReplaySlot | bindings/rust/src/lib.rs:774-875 | the slot after a sequential execution is the slot after its native calls |
| Handlers.SlotHoldsOnlySwallowedFailures | java/chrondb/lib/ChronDBLib.java:179-308 | between commands the slot holds a text if and only if a get, list or history failure that the Rust side swallowed left it there and nothing touched the slot since |
| Handlers.ReportedTextIsAttributed | bindings/rust/src/lib.rs:246-353 | every reported text is the call's own, the default, or a left-over; left-overs only reach a query or delete that failed without an exception, and then always |
| Retry.WithOccRetry | src/chrondb/concurrency/occ.clj:57-81 | calls until the first attempt that succeeds or throws otherwise, at most max(1, max-retries); the last call decides the result, case by case; and the sleeps between back off as `SleepsBackOff` says |
| Retry.StopsOnce | src/chrondb/concurrency/occ.clj:60-81 | the outcomes of the attempts determine the number of calls |
| Retry.CallbacksInOrder | src/chrondb/concurrency/occ.clj:69-78 | after each attempt but the last, in order: the conflict callback with the exception of that attempt or nil, the retry callback with its number and the same, one sleep, and nothing else |
| Retry.DelayBounds | src/chrondb/concurrency/occ.clj:37-43 | each sleep is at least 0 and between (1 - jitter) and (1 + jitter) times its capped delay, but for the fraction cut off, hence at most (1 + jitter) * max-delay |
| Retry.SleepsBackOff | src/chrondb/concurrency/occ.clj:37-43 | the k-th sleep of the run lies, but for the fraction cut off, within the jitter around min(initial * multiplier^(k-1), max), and is its floor if there is no jitter |
| Retry.DrawsDecide | src/chrondb/concurrency/occ.clj:42-43 | a larger draw never gives a shorter sleep, and one half gives the floor of that minimum |
| Retry.TotalSleepBounds | src/chrondb/concurrency/occ.clj:60-78 | the sleeps of a call with R attempts total at most (1 + jitter) times both (R-1) * max-delay and initial * (m^(R-1) - 1)/(m - 1) |
| Retry.TotalSleepIsAround | src/chrondb/concurrency/occ.clj:60-78 | the sleeps total, but for a millisecond each, within the jitter around initial * (m^j - 1)/(m - 1) + (n - j) * max, where the first j of the n delays grow |
| VersionTracker.InMemoryVersionTracker.constructor | src/chrondb/concurrency/occ.clj:106-109 | a new tracker has no versions |
| VersionTracker.InMemoryVersionTracker.GetVersion | src/chrondb/concurrency/occ.clj:95-96 | 0 for a document never written |
| VersionTracker.InMemoryVersionTracker.SetVersion | src/chrondb/concurrency/occ.clj:98-100 | sets one version, no other |
| VersionTracker.InMemoryVersionTracker.IncrementVersion | src/chrondb/concurrency/occ.clj:102-104 | counts one version up and returns it |
| VersionTracker.InMemoryVersionTracker.VerifyVersion | src/chrondb/concurrency/occ.clj:112-121 | conflict exactly when an expectation is given, the version is positive and they differ |
| VersionTracker.InMemoryVersionTracker.WithVersionCheck | src/chrondb/concurrency/occ.clj:123-138 | refines `VersionTracker.CheckedWrite`: verify, run, then count |
| VersionTracker.VersionsCountReturnedWrites | src/chrondb/concurrency/occ.clj:134-138 | over any sequence of checked writes a version grows by the number of its writes that were accepted and returned, and by nothing else |
| VersionTracker.StaleRetriesAreFutile | src/chrondb/concurrency/occ.clj:57-81 | with an expectation captured outside and already passed, every attempt conflicts whatever other threads count, the operation never runs, and the last conflict is thrown after exactly max(1, max-retries) attempts |
| SwapAtom.SwapsAreAtomic | src/chrondb/concurrency/occ.clj:146-151 | under every interleaving of compare-and-set retries completed swaps are the updates applied one after the other |
| SwapAtom.IncrementsReturnOneToN | src/chrondb/concurrency/occ.clj:102-104 | n completed increments of one document return exactly 1..n, once each |
| SwapAtom.OneLockPerBranch | src/chrondb/concurrency/occ.clj:143-151 | all completed calls for one branch return the same lock for ever |
| SwapAtom.BranchesDoNotShareLocks | src/chrondb/concurrency/occ.clj:143-151 | different branches get different locks if allocated objects are distinct |
| OccInterleaving.CommitKeepsInv | src/chrondb/concurrency/occ.clj:102-138 | with the check under the lock, as the docstrings describe, a compare-and-set keeps: what other threads verified still holds, versions are counts of commits |
| OccInterleaving.FirstCommitterWins | src/chrondb/concurrency/occ.clj:112-159 | what would hold if the check were made under the lock: each version is its number of counted writes, each counted write was accepted against the version it found, and two that share an expectation include the one from 0 to 1 |
| OccInterleaving.FirstWriteIsUnchecked | src/chrondb/concurrency/occ.clj:118 | that exception is real |
| OccInterleaving.WithoutTheLockUpdatesAreLost | src/chrondb/concurrency/occ.clj:153-159 | without the branch lock two writes with the same expectation can both be counted against version 1 |
| DurableSaves.RightIffUndisturbed | src/chrondb/storage/durable.clj:196-205 | as the code is, checking before the lock: versions are counts of writes; and a counted write checked on its own branch was right if and only if it expected nothing, or no other write of the document was counted between its check and its own, or there was no version when it was checked and it expected the one it then met |
| DurableSaves.FirstCommitterWinsIfDisjoint | src/chrondb/storage/durable.clj:25-75 | first committer wins if branches are named, or the default is main, and saves of one document on one branch do not overlap |
| DurableSaves.OverlappingSavesAreBothCounted | src/chrondb/storage/durable.clj:203-205 | a run with the lock in which two saves that expect version 1 are both counted, the second wrongly |
| DurableSaves.DefaultBranchIsNotChecked | src/chrondb/storage/durable.clj:26-27 | without a branch name and with another default than main, any expectation passes |
| DurableSaves.DeletesAreNotCounted | src/chrondb/storage/durable.clj:90-131 | a delete changes no version, so expectations from before it are accepted after it |
| DurableSaves.DeleteDocument | src/chrondb/storage/durable.clj:90-131 | a durable delete returns if and only if one of the max(1, max-retries) attempts sees the document, and the first that does removes it; otherwise all are made, nothing is removed and nil is thrown |
| WalRecovery.TwoRecoveriesSettle | src/chrondb/wal/recovery.clj:85-117 | from any log two recoveries leave no entry unfinished, the second stores nothing, and the log is empty after them if and only if it was empty or had an unfinished entry |
| WalRecovery.OneRecovery | src/chrondb/wal/recovery.clj:13-67 | with an index that commits each write, after a crash at any step: one recovery has stored the document if it was logged; it is left unindexed exactly if the crash came before the store was marked, and indexed twice exactly if it came between indexing and its mark |
| WalRecovery.TwoRecoveries | src/chrondb/wal/recovery.clj:69-117 | with such an index, after two, storage and index have all of the job or nothing, for a crash at any step, but for the entry made twice |
| WalRecovery.FailedIndexIsRecoveredIff | src/chrondb/storage/durable.clj:43-54 | a failure of such an index is mended if and only if a crash comes before the entry is marked indexed, if it was swallowed, or complete, if it was logged as one to be recovered |
| WalRecovery.LateIsHarmlessIff | src/chrondb/wal/recovery.clj:26-33 | indexing a job after other jobs makes no difference if and only if none of them deleted the id of a late save, or they did not leave the id of a late delete saved |
| WalRecovery.CrashIsMendedIff | src/chrondb/storage/durable.clj:181-187 | with such an index, after an early crash, work after the restart and another restart, the storage is as without the crash, and the index is if and only if that condition holds |
| WalRecovery.LastJobDecides | src/chrondb/storage/durable.clj:25-131 | after any jobs a document is what the last job on it made of it: its text, or gone |
| WalRecovery.EntriesSinceDelete | src/chrondb/index/lucene.clj:385-400 | and an id has in the index one entry for each save of a text since it was last deleted, whatever the branch |
| BufferedIndex.RestartRefines | src/chrondb/wal/recovery.clj:85-117 | a restart of the machine is the recovery of the documents, the log and the committed writes |
| BufferedIndex.StepsRefine | src/chrondb/storage/durable.clj:25-75 | its steps, with commits anywhere between, are those of a durable save or delete |
| BufferedIndex.TwoRestarts | src/chrondb/index/lucene_nrt.clj:89-113 | how often a job is in the index after it was killed at any step and started twice, with commits anywhere: once for recovery if it was killed before its store was marked, or before its index mark and recovery was committed; and once for its own write if that was committed; so with recovery committed it is there if and only if it was killed before its index mark or its write was committed |
| BufferedIndex.HeldIffNeverExposed | src/chrondb/index/lucene_nrt.clj:205-216 | in every run of jobs, commits and restarts each job logged is in the index or still owed to it by the log, if and only if the process was never killed while the job was neither committed nor owed |
| BufferedIndex.HeldIsWritten | src/chrondb/index/lucene_nrt.clj:178-187 | and exactly what is in the index or owed to it is in the index after two clean restarts |
| BufferedIndex.WrittenTwiceAtMost | src/chrondb/wal/recovery.clj:26-33 | in every run no job is in the index more than twice |
| BufferedIndex.DocumentsAreDurable | src/chrondb/storage/durable.clj:25-131 | in every run, however often killed, the documents are those of all jobs logged, in order, but for one under way that is only logged |
| BufferedIndex.DocumentsAreTheLastJobs | src/chrondb/wal/recovery.clj:85-117 | after every restart of every run each document is what the last job on it that was logged made of it |
| BufferedIndex.Populate | src/chrondb/index/lucene.clj:348-376 | the loop that deletes and adds the entries of every main document leaves each with one entry, its present text, and every other id as it was |
| BufferedIndex.RepopulatedAlikeIff | src/chrondb/cli/server.clj:177-178 | this makes two indexes equal if and only if they agreed on all ids that main does not have |
| BufferedIndex.StartMendsIff | src/chrondb/cli/server.clj:166-178 | after one job killed at any step, a restart and this, the index is as if the job had gone through if and only if its write survived exactly once, or main has its id now, or it is a delete that survived twice or of what the index did not have |
| CommitGraph.HistoryIsClosed | src/chrondb/backup/git.clj:114 | a commit's history is closed under parents |
| CommitGraph.ClosedContainsHistory | src/chrondb/backup/git.clj:114 | and is contained in every closed set that has the commit |
| Bundles.LastIndexOf | src/chrondb/backup/git.clj:46-49 | the last occurrence of a character, as refspecs are split |
| Bundles.BuildRefSpecs | src/chrondb/backup/git.clj:51-58 | the refspec of each name, in order, and the wildcard for none |
| Bundles.PlainNameMapsToItself | src/chrondb/backup/git.clj:40-49 | a plain ref name is stored under itself, by force, and no other name is |
| Bundles.ColonSeparates | src/chrondb/backup/git.clj:40-49 | with a colon the last one separates source and destination |
| Bundles.PlusIsImplied | src/chrondb/backup/git.clj:40-49 | a plus sign before that makes no difference: the update is forced anyway |
| Bundles.StarCarriesText | src/chrondb/backup/git.clj:172-178 | a star in the source matches any text, which takes the place of the star in the destination, and no other name is stored there |
| Bundles.AllRefsMapsRefsToThemselves | src/chrondb/backup/git.clj:58 | the wildcard stores exactly the names under refs/, each under itself |
| Bundles.PlusWithoutColonStoresNothing | src/chrondb/backup/git.clj:46-49 | a leading plus without a colon stores nothing |
| Bundles.Repository.constructor | src/chrondb/backup/git.clj:96 | a repository over a commit graph |
| Bundles.Repository.ResolveRefs | src/chrondb/backup/git.clj:60-74 | the requested refs that exist in the repository, or all of its names under refs/; an error exactly when some were requested and none exists |
| Bundles.Repository.Store | src/chrondb/backup/git.clj:172-178 | one advertised ref through all refspecs: forced where some refspec sends it, all other refs unchanged |
| Bundles.Repository.Fetch | src/chrondb/backup/git.clj:163-178 | fails exactly when something new is asked for and a prerequisite is not among the objects or in no ref's history, and then, or in a dry run, changes nothing; otherwise `Bundles.Fetched` |
| Bundles.BundleWriter.constructor | src/chrondb/backup/git.clj:100 | nothing included or assumed |
| Bundles.BundleWriter.Assume | src/chrondb/backup/git.clj:107 | adds one assumed commit |
| Bundles.BundleWriter.Include | src/chrondb/backup/git.clj:112 | adds one ref |
| Bundles.WriteRefs | src/chrondb/backup/git.clj:105-114 | the bundle of the named refs with at most one assumed commit |
| Bundles.ExportBundle | src/chrondb/backup/git.clj:88-138 | the bundle has, with their values, all refs under refs/ if none were requested and else those requested that exist, and the manifest the same names; it assumes the base only if incremental; when it fails; and that verification changes nothing in the repository and cannot fail |
| Bundles.ImportBundle | src/chrondb/backup/git.clj:149-178 | succeeds exactly when nothing new is asked for or the prerequisites are there and in the history of refs; the dry run before it changes neither outcome nor repository |
| BackupChains.PackCompletes | src/chrondb/backup/git.clj:105-114 | the objects of a bundle complete a closed repository that has the assumed commits |
| BackupChains.PackIsLeast | src/chrondb/backup/git.clj:105-114 | and they are the least such, and none that the receiver is assumed to have |
| BackupChains.DefaultKeepsNames | src/chrondb/backup/git.clj:51-58 | the default refspecs store exactly the refs under refs/, each under itself |
| BackupChains.PlainNamesKeepNames | src/chrondb/backup/git.clj:51-57 | plain ref names store exactly these refs, each under itself |
| BackupChains.ImportedRefs | src/chrondb/backup/git.clj:158-178 | with refspecs that keep names the refs they match get their exported values, all others are untouched |
| BackupChains.ImportKeepsWellFormed | src/chrondb/backup/git.clj:158-178 | an import with any refspecs keeps the repository closed and its refs valid, and adds the whole history of the bundle's refs that they match |
| BackupChains.ChainHolds | src/chrondb/backup/git.clj:172-178 | no later import of a chain takes away the history that an earlier one brought |
| BackupChains.ChainRestores | src/chrondb/backup/git.clj:96-178 | after any chain of full and incremental imports, with any refspecs, the repository is closed under parents; if the last refspecs keep names, every ref of its bundle that they match has its exported value and full history, and all others are as before that import |
| BackupChains.FullBackupRestores | src/chrondb/backup/git.clj:72-178 | what a full export of everything holds, imported with the default refspecs into any repository, gives every ref under refs/ its value of the source with its whole history, and leaves every other ref |
| BackupChains.FullBackupImports | src/chrondb/backup/git.clj:72-178 | and it can be imported anywhere |
| BackupChains.NextImportSucceeds | src/chrondb/backup/git.clj:105-107 | the next bundle can be imported if and only if it brings nothing new that is asked for or its base is in the history of some ref, which it is if it is in the history of a ref that the last import stored under its own name |
| BackupChains.MovedRefStrandsTheBase | src/chrondb/backup/git.clj:158-178 | two imports, the second moving the ref by force, after which an incremental on the first cannot be imported, though its base is among the objects |
| BackupChains.ImportExists | src/chrondb/backup/git.clj:172-178 | what can be fetched can be imported, with any refspecs |
| BackupChains.UnresolvedBaseIsSelfContained | src/chrondb/backup/git.clj:98-107 | an unresolved base gives a bundle with all history, importable anywhere |
| Retention.SortNewestFirst | src/chrondb/backup/scheduler.clj:63-65 | sorting keeps exactly the names of the listing |
| Retention.SortIsNewestFirst | src/chrondb/backup/scheduler.clj:63-65 | and orders them newest first |
| Retention.Directory.constructor | src/chrondb/backup/scheduler.clj:61-63 | a directory with its files |
| Retention.Directory.EnforceRetention | src/chrondb/backup/scheduler.clj:61-72 | removes exactly the deletable names past the first `retention`, newest first, and passes over failures |
| Retention.KeepsTheNewest | src/chrondb/backup/scheduler.clj:66-70 | a run keeps min(count, retention) files, changes no time, and keeps no file older than one it deletes |
| Retention.GoesOrStays | src/chrondb/backup/scheduler.clj:61-72 | whichever deletions succeed: a file goes only if it can be deleted and `retention` others are at least as new, and one that can be deleted stays only if fewer than that are newer |
| Retention.RunsAreRecent | src/chrondb/backup/core.clj:188-206 | over any number of runs the recent outputs survive, and only later outputs can be as new |
| Retention.HoldsTheLastOutputs | src/chrondb/backup/core.clj:188-206 | after r or more runs with strictly newest outputs the directory is exactly the last r outputs, whatever it held before |
| Decimal.ValueOfDigits | src/chrondb/api/v1.clj:271 | decimal numerals are read back |
| Decimal.ValueSplits | src/chrondb/api/v1.clj:271 | each digit counts ten times the next |
| HistoryPaging.ParsePrinted | src/chrondb/api/v1.clj:268-272 | a printed number is read back exactly if it fits in 32 bits, otherwise dropped |
| HistoryPaging.ParsesIff | src/chrondb/api/v1.clj:268-272 | a parameter is read, with that value, if and only if it is a numeral within 32 bits, with a sign or without |
| HistoryPaging.CountsWhatItHas | src/chrondb/api/v1.clj:295-302 | for every request the count is the number of entries returned, and the status is 200 exactly if the document has a history and 404 otherwise |
| HistoryPaging.UnlimitedPage | src/chrondb/api/v1.clj:286-301 | a limit that is missing, unreadable or not positive gives all that follows the known `since` (everything for a missing or blank one), not truncated |
| HistoryPaging.PagesAreStretches | src/chrondb/api/v1.clj:286-301 | the k-th page is the k-th stretch of the first history, and truncated exactly if more follows, though newer entries were added in front |
| HistoryPaging.ConcatIsPrefix | src/chrondb/api/v1.clj:286-294 | pages before the n-th concatenate to the beginning of that history |
| HistoryPaging.PagingIsComplete | src/chrondb/api/v1.clj:281-302 | for every positive limit the pages are a gapless beginning of the first history, all of it exactly when the last is not truncated, after at most length / limit more requests |
| HistoryPaging.PagesAreCounted | src/chrondb/api/v1.clj:295-302 | the counts of the pages followed add up to what they hold, and to the whole first history exactly when the last page is not truncated |
| HistoryPaging.HugeLimitIsNoLimit | src/chrondb/api/v1.clj:283 | a limit beyond 32 bits gives one page with everything |
| HistoryPaging.TruncatedPagesHaveEntries | src/chrondb/api/v1.clj:292-301 | a truncated page is never empty, so it can be followed |
| HistoryPaging.UnknownSinceIsEmpty | src/chrondb/api/v1.clj:286-290 | an unknown commit id gives an empty page that is not truncated, and status 404 only if there is no history |
| DeepMerge.MergingMapsIsAFold | src/chrondb/config.clj:22-27 | on maps, merging any number at once is the left fold of binary merge |
| DeepMerge.MixedArgumentsAreNotAFold | src/chrondb/config.clj:25-27 | with a non-map among the arguments the fold agrees exactly if the maps after the last one merge to the last argument |
| DeepMerge.MixedArgumentsCanDiffer | src/chrondb/config.clj:25-27 | three arguments for which it does not |
| DeepMerge.LookupPrefersTheRight | src/chrondb/config.clj:22-27 | every path is looked up in the right argument first, then the left unless the right blocks it |
| DeepMerge.EmptyIsIdentity | src/chrondb/config.clj:22-27 | the empty map is a two-sided identity on maps |
| DeepMerge.MergeIsIdempotent | src/chrondb/config.clj:22-27 | merging a value with itself gives it back |
| DeepMerge.AssociativeIff | src/chrondb/config.clj:22-27 | merging three is associative if and only if at every path where only the middle one is not a map the left map adds nothing to the right |
| DeepMerge.AddsNothingIff | src/chrondb/config.clj:22-27 | a map adds nothing to another if and only if the other has or blocks all its paths |
| DeepMerge.MergeIsNotAssociative | src/chrondb/config.clj:22-27 | three concrete configurations for which it is not |
| DeepMerge.UnusableFileIsIgnored | src/chrondb/config.clj:32-42 | a file that is missing or cannot be read changes no path of the defaults |
| DeepMerge.FileOverDefaults | src/chrondb/config.clj:29-42 | a map in the file overrides the defaults path by path; anything else replaces them |

## Left out

Assumptions of the model:

- The native library is a function of the store, the operation and its arguments (`Library`); a successful open makes of
  the store what `onOpen` says, a failed one and closing leave it alone. `IndexedStore` is one such library; statements
  that insert, update or delete, which act like its saves and deletes, the order of search results, and a default branch other than main are not part of it.
- Timers are exact and times are natural numbers of nanoseconds; the `u32` failure counter does not overflow; mutexes are
  not poisoned; the worker thread does not panic.
- `open` on the Java side is reduced to whether it fails and with which text; `chrondb_close` is assumed not to write the
  slot in a way anyone sees, since the isolate is torn down next.
- The eighteen handlers that differ only in entry point and arguments are one `HandleCall`, by operation.
- Bytes of C strings, lossy decoding, and the text of JSON errors; which strings parse as JSON is a parameter.
- `cleanup_stale_locks` (a file removed before reopening) and the failure of `ffi::get_library`.
- The registry is kept key by key; canonicalization of paths is outside, so uniqueness is per key, not per directory.
- Sending the initialization result back to the opener is one step with starting the thread.
- Durable storage: metrics, a missing version tracker or log, and storage operations that throw. `OccInterleaving` is the
  composition that the docstrings of `with-branch-lock` and `with-version-check` describe; no caller runs it.
- Recovery: entries whose recovery throws (they are marked rolled back), two entries under way at once, and a crash during
  recovery. `BufferedIndex` takes the index to work, and indexing main anew, which the server does in the background, to
  come before the next job. A missing index, which `create-nrt-index` returns when it fails.
- Compare-and-set compares values, which allows every swap that comparing identities allows and more; a failed one starts
  over with a new read. `set-version` takes no part in the interleavings.
- Delays are exact reals before truncation; random draws are given; callbacks that throw and interrupted sleeps.
- JGit: a bundle's prerequisites must be among the objects and in the history of local refs, but are looked at only if the
  fetch asks for an object that is not there; then it adds all of the bundle's objects, and a dry run leaves none; including a
  ref twice keeps the last value; a commit stands for itself with its tree; symbolic refs, tags as objects, checksums and files are out.
- EDN map keys are strings; every non-map value is a leaf. No caller merges more than two values.
- `parse-int-safe` on a value that is not a string (an error answered with status 500), digits and whitespace beyond ASCII.

Not part of the model:

- The jobs of the scheduler, archives other than bundles, the REST handlers other than history, the command-line client.
- Library download and platform detection, and the bindings for other languages.
- `check-git-head-unchanged`: a comparison of two strings.

Weaker than one might expect:

- Bundles.Repository.Fetch: refs sent to one name by several advertised refs get the value of one of them, in an order left open.
- Transparency.SuspensionIsTransparent: with functions that throw, left-over text may differ, because the slot dies with the
  isolate; the functions behind this library do not throw.
- Transparency.InvisibleIffStable: supposes that get, list and history never throw, as is so behind this library.
- Registry.RegistryIsCoherent: needs that opens which find no live worker do not overlap anything; `CreatingOpenIsSafeIff` says
  that this is exact.
