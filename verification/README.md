# Verification of gcnport's stateful cores and report scanners

gcnport runs GameCube code under Dolphin: an execution session offers each block to a JIT, lets a
typed refusal reach a bounded interpreter, and lets native hooks replace guest functions. This project
models the parts of it whose guarantees are about whole runs, and proves those guarantees for every
configuration, backend and schedule. The scanners are modelled on every text; the few report lines that
the account of their verdicts does not cover are named under "Left out".

| files | what they model |
|---|---|
| `Words`, `ExecutionTypes` | fixed-width arithmetic and the execution vocabulary; refusal reasons are raw bytes |
| `FallbackLedger`, `ExecutionSession` | the budget ledger and the dispatch loop, in place, each method proved equal to a function of the old state |
| `SessionRuns`, `Counters`, `BudgetSafety`, `Conservation`, `InterpretedWork` | what holds over any number of `run` calls against any backend |
| `HookKeys`, `OriginalCalls`, `TicketHistory`, `TicketThreads` | one-shot original-call tickets: the class, its histories, and the threads competing for its mutex |
| `NativeHooks`, `HookCache` | the hook registry, and a translation cache that captures its decisions |
| `DolphinAdapter` | the two hook tables of the adapter, change by change |
| `Regex`, `TextLines`, `Listing`, `Report`, `FinalNewline` | Python's backtracking matcher, and the GoogleTest scanners with the printers they invert |

## How it is stated

* A backend is a record of three functions from everything it was ever asked to its next answer, so a
  statement about all backends covers adversarial and stateful ones. The same holds for the code
  invalidator, which may also throw.
* Counters are 64-bit and counts 32-bit; `Plus` drops the carry and `Narrow` keeps the low half. What a
  counter *means* is a second, unbounded account (`Tally`) computed from the diagnostics events alone, and
  what a budget *means* is a third (`UsageOf`) computed from the backend's call log alone, once with the
  ledger's 64-bit comparisons and once without.
* Every class method that changes state is proved against a specification function on the old state
  (`Dispatch`, `Recorded`, `Execute`, `InstallTrace`), and the results are then lemmas about runs of it.
* The scanners are stated over characters. `Regex.Try` is the leftmost, greedy, backtracking matcher, where
  `\s` matches a newline; nothing is matched line by line unless the source splits lines first.

## What is not as one might expect

1. **Instruction budgets near 2^64.** `record` compares a 64-bit sum with the total. That no more than the
   maximum total is ever *recorded* holds against every backend exactly when that sum cannot reach 2^64
   (`BudgetSafety.BudgetSafeIff`: it can when the total plus the per-block limit exceeds 2^64 and the block
   budget allows 2^64 instructions). `BudgetSafety.WrappingBudgetFails` gives the run that breaks it. A
   backend that honours the limit it is given is safe with every budget (`BudgetSafety.BudgetKept`). The
   order of the backend calls and their limits, by the machine counters, need no such condition
   (`BudgetSafety.CallsInOrder`).
2. **Interpreted is not recorded.** An answer that `record` rejects was interpreted all the same, and the
   next run starts with unchanged counters. So no budget but the disabled one bounds what a session
   *interprets*, even against a backend that honours its limits
   (`InterpretedWork.InterpretedWithinBudgetIff`). What can be added is one answer for each run that stops
   early (`InterpretedWork.InterpretedBound`), and nothing if the backend also answers at the refused PC
   and makes progress (`InterpretedWork.ObedienceIsRecorded`).
3. **Counters.** In JIT mode they are exact for the first 2^32 + 1 dispatches, and in diagnostic mode while
   dispatches times the configured limit stays below 2^64; no larger allowance keeps them exact
   (`Counters.NoCounterWrapsIff`). Beyond it they are exact modulo 2^64.
4. **Ticket ids.** The 2^64-th begin issues id 0. Ids are nonzero and never reused exactly below 2^64 begins
   (`TicketHistory.FreshIff`), and the life-history results are for such histories. A reissued id that is still
   live keeps standing for its first key (`TicketHistory.ReissuedIdKeepsOldKey`).
5. **Cached hook decisions.** The reader/writer lock does not by itself keep a cache in step with the
   registry: a decision looked up before an install and published after it is stale
   (`HookCache.StaleWithoutSafePoint`). For agreement alone a mutation may start exactly when no decision for
   its own key, other than the one it leads to, has been looked up and not yet published; for nothing to be
   cached at an address between its invalidation and the write as well, exactly when no decision at its
   address has (`HookCache.MutationSafeIff`, under either rule). The safe-point rule of the registry's header
   asks for more than both (`HookCache.SafePointsSuffice`).
6. **Other clients' hooks.** `remove_hook` and the destructor take an entry out of the session by its key,
   not by its pointer. A hook that another client installed over one of the adapter's is taken out with it;
   an entry survives destruction exactly if its key is not owned, and a removal exactly if its key is not
   the removed one (`DolphinAdapter.SurvivesDestruction`, `SurvivesRemoval`, `ForeignEntryLost`).
7. **Bare RUN lines.** The optional tail of a status line begins with `\s`, which also matches the newline,
   so a RUN line with nothing after its name takes in the whole following line. Two RUN lines in a row
   count as one (`Report.BackToBackRunsRefused`). A report whose tests all ran and passed is accepted exactly
   when no bare RUN or OK line stands directly above another of its kind (`Report.PassingReportAcceptedIff`);
   conversely, a test announced under another one goes unnoticed (`Report.UnnoticedRunAccepted`). An inventory is complete exactly when no bare line stands
   directly above another of the same status (`Report.InventoryCompleteIff`).

## Assumptions

* The mutex and the reader/writer lock are ideal, and a lock operation is one step.
* The Dolphin session either binds a key or throws with its table unchanged; a removal takes the key out
  and says whether it was there. Other clients may install over and remove any entry.
* `Alphabet.Valid`: of Unicode's tables, only that no space is a word character, that digits are word
  characters, and that ASCII is what it is. Printed names are made of word characters and `/` (and `.`).

## Model

| member | source | states |
|---|---|---|
| `FallbackLedger.Ledger.Make` | src/fallback_ledger.cpp:20-28 | construction succeeds exactly when the limits are all zero or all nonzero |
| `FallbackLedger.Ledger.Record` | src/fallback_ledger.cpp:63-100 | in place: a rejected execution changes no counter; an accepted one changes exactly the two totals and the two entries of its reason |
| `FallbackLedger.LimitIsExact` | src/fallback_ledger.cpp:52-61 | the narrowed limit is exactly the smaller of the block limit and what remains: the cast loses nothing, and the limit is zero only when nothing remains |
| `FallbackLedger.TwoBoundsAgreeIff` | src/fallback_ledger.cpp:52-92 | the limit handed out and the two comparisons made afterwards accept the same executions if and only if the sum for a full block stays below 2^64 (or the reason is invalid) |
| `ExecutionSession.ExecutionSession.Create` | src/execution_session.cpp:10-17 | exactly which configurations are rejected, with which error, and otherwise a zeroed session that drives the given backend and sink and shares nothing else |
| `ExecutionSession.ExecutionSession.RunJitDispatch` | src/execution_session.cpp:32-69 | one JIT dispatch in place: counters, backend calls and events are those of the specification, for every branch |
| `ExecutionSession.ExecutionSession.RunDiagnosticDispatch` | src/execution_session.cpp:71-83 | the same for a diagnostic dispatch |
| `ExecutionSession.ExecutionSession.Run` | src/execution_session.cpp:19-30 | the loop in place equals a pure replay of the backend's answers: same counters, calls, events and result |
| `SessionRuns.SessionKeeps` | src/execution_session.cpp:19-30 | whatever every dispatch keeps holds after any number of `run` calls |
| `SessionRuns.RunsCompose` | src/execution_session.cpp:19-30 | a run of n that exhausts its dispatches followed by a run of m is the run of n + m: same counters, calls and events, same result up to the exhaustion text; a run that stopped is unchanged by a larger allowance |
| `SessionRuns.StopOrOneEvent` | src/execution_session.cpp:32-83 | a dispatch that stops emits nothing and changes at most the dispatch counter; one that goes on emits exactly one event carrying the counters it ends with |
| `SessionRuns.EventReportsCall` | src/execution_session.cpp:32-83 | the calls of a dispatch are the backend's own answers to what was asked before, and its event reports the last of them unchanged |
| `SessionRuns.StopIsExplained` | src/execution_session.cpp:19-93 | a stopped run's reason, PC and message follow from its last backend call alone, which broke a rule, reported an end, or asked for a fallback the budget refuses, with the first ledger rule that applies; an answer within its limit never stops a run |
| `Counters.DispatchGrows` | src/execution_session.cpp:32-83 | one dispatch seen from outside: the calls it logs, at most one lawful event, and counters that follow from that event |
| `Counters.RunReports` | src/execution_session.cpp:19-30 | every result carries the counters its run ends with; it is reported exhausted if and only if all n dispatches went on, and then names no PC and n dispatches |
| `Counters.EventsReplayCounters` | src/execution_session.cpp:32-83 | in every reachable state the events, added up, rebuild every counter but the dispatch counter modulo 2^64, each snapshot already counts its own event, and the dispatch counter counts the JIT offers |
| `Counters.NoCounterWraps` | include/gcnport/execution_types.h:76-87 | within 2^32 + 1 dispatches every 64-bit counter equals its unbounded value, whatever counts the backend reports |
| `Counters.NoCounterWrapsIff` | include/gcnport/execution_types.h:76-87 | the largest allowance for which that is so: 2^32 + 1 dispatches in JIT mode, and in diagnostic mode exactly while dispatches times the configured limit stays below 2^64 |
| `Counters.CountersConserved` | src/fallback_ledger.cpp:94-99 | in every reachable state the per-reason totals sum to the overall ones, every reason keeps blocks <= instructions <= blocks x limit, and compiled <= executed <= instructions |
| `Counters.OffersAccounted` | src/execution_session.cpp:32-69 | JIT offers = executed blocks + fallback blocks + runs that ended for a reason other than dispatch exhaustion |
| `Conservation.StatisticsConserved` | src/execution_session.cpp:32-83 | the same conservation laws for the machine counters themselves, in every reachable state in which they are exact |
| `Conservation.StatisticsConservedWithin` | src/execution_session.cpp:32-83 | so within the largest exact allowance of either mode |
| `Conservation.FallbackCountersConserved` | src/fallback_ledger.cpp:94-98 | with a budget whose sum cannot wrap or a backend that honours its limits, the machine arrays add up to their totals and respect the per-block limit in every reachable state, without any bound on dispatches |
| `Conservation.ReasonsSumModulo` | src/fallback_ledger.cpp:94-98 | for every budget and backend the arrays add up to their totals modulo 2^64 |
| `Conservation.DispatchesModulo` | src/execution_session.cpp:33-68 | in JIT mode the dispatch counter is executed + fallback blocks + runs that stopped, modulo 2^64, in every reachable state |
| `Conservation.DispatchesConserved` | src/execution_session.cpp:33-68 | below 2^64 dispatches it is so exactly, with compiled <= executed, whatever the instruction counters have done |
| `Conservation.SnapshotsRise` | src/execution_session.cpp:46-81 | in every reachable state with exact counters no event's snapshot exceeds a later one in any counter, nor the session's counters |
| `Conservation.SnapshotsRiseWithin` | src/execution_session.cpp:46-81 | so within the largest exact allowance of either mode |
| `BudgetSafety.CallsInOrder` | src/execution_session.cpp:32-83 | for every budget and backend, in every reachable state: the call log lies in (J, J F)* (or D* in diagnostic mode), each F serving exactly the refusal that the machine counters let in, with the limit they leave; the fallback counters and the event log record the same answers |
| `BudgetSafety.EveryFallbackFollowsItsRefusal` | src/execution_session.cpp:50-61 | in every session each fallback call directly follows the valid refusal it serves, with a limit of at least 1 and at most the block limit and what the machine account of the earlier calls leaves over |
| `BudgetSafety.LimitIsByCounters` | src/execution_session.cpp:50-55 | that account is the counters the session holds when it makes the call, and the limit is the ledger's for them |
| `BudgetSafety.OrderIsExact` | src/fallback_ledger.cpp:31-92 | if the sum cannot wrap or the backend honours its limits, a log in machine order is in order by true sums, with the same account |
| `BudgetSafety.BudgetKept` | src/fallback_ledger.cpp:31-99 | if the sum cannot wrap or the backend honours its limit, then in every reachable state what is recorded is within the budget, counters, events and call log agree without wrapping, and each limit is within what the true sum leaves |
| `BudgetSafety.FallbackFollowsRefusal` | src/execution_session.cpp:50-61 | at every position of a log in order, by machine counters or by true sums, a fallback call directly follows the valid refusal it serves, with a limit between 1 and both the block limit and what is left |
| `BudgetSafety.WrappingBudgetFails` | src/fallback_ledger.cpp:84-85 | for every budget whose sum can wrap, a run against a limit-ignoring backend that records more than the total |
| `BudgetSafety.BudgetSafeIff` | src/fallback_ledger.cpp:31-99 | what is recorded stays within the budget against every backend and every sequence of runs if and only if the sum cannot wrap |
| `InterpretedWork.RunRejects` | src/execution_session.cpp:54-58 | each run has at most one answer that is interpreted and not recorded, and has one exactly when it stops for the budget on a fallback call |
| `InterpretedWork.InterpretedBound` | src/execution_session.cpp:50-61 | against a backend that honours its limits, everything interpreted is what was recorded plus at most one block for each run that stopped early |
| `InterpretedWork.ObedienceIsRecorded` | src/fallback_ledger.cpp:63-92 | a backend that also answers at the refused PC and makes progress is never rejected, so all it interprets is recorded and within the total |
| `InterpretedWork.RejectedWorkExceedsBudget` | src/fallback_ledger.cpp:79-83 | with a budget of one instruction a hundred are interpreted and none recorded |
| `InterpretedWork.InterpretedWithinBudgetIff` | src/fallback_ledger.cpp:31-92 | what a session interprets is bounded by the total, against every backend or every limit-honouring one, if and only if fallback is disabled |
| `BudgetSafety.ExhaustionBound` | src/execution_session.cpp:50-61 | against a backend that always refuses validly within its limit, a fresh session accepts F blocks with min(max blocks, ceil(total / per block)) <= F <= min(max blocks, total), then stops for the budget with one of the two used up exactly, unless the dispatches run out first |
| `BudgetSafety.DiagnosticModeIsSeparate` | src/execution_session.cpp:71-83 | in diagnostic mode every backend call is a diagnostic one with the configured limit, and every JIT and fallback counter stays zero |
| `HookKeys.MalformedIff` | src/native_hooks.cpp:30-36 | a key is refused if and only if its 32 digest bytes are all zero or its address is not 4n for some n > 0 |
| `HookKeys.OneByteIsEnough` | src/native_hooks.cpp:30-36 | one nonzero byte anywhere in the digest authenticates it, and then every nonzero multiple of 4 is a valid address |
| `OriginalCalls.OriginalCallCoordinator.Begin` | src/original_calls.cpp:36-47 | in place: refused for the key if and only if its digest is zero or its address no instruction word; otherwise the counter advances before the invalidator is called, then the ticket or the exception |
| `OriginalCalls.OriginalCallCoordinator.ClaimEntry` | src/original_calls.cpp:49-58 | in place: true and Claimed exactly for a pending ticket with the same key, otherwise no change |
| `OriginalCalls.OriginalCallCoordinator.Complete` | src/original_calls.cpp:60-68 | in place: only a claimed ticket is invalidated and then erased; a throwing invalidator leaves it |
| `OriginalCalls.OriginalCallCoordinator.Cancel` | src/original_calls.cpp:70-78 | in place: a ticket in either state is invalidated and then erased; an unknown one is a no-op |
| `OriginalCalls.OriginalCallCoordinator.PendingCount` | src/original_calls.cpp:80-83 | the number of live tickets |
| `TicketHistory.IssuedIds` | src/original_calls.cpp:43-46 | each id is the number of its begin modulo 2^64: nonzero up to the (2^64 - 1)-th, and 0 at the 2^64-th |
| `TicketHistory.FreshIff` | src/original_calls.cpp:43-46 | issued ids are nonzero and pairwise different over all histories of at most n begins if and only if n is below 2^64 |
| `TicketHistory.AnswersFollowLives` | src/original_calls.cpp:36-83 | every answer is the one history demands: a claim wins if and only if its ticket waits for that key, however many were begun since; a ticket completes if and only if it is taken and is cancelled if and only if it is live, unless the invalidator throws; a begin issues the next id for every well-formed key |
| `TicketHistory.ReissuedIdKeepsOldKey` | src/original_calls.cpp:43-45 | the begin after 2^64 others issues id 1 again, and a first ticket that is still live keeps that id for its own key |
| `TicketHistory.LivesInOrder` | src/original_calls.cpp:36-78 | over every history each ticket's successful events are a prefix of begin, claim with its key, retirement, with completion only after the claim; the table holds exactly the tickets between begin and retirement |
| `TicketHistory.AtMostOneClaim` | src/original_calls.cpp:49-58 | a ticket is claimed at most once, and exactly once if it is or was taken |
| `TicketHistory.InvalidationsAccounted` | src/original_calls.cpp:42-78 | at every address issued = retired + live and invalidations = 2 x retired + live; rejected and failed operations add nothing |
| `TicketHistory.PendingIsIssuedLessRetired` | src/original_calls.cpp:80-83 | the pending count is issued less completed or effectively cancelled |
| `TicketThreads.EveryScheduleIsSequential` | src/original_calls.cpp:42-82 | linearizability: for any number of threads and every interleaving of single statements, the effects replayed one operation at a time in lock order answer every response handed back, none twice, in real-time order, with the same storage and invalidator log whenever the lock is free |
| `TicketThreads.DeliveredAnswersFollowLives` | src/original_calls.cpp:36-83 | in every schedule each response handed back is the one that the operations before it in the order of effects demand |
| `TicketThreads.NeverStuck` | src/original_calls.cpp:42-82 | a thread inside an operation can always act, unless it waits for the lock, and then the lock's owner can |
| `TicketThreads.OneThreadInside` | src/original_calls.cpp:42-82 | no two threads are ever inside the bodies |
| `TicketThreads.ClaimRaceHasOneWinner` | src/original_calls.cpp:49-58 | of all callers racing for one ticket in any schedule, at most one is told true |
| `NativeHooks.NativeHookRegistry.Install` | src/native_hooks.cpp:55-64 | in place: refused for the key if and only if its digest is zero or its address no instruction word; then the callback check, invalidation before the write, the table unchanged by a throw |
| `NativeHooks.NativeHookRegistry.Remove` | src/native_hooks.cpp:66-75 | in place: the same key check; an absent key is neither invalidated nor removed, a present one is invalidated first |
| `NativeHooks.NativeHookRegistry.Find` | src/native_hooks.cpp:77-85 | the same key check; the stored hook or none |
| `NativeHooks.NativeHookRegistry.Size` | src/native_hooks.cpp:87-90 | the number of stored keys |
| `NativeHooks.DecidedByLastWrite` | src/native_hooks.cpp:55-85 | a key is decided by its own last successful install or removal, so another image or generation never answers for it |
| `NativeHooks.AnswersFollowHistory` | src/native_hooks.cpp:55-90 | every answer is the one the key's digest, address and own history demand, with the invalidation made for it: nothing is refused that should be performed |
| `NativeHooks.StoredAreValid` | src/native_hooks.cpp:55-59 | only valid keys and nonempty callbacks are ever stored |
| `NativeHooks.InvalidationsAreWrites` | src/native_hooks.cpp:61-75 | at every address successful invalidations = installs + successful removals |
| `HookCache.CacheAgreesWithRegistry` | src/native_hooks.cpp:61-84 | in every reachable state of every schedule whose mutations start with no decision at their address in flight, each cached decision is the registry's, and from an invalidation until its write nothing at that address is cached; writers exclude readers and each other |
| `HookCache.SafePointsSuffice` | include/gcnport/native_hooks.h:69-70 | mutating at safe points, as the header demands, keeps both rules |
| `HookCache.CacheAgreesUnderEitherRule` | src/native_hooks.cpp:61-84 | for cached decisions to be the registry's it is enough that no decision for the mutation's own key, other than the one it leads to, is in flight when it starts |
| `HookCache.InvalidationDrops` | src/native_hooks.cpp:62 | an invalidation that goes through drops the cached decisions at its address and no others |
| `HookCache.MutationSafeIff` | src/native_hooks.cpp:61-74 | from every state reached under a rule, starting a mutation that invalidates keeps the cache coherent and cleared in every continuation if and only if no decision at its address is in flight, and coherent if and only if none for its own key is that differs from what it writes |
| `HookCache.RegistryIsSequential` | src/native_hooks.cpp:61-84 | in every schedule the table is what the registry's operations did one after another |
| `HookCache.CachedByLastWrite` | src/native_hooks.cpp:61-84 | so a cached decision is the key's own last successful install or removal |
| `HookCache.StaleWithoutSafePoint` | include/gcnport/native_hooks.h:69-70 | without any such rule the lock alone admits a stale cache |
| `DolphinAdapter.ConversionIsFaithful` | src/dolphin_adapter.cpp:17-30 | key conversion has an inverse in both directions, so two keys never share a session entry |
| `DolphinAdapter.ConversionKeepsFields` | src/dolphin_adapter.cpp:17-30 | the converted key has the same 32 digest bytes, the same generation and the same address, in both directions |
| `DolphinAdapter.InstalledIsBound` | src/dolphin_adapter.cpp:231-242 | after an accepted installation the entry with the hook's own digest, generation and address is a live binding with the hook, and every other entry is as before |
| `DolphinAdapter.RemovedIsUnbound` | src/dolphin_adapter.cpp:244-250 | a removal takes out the entry with those fields and no other |
| `DolphinAdapter.DolphinRuntimeAdapter.InstallHook` | src/dolphin_adapter.cpp:231-242 | in place: the states reached one after another are those of the install trace, accepted or refused, and an accepted one puts its pointer under the key's own digest, generation and address |
| `DolphinAdapter.DolphinRuntimeAdapter.RemoveHook` | src/dolphin_adapter.cpp:244-250 | in place: the entry with the key's own fields, and no other, leaves the session before the storage goes, and the answer says whether there was one |
| `DolphinAdapter.DolphinRuntimeAdapter.HookCount` | src/dolphin_adapter.cpp:252 | the number of owned bindings |
| `DolphinAdapter.DolphinRuntimeAdapter.Destroy` | src/dolphin_adapter.cpp:173-179 | in place: no pointer of this adapter stays in the session, another client's entry stays exactly if its key is not owned, every binding is destroyed, and no micro-step leaves a dispatchable dead pointer |
| `DolphinAdapter.SurvivesDestruction` | src/dolphin_adapter.cpp:173-179 | an entry survives the destructor's loop, unchanged, if and only if its key is not owned |
| `DolphinAdapter.SurvivesRemoval` | src/dolphin_adapter.cpp:244-250 | an entry survives a removal, unchanged, if and only if its key is not the removed one |
| `DolphinAdapter.ForeignEntryLost` | src/dolphin_adapter.cpp:173-179 | install, then another client installs over the key: removal and destruction both take out that client's entry |
| `DolphinAdapter.InstallNeverDangles` | src/dolphin_adapter.cpp:231-242 | at every micro-step of an installation or replacement each dispatchable pointer is alive, carries its key and is owned under it |
| `DolphinAdapter.RemoveNeverDangles` | src/dolphin_adapter.cpp:244-250 | the same for a removal |
| `DolphinAdapter.NeverDangles` | src/dolphin_adapter.cpp:231-250 | the same over every run, with other clients installing over and removing any entry; no binding leaks or has two owners |
| `DolphinAdapter.RefinesHookMap` | src/dolphin_adapter.cpp:231-252 | when only the adapter uses the session, the two pointer tables implement a map: the session runs at each key exactly the hook last installed there |
| `Regex.TrySound` | tools/gcnport_tools/dolphin_tests.py:63-85 | what the backtracking matcher returns is a match in the declarative sense |
| `Regex.TryComplete` | tools/gcnport_tools/dolphin_tests.py:63-85 | if there is any match the matcher finds one |
| `Regex.SearchIsExists` | tools/gcnport_tools/dolphin_tests.py:76 | a search succeeds exactly when some position matches |
| `TextLines.SplitInvertsPrint` | tools/gcnport_tools/dolphin_tests.py:62 | splitting newline-terminated lines gives the lines back |
| `TextLines.EachLineEnds` | tools/gcnport_tools/dolphin_tests.py:62 | a carriage return with a newline ends one line, and so does each single line-end character |
| `Regex.CodePoints` | tools/gcnport_tools/dolphin_tests.py:62-84 | the 29 characters `\s` matches and the 10 that end a line, by code point |
| `Listing.SuiteLineMatches` | tools/gcnport_tools/dolphin_tests.py:63-64 | exactly which lines are suite headers and what they capture |
| `Listing.TestLineMatches` | tools/gcnport_tools/dolphin_tests.py:65-66 | exactly which lines are test entries and what they capture |
| `Listing.HeaderShape` | tools/gcnport_tools/dolphin_tests.py:63-64 | every plain name with a dot and a remark is a header and is captured |
| `Listing.HeaderOnly` | tools/gcnport_tools/dolphin_tests.py:63-64 | nothing else is a header |
| `Listing.EntryShape` | tools/gcnport_tools/dolphin_tests.py:65-66 | every plain name behind blanks and before a remark is an entry and is captured |
| `Listing.EntryOnly` | tools/gcnport_tools/dolphin_tests.py:65-66 | nothing else is an entry |
| `Listing.RemarkShape` | tools/gcnport_tools/dolphin_tests.py:63-65 | a remark has no newline, and after its blanks ends or goes on with a hash |
| `Listing.NothingBeforeHeader` | tools/gcnport_tools/dolphin_tests.py:65 | entries before the first header are not counted |
| `Listing.ShapesDisjoint` | tools/gcnport_tools/dolphin_tests.py:63-66 | no line has both shapes |
| `Listing.ValidateListing` | tools/gcnport_tools/dolphin_tests.py:59-72 | the loop accepts exactly when every expected name is counted once |
| `TextLines.SplitConcat` | tools/gcnport_tools/dolphin_tests.py:62 | a text that ends its last line contributes its lines, whatever follows |
| `Listing.ListingIsCompositional` | tools/gcnport_tools/dolphin_tests.py:59-66 | scanned lines whose second part opens with a suite header count the sum of the parts |
| `Listing.ListingsAdd` | tools/gcnport_tools/dolphin_tests.py:59-66 | the same for the text of a listing behind one that ends its last line |
| `Listing.NoiseIsIgnored` | tools/gcnport_tools/dolphin_tests.py:59-66 | a line of neither shape can stand anywhere without changing the scan |
| `Listing.NoiseInText` | tools/gcnport_tools/dolphin_tests.py:59-66 | text whose lines have neither shape can be inserted between lines of any listing without changing its counts |
| `Listing.RemarkIsIgnored` | tools/gcnport_tools/dolphin_tests.py:63-66 | blanks and a comment appended to any line, of either shape or neither, change nothing in the scan |
| `Listing.RemarkInText` | tools/gcnport_tools/dolphin_tests.py:59-66 | blanks and a comment inserted at the end of any line of any listing never change its counts |
| `Listing.ListingFor` | tools/test_dolphin_tests.py:13-20 | the dictionary loop prints the names grouped by suite in order of first appearance; a name without a dot raises |
| `Listing.GroupingConserves` | tools/test_dolphin_tests.py:14-17 | grouping loses and duplicates no name |
| `Listing.GroupedInOrder` | tools/test_dolphin_tests.py:14-17 | the dictionary holds each suite once, in order of first occurrence, with its tests in their own order |
| `Listing.ListingText` | tools/test_dolphin_tests.py:18-20 | the printed listing, character by character |
| `Listing.ScannerInvertsPrinter` | tools/gcnport_tools/dolphin_tests.py:59-66 | the printed listing of any names scans back as exactly those names with their multiplicities |
| `Listing.PrintedListingAcceptedIff` | tools/gcnport_tools/dolphin_tests.py:67-72 | a printed listing is accepted exactly when each expected name occurs once in it |
| `Listing.PrinterSplitsBack` | tools/test_dolphin_tests.py:15-16 | splitting printed names at the first dot gives back suite and test |
| `Listing.SplitAtFirstDot` | tools/test_dolphin_tests.py:16 | a name is split at its first dot whatever follows, and cannot be split without one |
| `Report.StatusMatches` | tools/gcnport_tools/dolphin_tests.py:79 | what the inventory pattern matches at a status line: nothing under another word; else the name, up to the end of the line after the space behind it |
| `Report.SummaryMatches` | tools/gcnport_tools/dolphin_tests.py:84 | exactly which status lines are passing summaries |
| `Report.FailureMatches` | tools/gcnport_tools/dolphin_tests.py:76 | exactly which status lines are failures or skips |
| `Report.ScanIsCaptured` | tools/gcnport_tools/dolphin_tests.py:79 | the character-level scan of any report captures what the line account says, each bare name costing the next line |
| `Report.FailuresSearched` | tools/gcnport_tools/dolphin_tests.py:76-77 | the unanchored search finds a failure exactly when some line reports one |
| `Report.ReportVerdict` | tools/gcnport_tools/dolphin_tests.py:75-88 | the verdict on every report of status lines and other lines, including which check refuses it; a failing line is always found, and without brackets inside lines nothing else is taken for one |
| `Report.ScannerInvertsPrinter` | tools/test_dolphin_tests.py:23-26 | the printed report of any names is accepted exactly when they equal the expected names as multisets, and otherwise refused for its RUN inventory |
| `Report.CountLineDecides` | tools/gcnport_tools/dolphin_tests.py:84-88 | a report of completed runs with any digits in its count line is accepted if and only if the names are the expected ones and the digits, read from the left, are their number without a leading zero |
| `Report.DecimalDenotes` | tools/gcnport_tools/dolphin_tests.py:85 | the digits written for n, read from the left, give n back, with no leading zero |
| `Report.DenotesIsDecimal` | tools/gcnport_tools/dolphin_tests.py:85 | no other digits do |
| `Report.ResultForOne` | tools/test_dolphin_tests.py:23-26 | the printed report of one name, character by character |
| `Report.RunTextsConcat` | tools/test_dolphin_tests.py:24 | the text of several names is that of each in turn |
| `Report.InventoryCompleteIff` | tools/gcnport_tools/dolphin_tests.py:79-80 | the inventory pattern finds every line of a status if and only if no bare one stands directly above another |
| `Report.PassingReportAcceptedIff` | tools/gcnport_tools/dolphin_tests.py:75-88 | a report whose tests all ran, passed and were summarised is accepted if and only if no bare RUN or OK line stands directly above another of its kind |
| `Report.BackToBackRunsRefused` | tools/gcnport_tools/dolphin_tests.py:79 | two bare RUN lines in a row are one to the scanner, so a report of two passing tests is refused |
| `Report.UnnoticedRunAccepted` | tools/gcnport_tools/dolphin_tests.py:79-81 | a test announced directly under another one is not counted, so the report is accepted although it never completes |
| `FinalNewline.FinalNewlineIsIgnored` | tools/gcnport_tools/dolphin_tests.py:75-88 | for every text, a newline at its end never changes the verdict |
| `FinalNewline.UnterminatedVerdict` | tools/gcnport_tools/dolphin_tests.py:75-88 | so the verdict on a report whose last line is not terminated is the one of its lines too |

## Left out

- Dolphin itself (JIT, interpreter, block cache, memory, hardware) is an arbitrary backend, invalidator or session.
- Exceptions thrown by the backend or the diagnostics sink, and failing allocation, are not modelled; a throwing invalidator and a refusing session are.
- The wording of errors and stops is kept only as the branch that wrote it.
- `HookResult` and its conversions, the mirror of the refusal-reason enumeration and `to_string` are finite enumerations.
- Register and memory access through the guest context, the hook callback's own body, and the adapter calls that only forward to the session.
- The fixed inventory of required tests; the expected names are an arbitrary sequence instead.
- The rest of the Python tooling and the build files.
- Memory ordering, lock fairness and liveness: the results are about every reachable state, not about progress.
- TicketHistory.LivesInOrder: does not cover histories of 2^64 or more begins, where ids repeat.
- HookCache.CacheAgreesWithRegistry: the cache is an abstract one that fills from `find` and drops an invalidated address; how Dolphin's block cache does so is not part of this model.
- Report.ReportVerdict: does not cover a line that begins with a bracket holding exactly one word, unless blanks and a name follow the bracket on that line, nor an unclosed bracket with at most one word: there the patterns can go on into the next line. Brackets with no word or several, such as `[12:34 INFO] message`, are covered.
- DolphinAdapter.DolphinRuntimeAdapter.Destroy: the order in which a map visits and destroys its bindings is left arbitrary.
