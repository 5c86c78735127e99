/** What the ten counters mean: the events and calls of a session, added up without wrapping. */
module Counters {
  import opened Words
  import opened ExecutionTypes
  import opened FallbackLedger
  import opened ExecutionSession
  import opened SessionRuns

  type Naturals = s: seq<nat> | |s| == REASON_COUNT witness [0, 0, 0, 0]

  datatype Totals = Totals(
    compiled: nat,
    executed: nat,
    jitInstructions: nat,
    fallbackBlocks: nat,
    fallbackInstructions: nat,
    blocksByReason: Naturals,
    instructionsByReason: Naturals,
    diagnosticBlocks: nat,
    diagnosticInstructions: nat)

  const NOTHING: Totals := Totals(0, 0, 0, 0, 0, [0, 0, 0, 0], [0, 0, 0, 0], 0, 0)

  function AddTo(counts: Naturals, index: nat, amount: nat): Naturals {
    if index < REASON_COUNT then counts[index := counts[index] + amount] else counts
  }

  function Add(t: Totals, event: Event): Totals {
    match event
    case OnJitExecution(execution, _) =>
      t.(executed := t.executed + 1,
         jitInstructions := t.jitInstructions + execution.instructionCount,
         compiled := if execution.compiled then t.compiled + 1 else t.compiled)
    case OnFallback(refusal, block, _) =>
      t.(fallbackBlocks := t.fallbackBlocks + 1,
         fallbackInstructions := t.fallbackInstructions + block.instructionCount,
         blocksByReason := AddTo(t.blocksByReason, refusal.reason, 1),
         instructionsByReason := AddTo(t.instructionsByReason, refusal.reason, block.instructionCount))
    case OnDiagnosticInterpreter(block, _) =>
      t.(diagnosticBlocks := t.diagnosticBlocks + 1,
         diagnosticInstructions := t.diagnosticInstructions + block.instructionCount)
  }

  /** The events added up; their snapshots are not looked at. */
  function Tally(events: seq<Event>): Totals {
    if events == [] then NOTHING
    else Add(Tally(events[..|events| - 1]), events[|events| - 1])
  }

  function JitCalls(calls: seq<Call>): nat {
    if calls == [] then 0
    else JitCalls(calls[..|calls| - 1]) + if calls[|calls| - 1].JitCall? then 1 else 0
  }

  predicate WrapsAll(counters: PerReason, counts: Naturals) {
    forall r :: 0 <= r < REASON_COUNT ==> counters[r] == Wrap(counts[r])
  }

  /** Every counter but jit_dispatches is the total modulo 2^64. */
  predicate Wraps(s: Statistics, t: Totals) {
    && s.jitBlocksCompiled == Wrap(t.compiled)
    && s.jitBlocksExecuted == Wrap(t.executed)
    && s.jitInstructionsExecuted == Wrap(t.jitInstructions)
    && s.fallbackBlocks == Wrap(t.fallbackBlocks)
    && s.fallbackInstructions == Wrap(t.fallbackInstructions)
    && WrapsAll(s.fallbackBlocksByReason, t.blocksByReason)
    && WrapsAll(s.fallbackInstructionsByReason, t.instructionsByReason)
    && s.diagnosticBlocks == Wrap(t.diagnosticBlocks)
    && s.diagnosticInstructions == Wrap(t.diagnosticInstructions)
  }

  /** The counters are what the event log says, now and at each snapshot. */
  predicate Replays(w: World) {
    && Wraps(w.statistics, Tally(w.events))
    && w.statistics.jitDispatches == Wrap(JitCalls(w.calls))
    && SnapshotsReplay(w.events)
  }

  lemma TallyAppend(events: seq<Event>, event: Event)
    ensures Tally(events + [event]) == Add(Tally(events), event)
  {
    assert (events + [event])[..|events|] == events;
  }

  lemma JitCallsAppend(calls: seq<Call>, call: Call)
    ensures JitCalls(calls + [call]) == JitCalls(calls) + if call.JitCall? then 1 else 0
  {
    assert (calls + [call])[..|calls|] == calls;
  }

  /** The counters after an event, given those before it. */
  function Apply(s: Statistics, event: Event): Statistics {
    match event
    case OnJitExecution(execution, _) => JitExecuted(s, execution)
    case OnFallback(refusal, block, _) =>
      if refusal.reason < REASON_COUNT then Recorded(s, refusal, block) else s
    case OnDiagnosticInterpreter(block, _) => DiagnosticExecuted(s, block)
  }

  /** What the session checks before it emits an event. */
  predicate Lawful(c: RuntimeConfiguration, event: Event) {
    match event
    case OnJitExecution(execution, _) => 1 <= execution.instructionCount
    case OnFallback(refusal, block, _) =>
      && refusal.reason < REASON_COUNT
      && 1 <= block.instructionCount <= c.fallback.maximumInstructionsPerBlock
    case OnDiagnosticInterpreter(block, _) =>
      1 <= block.instructionCount <= c.diagnosticInstructionsPerDispatch
  }

  function Counted(c: RuntimeConfiguration, s: Statistics): Statistics {
    if c.mode == Jit then s.(jitDispatches := Plus(s.jitDispatches, 1)) else s
  }

  /** The calls of one dispatch: one offer to the JIT and perhaps one other call, or one diagnostic call. */
  predicate Logs(c: RuntimeConfiguration, calls: seq<Call>, next: seq<Call>) {
    && |calls| < |next| <= |calls| + 2
    && next[..|calls|] == calls
    && (next[|calls|].JitCall? <==> c.mode == Jit)
    && (|next| == |calls| + 2 ==> !next[|calls| + 1].JitCall?)
  }

  lemma LogsCounts(c: RuntimeConfiguration, calls: seq<Call>, next: seq<Call>)
    requires Logs(c, calls, next)
    ensures JitCalls(next) == JitCalls(calls) + if c.mode == Jit then 1 else 0
  {
    JitCallsAppend(calls, next[|calls|]);
    if |next| == |calls| + 1 {
      assert next == calls + [next[|calls|]];
    } else {
      JitCallsAppend(calls + [next[|calls|]], next[|calls| + 1]);
      assert next == calls + [next[|calls|]] + [next[|calls| + 1]];
    }
  }

  /** One dispatch seen as log growth: at most one event, and counters that follow from it. */
  predicate Grows(c: RuntimeConfiguration, w: World, next: World, event: Option<Event>) {
    && Logs(c, w.calls, next.calls)
    && match event
       case None => next.events == w.events && next.statistics == Counted(c, w.statistics)
       case Some(e) =>
         && Lawful(c, e)
         && (e.OnDiagnosticInterpreter? <==> c.mode == DiagnosticInterpreter)
         && next.events == w.events + [e]
         && next.statistics == Apply(Counted(c, w.statistics), e)
         && e.snapshot == next.statistics
  }

  lemma EnterFallbackGrows(ledger: Ledger, b: Behaviour, w: World, refusal: JitRefusal)
    returns (event: Option<Event>)
    requires refusal.reason < REASON_COUNT
    ensures var (next, result) := EnterFallback(ledger, b, w, refusal);
            && |next.calls| == |w.calls| + 1
            && next.calls[..|w.calls|] == w.calls && next.calls[|w.calls|].FallbackCall?
            && (event.Some? <==> result.None?)
            && (event.None? ==> next.events == w.events && next.statistics == w.statistics)
            && (event.Some? ==>
                  var e := event.value;
                  && e.OnFallback? && e.refusal == refusal
                  && 1 <= e.fallback.instructionCount <= ledger.budget.maximumInstructionsPerBlock
                  && next.events == w.events + [e]
                  && next.statistics == Recorded(w.statistics, refusal, e.fallback)
                  && e.snapshot == next.statistics)
  {
    var limit := ledger.InstructionLimit(w.statistics);
    var block := b.refused(w.calls, refusal, limit);
    event := if ledger.RecordError(refusal, block, w.statistics).Some? then None
             else Some(OnFallback(refusal, block, Recorded(w.statistics, refusal, block)));
  }

  lemma JitDispatchGrows(c: RuntimeConfiguration, b: Behaviour, w: World) returns (event: Option<Event>)
    requires c.mode == Jit
    ensures var (next, result) := JitDispatch(Ledger(c.fallback), b, w);
            Grows(c, w, next, event) && (event.Some? <==> result.None?)
  {
    var ledger := Ledger(c.fallback);
    var step := b.jit(w.calls);
    var offered := World(Counted(c, w.statistics), w.calls + [JitCall(step)], w.events);
    event := None;
    match step
    case Executed(execution) =>
      if execution.instructionCount != 0 {
        event := Some(OnJitExecution(execution, JitExecuted(offered.statistics, execution)));
      }
    case Refused(refusal) =>
      if ledger.CanEnter(refusal, offered.statistics).None? {
        event := EnterFallbackGrows(ledger, b, offered, refusal);
        assert JitDispatch(ledger, b, w) == EnterFallback(ledger, b, offered, refusal);
      }
    case Exited(_) =>
    case Faulted(_, _) =>
  }

  lemma DispatchGrows(c: RuntimeConfiguration, b: Behaviour, w: World) returns (event: Option<Event>)
    ensures var (next, result) := Dispatch(c, b, w);
            Grows(c, w, next, event) && (event.Some? <==> result.None?)
  {
    if c.mode == Jit {
      event := JitDispatchGrows(c, b, w);
    } else {
      var (next, result) := Dispatch(c, b, w);
      event := if result.Some? then None else Some(next.events[|w.events|]);
    }
  }

  /** Adding one event commutes with reduction modulo 2^64. */
  lemma WrapsAdd(c: RuntimeConfiguration, s: Statistics, t: Totals, event: Event)
    requires Wraps(s, t) && Lawful(c, event)
    ensures Wraps(Apply(s, event), Add(t, event))
  {
    match event
    case OnJitExecution(execution, _) =>
      PlusWraps(t.executed, 1);
      PlusWraps(t.jitInstructions, execution.instructionCount);
      PlusWraps(t.compiled, 1);
    case OnFallback(refusal, block, _) =>
      var r, count := refusal.reason, block.instructionCount;
      PlusWraps(t.fallbackBlocks, 1);
      PlusWraps(t.fallbackInstructions, count);
      PlusWraps(t.blocksByReason[r], 1);
      PlusWraps(t.instructionsByReason[r], count);
    case OnDiagnosticInterpreter(block, _) =>
      PlusWraps(t.diagnosticBlocks, 1);
      PlusWraps(t.diagnosticInstructions, block.instructionCount);
  }

  /** The i-th snapshot counts the events up to and including its own. */
  predicate SnapshotReplays(events: seq<Event>, i: nat)
    requires i < |events|
  {
    Wraps(events[i].snapshot, Tally(events[..i + 1]))
  }

  predicate SnapshotsReplay(events: seq<Event>) {
    forall i :: 0 <= i < |events| ==> SnapshotReplays(events, i)
  }

  lemma SnapshotAppend(events: seq<Event>, event: Event)
    requires SnapshotsReplay(events) && Wraps(event.snapshot, Tally(events + [event]))
    ensures SnapshotsReplay(events + [event])
  {
    var longer := events + [event];
    forall i | 0 <= i < |longer| ensures SnapshotReplays(longer, i) {
      assert longer[..i + 1] == if i < |events| then events[..i + 1] else longer;
      if i < |events| {
        assert SnapshotReplays(events, i);
      }
    }
  }

  lemma DispatchReplays(c: RuntimeConfiguration, b: Behaviour, w: World)
    requires Replays(w)
    ensures Replays(Dispatch(c, b, w).0)
  {
    var event := DispatchGrows(c, b, w);
    GrowthReplays(c, w, Dispatch(c, b, w).0, event);
  }

  lemma GrowthReplays(c: RuntimeConfiguration, w: World, next: World, event: Option<Event>)
    requires Replays(w) && Grows(c, w, next, event)
    ensures Replays(next)
  {
    LogsCounts(c, w.calls, next.calls);
    PlusWraps(JitCalls(w.calls), 1);
    if event.Some? {
      TallyAppend(w.events, event.value);
      WrapsAdd(c, Counted(c, w.statistics), Tally(w.events), event.value);
      SnapshotAppend(w.events, event.value);
    }
  }

  lemma EveryDispatchReplays(c: RuntimeConfiguration, b: Behaviour)
    ensures Replays(FRESH)
    ensures forall w :: Replays(w) ==> Replays(Dispatch(c, b, w).0)
  {
    forall w | Replays(w) ensures Replays(Dispatch(c, b, w).0) {
      DispatchReplays(c, b, w);
    }
  }

  /** In every reachable state the event log rebuilds every counter but jit_dispatches modulo 2^64,
      each snapshot already counts its own event, and jit_dispatches counts the JIT offers made. */
  lemma EventsReplayCounters(c: RuntimeConfiguration, b: Behaviour, runs: seq<u64>)
    ensures Replays(Session(c, b, runs))
  {
    hide *;
    EveryDispatchReplays(c, b);
    SessionKeeps(c, b, runs, (w: World) => Replays(w));
  }

  /** No counter has lost a carry. */
  predicate Exact(s: Statistics, t: Totals) {
    && s.jitBlocksCompiled == t.compiled
    && s.jitBlocksExecuted == t.executed
    && s.jitInstructionsExecuted == t.jitInstructions
    && s.fallbackBlocks == t.fallbackBlocks
    && s.fallbackInstructions == t.fallbackInstructions
    && s.fallbackBlocksByReason == t.blocksByReason
    && s.fallbackInstructionsByReason == t.instructionsByReason
    && s.diagnosticBlocks == t.diagnosticBlocks
    && s.diagnosticInstructions == t.diagnosticInstructions
  }

  predicate ExactWorld(w: World) {
    && Exact(w.statistics, Tally(w.events))
    && w.statistics.jitDispatches == JitCalls(w.calls)
  }

  /** Each event adds less than 2^32 to anything. */
  predicate Bounded(t: Totals, bound: nat) {
    && t.compiled <= bound && t.executed <= bound && t.jitInstructions <= bound
    && t.fallbackBlocks <= bound && t.fallbackInstructions <= bound
    && (forall r :: 0 <= r < REASON_COUNT ==>
                      t.blocksByReason[r] <= bound && t.instructionsByReason[r] <= bound)
    && t.diagnosticBlocks <= bound && t.diagnosticInstructions <= bound
  }

  lemma {:induction false} TallyBounded(events: seq<Event>)
    ensures Bounded(Tally(events), |events| * (TWO_32 - 1))
  {
    if events != [] {
      TallyBounded(events[..|events| - 1]);
    }
  }

  lemma {:induction false} ReplayLength(c: RuntimeConfiguration, b: Behaviour, w: World, n: nat)
    ensures var next := Replay(c, b, w, n).0;
            |next.events| <= |w.events| + n && JitCalls(next.calls) <= JitCalls(w.calls) + n
    decreases n
  {
    if n > 0 {
      var event := DispatchGrows(c, b, w);
      var (next, result) := Dispatch(c, b, w);
      assert |next.events| <= |w.events| + 1;
      LogsCounts(c, w.calls, next.calls);
      if result.None? {
        assert Replay(c, b, w, n) == Replay(c, b, next, n - 1);
        ReplayLength(c, b, next, n - 1);
      }
    }
  }

  lemma {:induction false} SessionLength(c: RuntimeConfiguration, b: Behaviour, runs: seq<u64>)
    ensures var w := Session(c, b, runs);
            |w.events| <= Sum(runs) && JitCalls(w.calls) <= Sum(runs)
    decreases |runs|
  {
    if runs != [] {
      var before := runs[..|runs| - 1];
      SessionLength(c, b, before);
      ReplayLength(c, b, Session(c, b, before), runs[|runs| - 1]);
    }
  }

  /** Every dispatch that goes on emits one event and, in JIT mode, makes one offer; the one that stops
      a run emits none. */
  lemma {:induction false} ReplayDispatches(c: RuntimeConfiguration, b: Behaviour, w: World, n: nat)
    ensures var (next, result) := Replay(c, b, w, n);
            && (result.None? ==>
                  && |next.events| == |w.events| + n
                  && JitCalls(next.calls) == JitCalls(w.calls) + if c.mode == Jit then n else 0)
            && (result.Some? ==> |w.events| <= |next.events| < |w.events| + n)
    decreases n
  {
    if n > 0 {
      var event := DispatchGrows(c, b, w);
      var (next, result) := Dispatch(c, b, w);
      LogsCounts(c, w.calls, next.calls);
      hide Dispatch, JitCalls, Logs, Lawful, Apply;
      if result.None? {
        assert Replay(c, b, w, n) == Replay(c, b, next, n - 1);
        ReplayDispatches(c, b, next, n - 1);
      } else {
        assert Replay(c, b, w, n) == (next, result);
      }
    }
  }

  /** What every run reports. Its statistics are the counters it ends with. It is reported exhausted
      exactly when all n dispatches went on, with no PC and with n in its text. */
  lemma RunReports(c: RuntimeConfiguration, b: Behaviour, w: World, n: u64)
    ensures var (next, result) := RunFrom(c, b, w, n);
            && result.statistics == next.statistics
            && (result.reason == DispatchBudgetExhausted <==> |next.events| == |w.events| + n)
            && (result.reason == DispatchBudgetExhausted ==>
                  && result.guestPc == 0
                  && result.detail == DispatchesExhausted(n)
                  && JitCalls(next.calls) == JitCalls(w.calls) + if c.mode == Jit then n else 0)
  {
    ReplayDispatches(c, b, w, n);
    StopIsExplained(c, b, w, n);
    ReplayStopsForAReason(c, b, w, n);
    hide Dispatch, JitCalls, Explains;
    var (next, stop) := Replay(c, b, w, n);
    assert RunFrom(c, b, w, n).0 == next;
    if stop.Some? {
      assert RunFrom(c, b, w, n).1 == stop.value;
    } else {
      assert RunFrom(c, b, w, n).1 == Stopped(DispatchBudgetExhausted, 0, DispatchesExhausted(n), next.statistics);
    }
  }

  lemma WrapsIsExact(s: Statistics, t: Totals)
    requires Wraps(s, t) && Bounded(t, TWO_64 - 1)
    ensures Exact(s, t)
  {}

  lemma BoundedMonotone(t: Totals, low: nat, high: nat)
    requires Bounded(t, low) && low <= high
    ensures Bounded(t, high)
  {}

  /** Few enough dispatches behind it for no counter to have wrapped. */
  predicate Short(w: World) {
    |w.events| <= TWO_32 + 1 && JitCalls(w.calls) <= TWO_32 + 1
  }

  lemma ShortIsExact(w: World)
    requires Replays(w) && Short(w)
    ensures ExactWorld(w)
  {
    TallyBounded(w.events);
    assert |w.events| * (TWO_32 - 1) <= (TWO_32 + 1) * (TWO_32 - 1);
    BoundedMonotone(Tally(w.events), |w.events| * (TWO_32 - 1), TWO_64 - 1);
    WrapsIsExact(w.statistics, Tally(w.events));
  }

  lemma SessionShort(c: RuntimeConfiguration, b: Behaviour, runs: seq<u64>)
    requires Sum(runs) <= TWO_32 + 1
    ensures Short(Session(c, b, runs))
  {
    SessionLength(c, b, runs);
  }

  /** While the run calls allow at most 2^32 + 1 dispatches, no counter has wrapped, whatever the
      backend reports. */
  lemma NoCounterWraps(c: RuntimeConfiguration, b: Behaviour, runs: seq<u64>)
    requires Sum(runs) <= TWO_32 + 1
    ensures ExactWorld(Session(c, b, runs))
  {
    EventsReplayCounters(c, b, runs);
    SessionShort(c, b, runs);
    ShortIsExact(Session(c, b, runs));
  }

  const LARGEST_BLOCK := JitExecution(0, 0xFFFF_FFFF, false)

  /** A backend whose every block is as large as its count can say. */
  const LARGEST_BLOCKS := Behaviour(
    calls => Executed(LARGEST_BLOCK),
    (calls, refusal, limit) => InterpretedBlock(0, 0),
    (calls, limit) => InterpretedBlock(0, 0))

  lemma {:induction false} LargestBlocksTally(c: RuntimeConfiguration, w: World, n: nat)
    requires c.mode == Jit
    ensures Tally(Replay(c, LARGEST_BLOCKS, w, n).0.events).jitInstructions
            == Tally(w.events).jitInstructions + n * (TWO_32 - 1)
    decreases n
  {
    if n > 0 {
      var (next, result) := Dispatch(c, LARGEST_BLOCKS, w);
      TallyAppend(w.events, next.events[|w.events|]);
      LargestBlocksTally(c, next, n - 1);
    }
  }

  lemma JitExactIff(c: RuntimeConfiguration, dispatches: nat)
    requires c.mode == Jit
    ensures (forall b, runs :: Sum(runs) <= dispatches ==> ExactWorld(Session(c, b, runs)))
            <==> dispatches <= TWO_32 + 1
  {
    if dispatches <= TWO_32 + 1 {
      forall b, runs | Sum(runs) <= dispatches ensures ExactWorld(Session(c, b, runs)) {
        NoCounterWraps(c, b, runs);
      }
    } else {
      var runs: seq<u64> := [TWO_32 + 2];
      assert runs[..0] == [];
      assert Sum(runs) == TWO_32 + 2;
      assert Session(c, LARGEST_BLOCKS, runs) == Replay(c, LARGEST_BLOCKS, FRESH, TWO_32 + 2).0;
      LargestBlocksTally(c, FRESH, TWO_32 + 2);
      assert !ExactWorld(Session(c, LARGEST_BLOCKS, runs));
    }
  }

  // Diagnostic mode, where the configured limit takes the place of the largest block.

  /** Only diagnostic blocks, each within the limit. */
  predicate DiagnosticTotals(c: RuntimeConfiguration, w: World) {
    var t := Tally(w.events);
    && t == NOTHING.(diagnosticBlocks := t.diagnosticBlocks, diagnosticInstructions := t.diagnosticInstructions)
    && JitCalls(w.calls) == 0
    && t.diagnosticBlocks == |w.events|
    && Limited(t.diagnosticBlocks, t.diagnosticInstructions, c.diagnosticInstructionsPerDispatch)
  }

  lemma DiagnosticOnlyCounts(c: RuntimeConfiguration, b: Behaviour, runs: seq<u64>)
    requires c.mode == DiagnosticInterpreter
    ensures DiagnosticTotals(c, Session(c, b, runs))
  {
    forall w | DiagnosticTotals(c, w) ensures DiagnosticTotals(c, Dispatch(c, b, w).0) {
      DiagnosticDispatchCounts(c, b, w);
    }
    hide DiagnosticTotals, Dispatch, Session;
    FreshCounts(c);
    SessionKeeps(c, b, runs, (w: World) => DiagnosticTotals(c, w));
  }

  lemma FreshCounts(c: RuntimeConfiguration)
    ensures DiagnosticTotals(c, FRESH)
  {}

  lemma DiagnosticDispatchCounts(c: RuntimeConfiguration, b: Behaviour, w: World)
    requires c.mode == DiagnosticInterpreter && DiagnosticTotals(c, w)
    ensures DiagnosticTotals(c, Dispatch(c, b, w).0)
  {
    hide Dispatch, Tally, JitCalls, Apply;
    var next := Dispatch(c, b, w).0;
    var event := DispatchGrows(c, b, w);
    LogsCounts(c, w.calls, next.calls);
    if event.Some? {
      TallyAppend(w.events, event.value);
      LimitedStep(|w.events|, Tally(w.events).diagnosticInstructions, c.diagnosticInstructionsPerDispatch,
                  event.value.block.instructionCount);
      hide Limited;
    }
  }

  lemma DiagnosticExact(c: RuntimeConfiguration, b: Behaviour, runs: seq<u64>)
    requires c.mode == DiagnosticInterpreter && Sum(runs) * c.diagnosticInstructionsPerDispatch < TWO_64
    ensures ExactWorld(Session(c, b, runs))
  {
    var w := Session(c, b, runs);
    EventsReplayCounters(c, b, runs);
    DiagnosticOnlyCounts(c, b, runs);
    SessionLength(c, b, runs);
    hide Wraps, Tally, Exact, JitCalls;
    DiagnosticBounded(c, w, Sum(runs));
    WrapsIsExact(w.statistics, Tally(w.events));
  }

  lemma DiagnosticBounded(c: RuntimeConfiguration, w: World, n: nat)
    requires DiagnosticTotals(c, w) && |w.events| <= n && n * c.diagnosticInstructionsPerDispatch < TWO_64
    ensures Bounded(Tally(w.events), TWO_64 - 1)
  {
    hide Tally;
    var limit := c.diagnosticInstructionsPerDispatch;
    assert |w.events| * limit <= n * limit;
  }

  /** A diagnostic interpreter that always runs up to its limit. */
  const FULL_BLOCKS := Behaviour(
    calls => Executed(LARGEST_BLOCK),
    (calls, refusal, limit) => InterpretedBlock(0, 0),
    (calls, limit: u32) => InterpretedBlock(0, limit))

  lemma {:induction false} FullBlocksTally(c: RuntimeConfiguration, w: World, n: nat)
    requires c.mode == DiagnosticInterpreter && c.diagnosticInstructionsPerDispatch > 0
    ensures var (next, result) := Replay(c, FULL_BLOCKS, w, n);
            && result.None?
            && Tally(next.events).diagnosticInstructions
               == Tally(w.events).diagnosticInstructions + n * c.diagnosticInstructionsPerDispatch
    decreases n
  {
    if n > 0 {
      var (next, result) := Dispatch(c, FULL_BLOCKS, w);
      TallyAppend(w.events, next.events[|w.events|]);
      FullBlocksTally(c, next, n - 1);
      assert n * c.diagnosticInstructionsPerDispatch
             == (n - 1) * c.diagnosticInstructionsPerDispatch + c.diagnosticInstructionsPerDispatch;
    }
  }

  /** The smallest number of full blocks that makes 2^64 instructions, as two runs. */
  lemma DiagnosticWraps(c: RuntimeConfiguration, dispatches: nat) returns (runs: seq<u64>)
    requires c.mode == DiagnosticInterpreter && dispatches * c.diagnosticInstructionsPerDispatch >= TWO_64
    ensures Sum(runs) <= dispatches && !ExactWorld(Session(c, FULL_BLOCKS, runs))
  {
    var n := MostBelow(c.diagnosticInstructionsPerDispatch, dispatches);
    runs := [n, 1];
    TwoRunsWrap(c, n);
    assert runs[..1] == [n] && runs[..1][..0] == [];
    assert Sum(runs) == Sum(runs[..1]) + 1 && Sum(runs[..1]) == Sum(runs[..1][..0]) + n;
  }

  lemma MostBelow(limit: u32, dispatches: nat) returns (n: u64)
    requires dispatches * limit >= TWO_64
    ensures n < dispatches && n * limit < TWO_64 <= (n + 1) * limit
  {
    n := (TWO_64 - 1) / limit;
    assert n * limit < TWO_64 <= (n + 1) * limit;
    LargerFactor(dispatches, n, limit);
  }

  lemma TwoRunsWrap(c: RuntimeConfiguration, n: u64)
    requires c.mode == DiagnosticInterpreter && (n + 1) * c.diagnosticInstructionsPerDispatch >= TWO_64
    ensures !ExactWorld(Session(c, FULL_BLOCKS, [n, 1]))
  {
    hide Tally, Dispatch, Replay, JitCalls;
    var (runs, limit) := ([n, 1], c.diagnosticInstructionsPerDispatch);
    assert runs[..1] == [n] && runs[..1][..0] == [];
    var w := Replay(c, FULL_BLOCKS, FRESH, n).0;
    FullBlocksTally(c, FRESH, n);
    FullBlocksTally(c, w, 1);
    NothingTallied();
    assert Session(c, FULL_BLOCKS, runs[..1]) == w;
    assert Session(c, FULL_BLOCKS, runs) == Replay(c, FULL_BLOCKS, w, 1).0;
    assert n * limit + limit == (n + 1) * limit;
  }

  lemma NothingTallied()
    ensures Tally(FRESH.events) == NOTHING
  {}

  lemma LargerFactor(a: nat, b: nat, limit: nat)
    requires a * limit > b * limit
    ensures a > b
  {}

  lemma DiagnosticExactIff(c: RuntimeConfiguration, dispatches: nat)
    requires c.mode == DiagnosticInterpreter
    ensures (forall b, runs :: Sum(runs) <= dispatches ==> ExactWorld(Session(c, b, runs)))
            <==> dispatches * c.diagnosticInstructionsPerDispatch < TWO_64
  {
    var limit := c.diagnosticInstructionsPerDispatch;
    if dispatches * limit < TWO_64 {
      forall b, runs | Sum(runs) <= dispatches ensures ExactWorld(Session(c, b, runs)) {
        assert Sum(runs) * limit <= dispatches * limit;
        DiagnosticExact(c, b, runs);
      }
    } else {
      var runs := DiagnosticWraps(c, dispatches);
    }
  }

  /** As many dispatches as cannot wrap a counter: 2^32 + 1 in JIT mode, and in diagnostic mode what
      the configured limit leaves below 2^64. */
  predicate Allowed(c: RuntimeConfiguration, dispatches: nat) {
    if c.mode == Jit then dispatches <= TWO_32 + 1
    else dispatches * c.diagnosticInstructionsPerDispatch < TWO_64
  }

  /** That is the largest allowance within which every counter is exact against every backend. */
  lemma NoCounterWrapsIff(c: RuntimeConfiguration, dispatches: nat)
    ensures (forall b, runs :: Sum(runs) <= dispatches ==> ExactWorld(Session(c, b, runs)))
            <==> Allowed(c, dispatches)
  {
    hide ExactWorld, Session, Sum;
    if c.mode == Jit {
      JitExactIff(c, dispatches);
    } else {
      DiagnosticExactIff(c, dispatches);
    }
  }

  function Total(counts: Naturals): nat {
    counts[0] + counts[1] + counts[2] + counts[3]
  }

  /** blocks <= instructions <= blocks * limit: each block ran at least once and within its limit. */
  predicate Limited(blocks: nat, instructions: nat, limit: nat) {
    blocks <= instructions <= blocks * limit
  }

  predicate Conserved(c: RuntimeConfiguration, t: Totals) {
    && Total(t.blocksByReason) == t.fallbackBlocks
    && Total(t.instructionsByReason) == t.fallbackInstructions
    && (forall r :: 0 <= r < REASON_COUNT ==>
                      Limited(t.blocksByReason[r], t.instructionsByReason[r],
                              c.fallback.maximumInstructionsPerBlock))
    && Limited(t.fallbackBlocks, t.fallbackInstructions, c.fallback.maximumInstructionsPerBlock)
    && t.compiled <= t.executed <= t.jitInstructions
    && Limited(t.diagnosticBlocks, t.diagnosticInstructions, c.diagnosticInstructionsPerDispatch)
  }

  lemma LimitedStep(blocks: nat, instructions: nat, limit: nat, count: nat)
    requires Limited(blocks, instructions, limit) && 1 <= count <= limit
    ensures Limited(blocks + 1, instructions + count, limit)
  {
    assert (blocks + 1) * limit == blocks * limit + limit;
  }

  lemma AddConserves(c: RuntimeConfiguration, t: Totals, event: Event)
    requires Conserved(c, t) && Lawful(c, event)
    ensures Conserved(c, Add(t, event))
  {
    match event
    case OnJitExecution(_, _) =>
    case OnFallback(refusal, block, _) =>
      var r, limit := refusal.reason, c.fallback.maximumInstructionsPerBlock;
      LimitedStep(t.blocksByReason[r], t.instructionsByReason[r], limit, block.instructionCount);
      LimitedStep(t.fallbackBlocks, t.fallbackInstructions, limit, block.instructionCount);
    case OnDiagnosticInterpreter(block, _) =>
      LimitedStep(t.diagnosticBlocks, t.diagnosticInstructions,
                  c.diagnosticInstructionsPerDispatch, block.instructionCount);
  }

  /** In every reachable state the per-reason totals add up to the overall ones, every reason keeps
      its blocks and instructions within the per-block limit, and compiled <= executed <= instructions. */
  lemma CountersConserved(c: RuntimeConfiguration, b: Behaviour, runs: seq<u64>)
    ensures Conserved(c, Tally(Session(c, b, runs).events))
  {
    var inv := (w: World) => Conserved(c, Tally(w.events));
    forall w: World | inv(w) ensures inv(Dispatch(c, b, w).0) {
      var event := DispatchGrows(c, b, w);
      if event.Some? {
        TallyAppend(w.events, event.value);
        AddConserves(c, Tally(w.events), event.value);
      }
    }
    SessionKeeps(c, b, runs, inv);
  }

  /** Runs that ended for a reason other than exhausting their dispatches. */
  function EarlyStops(results: seq<RunResult>): nat {
    if results == [] then 0
    else EarlyStops(results[..|results| - 1])
         + if results[|results| - 1].reason == DispatchBudgetExhausted then 0 else 1
  }

  /** A quantity that grows by one exactly when a dispatch stops. */
  lemma {:induction false} ReplayStopsOnce(c: RuntimeConfiguration, b: Behaviour, w: World, n: nat,
                                           quantity: World -> int)
    requires forall v :: quantity(Dispatch(c, b, v).0)
                         == quantity(v) + if Dispatch(c, b, v).1.Some? then 1 else 0
    ensures quantity(Replay(c, b, w, n).0) == quantity(w) + if Replay(c, b, w, n).1.Some? then 1 else 0
    decreases n
  {
    if n > 0 {
      var (next, result) := Dispatch(c, b, w);
      if result.None? {
        ReplayStopsOnce(c, b, next, n - 1, quantity);
      }
    }
  }

  /** Offers to the JIT that did not become an executed or a recorded fallback block. */
  function Lost(w: World): int {
    JitCalls(w.calls) - Tally(w.events).executed - Tally(w.events).fallbackBlocks
  }

  lemma DispatchLoses(c: RuntimeConfiguration, b: Behaviour, w: World)
    requires c.mode == Jit
    ensures Lost(Dispatch(c, b, w).0) == Lost(w) + if Dispatch(c, b, w).1.Some? then 1 else 0
  {
    var event := DispatchGrows(c, b, w);
    LogsCounts(c, w.calls, Dispatch(c, b, w).0.calls);
    if event.Some? {
      TallyAppend(w.events, event.value);
    }
  }

  /** In JIT mode each offer to the JIT ended in an executed block, a recorded fallback block, or the
      end of its run. */
  lemma {:induction false} OffersAccounted(c: RuntimeConfiguration, b: Behaviour, runs: seq<u64>)
    requires c.mode == Jit
    ensures var w := Session(c, b, runs);
            var t := Tally(w.events);
            JitCalls(w.calls) == t.executed + t.fallbackBlocks + EarlyStops(Results(c, b, runs))
    decreases |runs|
  {
    if runs != [] {
      var before, n := runs[..|runs| - 1], runs[|runs| - 1];
      OffersAccounted(c, b, before);
      var w := Session(c, b, before);
      forall v ensures Lost(Dispatch(c, b, v).0) == Lost(v) + if Dispatch(c, b, v).1.Some? then 1 else 0 {
        DispatchLoses(c, b, v);
      }
      ReplayStopsOnce(c, b, w, n, v => Lost(v));
      ReplayStopsForAReason(c, b, w, n);
      var results := Results(c, b, runs);
      assert results[..|results| - 1] == Results(c, b, before);
      var stop := Replay(c, b, w, n).1;
      assert stop.Some? ==> stop.value.reason != DispatchBudgetExhausted;
    }
  }
}
