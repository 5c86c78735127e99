/** Laws of the machine counters themselves, as a caller reads them. */
module Conservation {
  import opened Words
  import opened ExecutionTypes
  import opened FallbackLedger
  import opened ExecutionSession
  import opened SessionRuns
  import opened Counters
  import opened BudgetSafety

  // Laws that hold while no counter has wrapped.

  /** The per-reason arrays add up to their totals, and each reason and the whole respect the limit. */
  predicate FallbackConserved(c: RuntimeConfiguration, s: Statistics) {
    var limit := c.fallback.maximumInstructionsPerBlock;
    && Total(s.fallbackBlocksByReason) == s.fallbackBlocks
    && Total(s.fallbackInstructionsByReason) == s.fallbackInstructions
    && (forall r :: 0 <= r < REASON_COUNT ==>
          Limited(s.fallbackBlocksByReason[r], s.fallbackInstructionsByReason[r], limit))
    && Limited(s.fallbackBlocks, s.fallbackInstructions, limit)
  }

  /** While the counters are exact: the fallback laws, compiled <= executed <= JIT instructions, the
      diagnostic limit, and every JIT dispatch is an executed block, a fallback block, or the end of a
      run that stopped. */
  lemma StatisticsConserved(c: RuntimeConfiguration, b: Behaviour, runs: seq<u64>)
    requires ExactWorld(Session(c, b, runs))
    ensures var s := Session(c, b, runs).statistics;
            && FallbackConserved(c, s)
            && s.jitBlocksCompiled <= s.jitBlocksExecuted <= s.jitInstructionsExecuted
            && Limited(s.diagnosticBlocks, s.diagnosticInstructions, c.diagnosticInstructionsPerDispatch)
            && (c.mode == Jit ==>
                  s.jitDispatches
                  == s.jitBlocksExecuted + s.fallbackBlocks + EarlyStops(Results(c, b, runs)))
  {
    CountersConserved(c, b, runs);
    if c.mode == Jit {
      OffersAccounted(c, b, runs);
    }
  }

  /** That is so within the largest exact allowance of either mode. */
  lemma StatisticsConservedWithin(c: RuntimeConfiguration, b: Behaviour, runs: seq<u64>)
    requires Allowed(c, Sum(runs))
    ensures var s := Session(c, b, runs).statistics;
            && FallbackConserved(c, s)
            && s.jitBlocksCompiled <= s.jitBlocksExecuted <= s.jitInstructionsExecuted
            && Limited(s.diagnosticBlocks, s.diagnosticInstructions, c.diagnosticInstructionsPerDispatch)
            && (c.mode == Jit ==>
                  s.jitDispatches
                  == s.jitBlocksExecuted + s.fallbackBlocks + EarlyStops(Results(c, b, runs)))
  {
    hide Session, ExactWorld, Allowed, FallbackConserved;
    NoCounterWrapsIff(c, Sum(runs));
    StatisticsConserved(c, b, runs);
  }

  // Laws that need no bound on the dispatches, or less of one.

  lemma ReasonsAreExact(counters: PerReason, counts: Naturals)
    requires WrapsAll(counters, counts) && Total(counts) < TWO_64
    ensures counters == counts
  {}

  /** With a budget whose sum cannot wrap, or a backend that honours its limits, the fallback laws hold
      in every reachable state, however many dispatches there were. */
  lemma FallbackCountersConserved(c: RuntimeConfiguration, b: Behaviour, runs: seq<u64>)
    requires !CanWrap(c.fallback) || Honours(b)
    ensures FallbackConserved(c, Session(c, b, runs).statistics)
  {
    BudgetKept(c, b, runs);
    EventsReplayCounters(c, b, runs);
    CountersConserved(c, b, runs);
    hide Session, UsageOf, CallLanguage, Tally, WrapsAll;
    var (s, t) := (Session(c, b, runs).statistics, Tally(Session(c, b, runs).events));
    ReasonsAreExact(s.fallbackBlocksByReason, t.blocksByReason);
    ReasonsAreExact(s.fallbackInstructionsByReason, t.instructionsByReason);
  }

  lemma WrapOfSum(a: nat, b: nat)
    ensures Wrap(Wrap(a) + b) == Wrap(a + b)
  {
    WrapIsRemainder(a);
    WrapIsRemainder(Wrap(a) + b);
    WrapIsRemainder(a + b);
  }

  lemma WrapOfTotal(counters: PerReason, counts: Naturals)
    requires WrapsAll(counters, counts)
    ensures Wrap(Total(counters)) == Wrap(Total(counts))
  {
    hide Wrap;
    var (a, b, c, d) := (counts[0], counts[1], counts[2], counts[3]);
    WrapOfSum(a, Wrap(b) + Wrap(c) + Wrap(d));
    WrapOfSum(b, a + Wrap(c) + Wrap(d));
    WrapOfSum(c, a + b + Wrap(d));
    WrapOfSum(d, a + b + c);
  }

  /** Whatever the budget and the backend, the arrays add up to their totals modulo 2^64. */
  lemma ReasonsSumModulo(c: RuntimeConfiguration, b: Behaviour, runs: seq<u64>)
    ensures var s := Session(c, b, runs).statistics;
            && Wrap(Total(s.fallbackBlocksByReason)) == s.fallbackBlocks
            && Wrap(Total(s.fallbackInstructionsByReason)) == s.fallbackInstructions
  {
    EventsReplayCounters(c, b, runs);
    CountersConserved(c, b, runs);
    hide Session, Tally, Wrap, WrapsAll;
    var (s, t) := (Session(c, b, runs).statistics, Tally(Session(c, b, runs).events));
    WrapOfTotal(s.fallbackBlocksByReason, t.blocksByReason);
    WrapOfTotal(s.fallbackInstructionsByReason, t.instructionsByReason);
  }

  /** In JIT mode the dispatch counter is executed + fallback blocks + early stops: modulo 2^64 always. */
  lemma DispatchesModulo(c: RuntimeConfiguration, b: Behaviour, runs: seq<u64>)
    requires c.mode == Jit
    ensures var s := Session(c, b, runs).statistics;
            s.jitDispatches == Wrap(s.jitBlocksExecuted + s.fallbackBlocks + EarlyStops(Results(c, b, runs)))
  {
    hide *;
    EventsReplayCounters(c, b, runs);
    OffersAccounted(c, b, runs);
    DispatchCounter(Session(c, b, runs), EarlyStops(Results(c, b, runs)));
  }

  lemma DispatchCounter(w: World, stops: nat)
    requires Replays(w)
    requires JitCalls(w.calls) == Tally(w.events).executed + Tally(w.events).fallbackBlocks + stops
    ensures w.statistics.jitDispatches == Wrap(w.statistics.jitBlocksExecuted + w.statistics.fallbackBlocks + stops)
  {
    hide Tally, JitCalls, SnapshotsReplay, WrapsAll, Wrap;
    WrapOfTwo(Tally(w.events).executed, Tally(w.events).fallbackBlocks, stops);
  }

  lemma WrapOfTwo(a: nat, b: nat, c: nat)
    ensures Wrap(Wrap(a) + Wrap(b) + c) == Wrap(a + b + c)
  {
    hide Wrap;
    WrapOfSum(a, Wrap(b) + c);
    WrapOfSum(b, a + c);
  }

  /** Every event is one block of one kind. */
  lemma {:induction false} BlocksAreEvents(events: seq<Event>)
    ensures var t := Tally(events);
            t.executed + t.fallbackBlocks + t.diagnosticBlocks == |events| && t.compiled <= t.executed
  {
    if events != [] {
      BlocksAreEvents(events[..|events| - 1]);
    }
  }

  /** Below 2^64 dispatches it is so exactly, and compiled <= executed, whatever the instruction counters
      have done. */
  lemma DispatchesConserved(c: RuntimeConfiguration, b: Behaviour, runs: seq<u64>)
    requires Sum(runs) < TWO_64
    ensures var s := Session(c, b, runs).statistics;
            && s.jitBlocksCompiled <= s.jitBlocksExecuted
            && (c.mode == Jit ==>
                  s.jitDispatches
                  == s.jitBlocksExecuted + s.fallbackBlocks + EarlyStops(Results(c, b, runs)))
  {
    EventsReplayCounters(c, b, runs);
    SessionLength(c, b, runs);
    BlocksAreEvents(Session(c, b, runs).events);
    if c.mode == Jit {
      OffersAccounted(c, b, runs);
    }
  }

  // Snapshots.

  /** No counter is smaller. */
  predicate AtMost(s: Statistics, t: Statistics) {
    && s.jitDispatches <= t.jitDispatches
    && s.jitBlocksCompiled <= t.jitBlocksCompiled
    && s.jitBlocksExecuted <= t.jitBlocksExecuted
    && s.jitInstructionsExecuted <= t.jitInstructionsExecuted
    && s.fallbackBlocks <= t.fallbackBlocks
    && s.fallbackInstructions <= t.fallbackInstructions
    && (forall r :: 0 <= r < REASON_COUNT ==>
          && s.fallbackBlocksByReason[r] <= t.fallbackBlocksByReason[r]
          && s.fallbackInstructionsByReason[r] <= t.fallbackInstructionsByReason[r])
    && s.diagnosticBlocks <= t.diagnosticBlocks
    && s.diagnosticInstructions <= t.diagnosticInstructions
  }

  lemma AddRaises(s: Statistics, t: Statistics, total: Totals, event: Event)
    requires Exact(s, total) && Exact(t, Add(total, event)) && s.jitDispatches <= t.jitDispatches
    ensures AtMost(s, t)
  {}

  /** No snapshot exceeds a later one, nor the counters as they are now. */
  predicate Rising(w: World) {
    && (forall i :: 0 <= i < |w.events| ==> AtMost(w.events[i].snapshot, w.statistics))
    && (forall i, j :: 0 <= i < j < |w.events| ==> AtMost(w.events[i].snapshot, w.events[j].snapshot))
  }

  lemma GrowthRises(c: RuntimeConfiguration, w: World, next: World, event: Option<Event>)
    requires Grows(c, w, next, event) && Rising(w) && ExactWorld(w) && ExactWorld(next)
    requires JitCalls(w.calls) <= JitCalls(next.calls)
    ensures Rising(next)
  {
    hide Tally, Logs, Lawful, Apply;
    if event.Some? {
      TallyAppend(w.events, event.value);
      AddRaises(w.statistics, next.statistics, Tally(w.events), event.value);
      hide Exact, Add, JitCalls;
    }
  }

  lemma SmallerTotalsExact(s: Statistics, t: Totals, next: Statistics, event: Event)
    requires Wraps(s, t) && Exact(next, Add(t, event))
    ensures Exact(s, t)
  {
    assert Bounded(Add(t, event), TWO_64 - 1);
    BoundedBefore(t, event, TWO_64 - 1);
    hide Add;
    WrapsIsExact(s, t);
  }

  lemma BoundedBefore(t: Totals, event: Event, bound: nat)
    requires Bounded(Add(t, event), bound)
    ensures Bounded(t, bound)
  {
    var next := Add(t, event);
    forall r | 0 <= r < REASON_COUNT
      ensures t.blocksByReason[r] <= next.blocksByReason[r] <= bound
      ensures t.instructionsByReason[r] <= next.instructionsByReason[r] <= bound
    {}
  }

  /** Counters that are exact now have always been. */
  lemma ExactBefore(c: RuntimeConfiguration, w: World, next: World, event: Option<Event>)
    requires Replays(w) && Grows(c, w, next, event) && ExactWorld(next)
    requires JitCalls(w.calls) <= JitCalls(next.calls)
    ensures ExactWorld(w)
  {
    hide Tally, Logs, Lawful, Apply, SnapshotsReplay, Exact, Wraps, Add;
    if event.Some? {
      TallyAppend(w.events, event.value);
      SmallerTotalsExact(w.statistics, Tally(w.events), next.statistics, event.value);
    } else {
      ExactDispatches(w.statistics, next.statistics, Tally(w.events));
    }
  }

  lemma ExactDispatches(s: Statistics, next: Statistics, t: Totals)
    requires next == s.(jitDispatches := next.jitDispatches) && Exact(next, t)
    ensures Exact(s, t)
  {}

  lemma DispatchRises(c: RuntimeConfiguration, b: Behaviour, w: World)
    requires Replays(w) && (ExactWorld(w) ==> Rising(w))
    ensures var next := Dispatch(c, b, w).0; Replays(next) && (ExactWorld(next) ==> Rising(next))
  {
    hide Dispatch, Tally, Replays, JitCalls, Rising, ExactWorld;
    var next := Dispatch(c, b, w).0;
    DispatchReplays(c, b, w);
    var event := DispatchGrows(c, b, w);
    LogsCounts(c, w.calls, next.calls);
    if ExactWorld(next) {
      ExactBefore(c, w, next, event);
      GrowthRises(c, w, next, event);
    }
  }

  /** While the counters are exact, the snapshots of the event log never decrease in any counter, and
      none is above the counters of the session. */
  lemma SnapshotsRise(c: RuntimeConfiguration, b: Behaviour, runs: seq<u64>)
    requires ExactWorld(Session(c, b, runs))
    ensures Rising(Session(c, b, runs))
  {
    hide Dispatch, Replay, Replays, ExactWorld, Rising, Session;
    var inv := (w: World) => Replays(w) && (ExactWorld(w) ==> Rising(w));
    EveryDispatchReplays(c, b);
    FreshRises();
    forall w | inv(w) ensures inv(Dispatch(c, b, w).0) {
      DispatchRises(c, b, w);
    }
    SessionKeeps(c, b, runs, inv);
  }

  lemma FreshRises()
    ensures Rising(FRESH)
  {}

  /** That is so within the largest exact allowance of either mode. */
  lemma SnapshotsRiseWithin(c: RuntimeConfiguration, b: Behaviour, runs: seq<u64>)
    requires Allowed(c, Sum(runs))
    ensures Rising(Session(c, b, runs))
  {
    hide Session, ExactWorld, Allowed, Rising;
    NoCounterWrapsIff(c, Sum(runs));
    SnapshotsRise(c, b, runs);
  }
}
