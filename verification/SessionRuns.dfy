/** Whole sessions: any number of `run` calls, and how runs compose. */
module SessionRuns {
  import opened Words
  import opened ExecutionTypes
  import opened FallbackLedger
  import opened ExecutionSession

  /** The world after the given `run` calls on a fresh session. */
  function Session(c: RuntimeConfiguration, b: Behaviour, runs: seq<u64>): World
    decreases |runs|
  {
    if runs == [] then FRESH
    else RunFrom(c, b, Session(c, b, runs[..|runs| - 1]), runs[|runs| - 1]).0
  }

  /** What those calls returned. */
  function Results(c: RuntimeConfiguration, b: Behaviour, runs: seq<u64>): seq<RunResult>
    decreases |runs|
  {
    if runs == [] then []
    else
      var before := runs[..|runs| - 1];
      Results(c, b, before) + [RunFrom(c, b, Session(c, b, before), runs[|runs| - 1]).1]
  }

  function Sum(runs: seq<u64>): nat
    decreases |runs|
  {
    if runs == [] then 0 else Sum(runs[..|runs| - 1]) + runs[|runs| - 1]
  }

  /** What every dispatch keeps, every replay keeps. */
  lemma {:induction false} ReplayKeeps(c: RuntimeConfiguration, b: Behaviour, w: World, n: nat,
                                       inv: World -> bool)
    requires inv(w)
    requires forall v :: inv(v) ==> inv(Dispatch(c, b, v).0)
    ensures inv(Replay(c, b, w, n).0)
    decreases n
  {
    if n > 0 {
      var (next, result) := Dispatch(c, b, w);
      if result.None? {
        ReplayKeeps(c, b, next, n - 1, inv);
      }
    }
  }

  /** What every dispatch keeps holds in every reachable state of a session. */
  lemma {:induction false} SessionKeeps(c: RuntimeConfiguration, b: Behaviour, runs: seq<u64>,
                                        inv: World -> bool)
    requires inv(FRESH)
    requires forall v :: inv(v) ==> inv(Dispatch(c, b, v).0)
    ensures inv(Session(c, b, runs))
    decreases |runs|
  {
    if runs != [] {
      var before := runs[..|runs| - 1];
      SessionKeeps(c, b, before, inv);
      ReplayKeeps(c, b, Session(c, b, before), runs[|runs| - 1], inv);
    }
  }

  lemma {:induction false} ReplaySplits(c: RuntimeConfiguration, b: Behaviour, w: World, n: nat, m: nat)
    ensures Replay(c, b, w, n + m) ==
            var (middle, result) := Replay(c, b, w, n);
            if result.Some? then (middle, result) else Replay(c, b, middle, m)
    decreases n
  {
    if n > 0 {
      var (next, result) := Dispatch(c, b, w);
      if result.None? {
        ReplaySplits(c, b, next, n - 1, m);
      }
    }
  }

  /** Equal except for the dispatch count named by the exhaustion text. */
  predicate SameUpToExhaustionText(r: RunResult, s: RunResult) {
    r == s || (r.detail.DispatchesExhausted? && s == r.(detail := s.detail) && s.detail.DispatchesExhausted?)
  }

  /** A run that exhausts its dispatches, continued, is one longer run: same counters, same backend
      calls, same events, and the same result up to the exhaustion text. A run that stops early is
      not changed by a larger allowance. */
  lemma RunsCompose(c: RuntimeConfiguration, b: Behaviour, w: World, n: u64, m: u64)
    requires n + m < TWO_64
    ensures var (middle, first) := RunFrom(c, b, w, n);
            var (whole, combined) := RunFrom(c, b, w, n + m);
            if first.reason == DispatchBudgetExhausted then
              var (end, second) := RunFrom(c, b, middle, m);
              whole == end && SameUpToExhaustionText(combined, second)
            else whole == middle && combined == first
  {
    ReplaySplits(c, b, w, n, m);
    ReplayStopsForAReason(c, b, w, n);
    var stop := Replay(c, b, w, n).1;
    assert stop.Some? ==> stop.value.reason != DispatchBudgetExhausted;
    assert stop.Some? ==> Replay(c, b, w, n + m) == Replay(c, b, w, n);
  }

  lemma {:induction false} ReplayStopsForAReason(c: RuntimeConfiguration, b: Behaviour, w: World, n: nat)
    ensures var (_, result) := Replay(c, b, w, n);
            result.Some? ==> result.value.reason != DispatchBudgetExhausted
    decreases n
  {
    if n > 0 {
      var (next, result) := Dispatch(c, b, w);
      if result.None? {
        ReplayStopsForAReason(c, b, next, n - 1);
      }
    }
  }

  /** A dispatch that stops emits no event and leaves every counter but jit_dispatches alone; one
      that goes on emits exactly one event, carrying the counters the dispatch ends with. */
  lemma StopOrOneEvent(c: RuntimeConfiguration, b: Behaviour, w: World)
    ensures var (next, result) := Dispatch(c, b, w);
            && (result.Some? ==>
                  && next.events == w.events
                  && next.statistics == w.statistics.(jitDispatches := next.statistics.jitDispatches)
                  && result.value.statistics == next.statistics)
            && (result.None? ==>
                  && |next.events| == |w.events| + 1
                  && next.events[..|w.events|] == w.events
                  && next.events[|w.events|].snapshot == next.statistics)
  {}

  /** The call whose answer an event reports. */
  predicate Reports(event: Event, call: Call) {
    match event
    case OnJitExecution(execution, _) => call == JitCall(Executed(execution))
    case OnFallback(refusal, block, _) => call.FallbackCall? && call.refusal == refusal && call.answer == block
    case OnDiagnosticInterpreter(block, _) => call.DiagnosticCall? && call.answer == block
  }

  /** The calls of a dispatch are the backend's own answers, in the mode's order, and its event reports
      the last of them unchanged. */
  lemma EventReportsCall(c: RuntimeConfiguration, b: Behaviour, w: World)
    ensures var (next, result) := Dispatch(c, b, w);
            var (n, last) := (|w.calls|, |next.calls| - 1);
            && n <= last <= n + 1 && next.calls[..n] == w.calls
            && next.calls[n] == (if c.mode == Jit then JitCall(b.jit(w.calls))
                                 else DiagnosticCall(c.diagnosticInstructionsPerDispatch,
                                                     b.diagnostic(w.calls, c.diagnosticInstructionsPerDispatch)))
            && (last > n ==>
                  && next.calls[last].FallbackCall?
                  && next.calls[last].answer
                     == b.refused(next.calls[..last], next.calls[last].refusal, next.calls[last].limit))
            && (result.None? ==> |next.events| > 0 && Reports(next.events[|next.events| - 1], next.calls[last]))
  {
    if c.mode == Jit {
      var step := b.jit(w.calls);
      var offered := World(w.statistics.(jitDispatches := Plus(w.statistics.jitDispatches, 1)),
                           w.calls + [JitCall(step)], w.events);
      if step.Refused? && Ledger(c.fallback).CanEnter(step.refusal, offered.statistics).None? {
        var (next, result) := EnterFallback(Ledger(c.fallback), b, offered, step.refusal);
        assert Dispatch(c, b, w) == (next, result);
        assert next.calls[..|w.calls| + 1] == offered.calls;
      }
    }
  }

  /** Why the ledger would not let a refusal in: the first of its reasons that applies. */
  predicate ExplainsEntry(budget: FallbackBudget, refusal: JitRefusal, r: RunResult) {
    var (blocks, used) := (r.statistics.fallbackBlocks, r.statistics.fallbackInstructions);
    && r.detail.LedgerText?
    && match r.detail.error
       case InvalidReason => refusal.reason >= 4
       case BlockBudgetExhausted => refusal.reason < 4 && blocks >= budget.maximumBlocks
       case InstructionBudgetExhausted =>
         refusal.reason < 4 && blocks < budget.maximumBlocks && used >= budget.maximumTotalInstructions
       case _ => false
  }

  /** Why it would not record an answer: for another PC, for no progress, or for more than the block limit
      or, within that, than what remained. */
  predicate ExplainsRecord(budget: FallbackBudget, refusal: JitRefusal, limit: u32, answer: InterpretedBlock,
                           r: RunResult)
  {
    var count := answer.instructionCount;
    && r.detail.LedgerText?
    && match r.detail.error
       case PcMismatch => answer.guestPc != refusal.guestPc
       case NoInstructions => answer.guestPc == refusal.guestPc && count == 0
       case PerBlockLimitExceeded =>
         answer.guestPc == refusal.guestPc && limit < count && budget.maximumInstructionsPerBlock < count
       case TotalLimitExceeded =>
         && answer.guestPc == refusal.guestPc && limit < count <= budget.maximumInstructionsPerBlock
         && r.statistics.fallbackInstructions + limit == budget.maximumTotalInstructions
       case _ => false
  }

  /** Why a run stopped, judged from its last backend call alone: the call breaks a rule of the session,
      reports an end itself, or asks for a fallback when the budget is spent; and the result names the
      place that call was about. */
  predicate Explains(c: RuntimeConfiguration, last: Call, r: RunResult) {
    match last
    case JitCall(Exited(text)) =>
      r.reason == BackendExit && r.guestPc == 0 && r.detail == BackendText(text)
    case JitCall(Faulted(guestPc, text)) =>
      r.reason == BackendFault && r.guestPc == guestPc && r.detail == BackendText(text)
    case JitCall(Executed(execution)) =>
      && r.reason == InvalidBackendResult && r.guestPc == execution.guestPc && r.detail == ZeroInstructionBlock
      && execution.instructionCount == 0
    case JitCall(Refused(refusal)) =>
      && r.reason == FallbackBudgetExceeded && r.guestPc == refusal.guestPc
      && ExplainsEntry(c.fallback, refusal, r)
    case FallbackCall(refusal, limit, answer) =>
      && r.reason == FallbackBudgetExceeded && r.guestPc == refusal.guestPc
      && ExplainsRecord(c.fallback, refusal, limit, answer, r)
    case DiagnosticCall(limit, answer) =>
      && r.reason == InvalidBackendResult && r.guestPc == answer.guestPc && r.detail == InvalidDiagnosticCount
      && (answer.instructionCount == 0 || answer.instructionCount > limit)
  }

  lemma DispatchExplained(c: RuntimeConfiguration, b: Behaviour, w: World)
    ensures var (next, result) := Dispatch(c, b, w);
            && |next.calls| > |w.calls|
            && (result.Some? ==> Explains(c, next.calls[|next.calls| - 1], result.value))
  {}

  /** Every run that stops for a reason other than its allowance is explained by its last backend call;
      in particular an answer within the limit it was given never stops a run. */
  lemma {:induction false} StopIsExplained(c: RuntimeConfiguration, b: Behaviour, w: World, n: nat)
    ensures var (next, result) := Replay(c, b, w, n);
            result.Some? ==>
              && next.calls != [] && Explains(c, next.calls[|next.calls| - 1], result.value)
              && result.value.statistics == next.statistics
    decreases n
  {
    if n > 0 {
      DispatchExplained(c, b, w);
      StopOrOneEvent(c, b, w);
      hide Dispatch, Explains;
      var (next, result) := Dispatch(c, b, w);
      if result.None? {
        StopIsExplained(c, b, next, n - 1);
      }
    }
  }
}
