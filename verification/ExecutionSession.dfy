/** The dispatch loop (src/execution_session.cpp), its backend and its diagnostics sink. */
module ExecutionSession {
  import opened Words
  import opened ExecutionTypes
  import opened FallbackLedger

  /** One call on the backend, with its answer. */
  datatype Call =
    | JitCall(step: JitStep)
    | FallbackCall(refusal: JitRefusal, limit: u32, answer: InterpretedBlock)
    | DiagnosticCall(limit: u32, answer: InterpretedBlock)

  /** An arbitrary backend: each answer may depend on everything it was ever asked. */
  datatype Behaviour = Behaviour(
    jit: seq<Call> -> JitStep,
    refused: (seq<Call>, JitRefusal, u32) -> InterpretedBlock,
    diagnostic: (seq<Call>, u32) -> InterpretedBlock)

  /** A diagnostics event with the counters it was delivered with. */
  datatype Event =
    | OnJitExecution(execution: JitExecution, snapshot: Statistics)
    | OnFallback(refusal: JitRefusal, fallback: InterpretedBlock, snapshot: Statistics)
    | OnDiagnosticInterpreter(block: InterpretedBlock, snapshot: Statistics)

  /** Everything a dispatch can change: the counters, the calls made, the events emitted. */
  datatype World = World(statistics: Statistics, calls: seq<Call>, events: seq<Event>)

  const FRESH: World := World(ZERO_STATISTICS, [], [])

  class Backend {
    const behaviour: Behaviour
    var calls: seq<Call>

    constructor (behaviour: Behaviour)
      ensures this.behaviour == behaviour && calls == []
    {
      this.behaviour := behaviour;
      calls := [];
    }

    method ExecuteJitBlock() returns (step: JitStep)
      modifies this
      ensures step == behaviour.jit(old(calls))
      ensures calls == old(calls) + [JitCall(step)]
    {
      step := behaviour.jit(calls);
      calls := calls + [JitCall(step)];
    }

    method ExecuteRefusedBlock(refusal: JitRefusal, maximumInstructionCount: u32)
      returns (block: InterpretedBlock)
      modifies this
      ensures block == behaviour.refused(old(calls), refusal, maximumInstructionCount)
      ensures calls == old(calls) + [FallbackCall(refusal, maximumInstructionCount, block)]
    {
      block := behaviour.refused(calls, refusal, maximumInstructionCount);
      calls := calls + [FallbackCall(refusal, maximumInstructionCount, block)];
    }

    method ExecuteDiagnosticInterpreterBlock(maximumInstructionCount: u32)
      returns (block: InterpretedBlock)
      modifies this
      ensures block == behaviour.diagnostic(old(calls), maximumInstructionCount)
      ensures calls == old(calls) + [DiagnosticCall(maximumInstructionCount, block)]
    {
      block := behaviour.diagnostic(calls, maximumInstructionCount);
      calls := calls + [DiagnosticCall(maximumInstructionCount, block)];
    }
  }

  class DiagnosticsSink {
    var events: seq<Event>

    constructor ()
      ensures events == []
    {
      events := [];
    }

    method Emit(event: Event)
      modifies this
      ensures events == old(events) + [event]
    {
      events := events + [event];
    }
  }

  datatype ConfigurationError = PartialFallbackLimits | ZeroDiagnosticLimit

  /** The order of the constructor's checks: the ledger member is built before the body runs. */
  function CheckConfiguration(configuration: RuntimeConfiguration): Result<Ledger, ConfigurationError> {
    var ledger := Ledger.Make(configuration.fallback);
    if ledger.None? then Err(PartialFallbackLimits)
    else if configuration.diagnosticInstructionsPerDispatch == 0 then Err(ZeroDiagnosticLimit)
    else Ok(ledger.value)
  }

  function Stopped(reason: RunStopReason, guestPc: u32, detail: Detail, statistics: Statistics): RunResult {
    RunResult(reason, guestPc, detail, statistics)
  }

  function JitExecuted(statistics: Statistics, execution: JitExecution): Statistics {
    statistics.(
      jitBlocksExecuted := Plus(statistics.jitBlocksExecuted, 1),
      jitInstructionsExecuted := Plus(statistics.jitInstructionsExecuted, execution.instructionCount),
      jitBlocksCompiled :=
        if execution.compiled then Plus(statistics.jitBlocksCompiled, 1)
        else statistics.jitBlocksCompiled)
  }

  /** A valid refusal that the budget lets in: one bounded interpreter call, then the ledger. */
  function EnterFallback(ledger: Ledger, b: Behaviour, w: World, refusal: JitRefusal)
    : (World, Option<RunResult>)
    requires refusal.reason < REASON_COUNT
  {
    var limit := ledger.InstructionLimit(w.statistics);
    var block := b.refused(w.calls, refusal, limit);
    var called := w.(calls := w.calls + [FallbackCall(refusal, limit, block)]);
    match ledger.RecordError(refusal, block, w.statistics)
    case Some(error) =>
      (called, Some(Stopped(FallbackBudgetExceeded, refusal.guestPc, LedgerText(error), w.statistics)))
    case None =>
      var after := Recorded(w.statistics, refusal, block);
      (called.(statistics := after, events := w.events + [OnFallback(refusal, block, after)]), None)
  }

  function JitDispatch(ledger: Ledger, b: Behaviour, w: World): (World, Option<RunResult>) {
    var step := b.jit(w.calls);
    var counted := w.statistics.(jitDispatches := Plus(w.statistics.jitDispatches, 1));
    var offered := World(counted, w.calls + [JitCall(step)], w.events);
    match step
    case Executed(execution) =>
      if execution.instructionCount == 0 then
        (offered, Some(Stopped(InvalidBackendResult, execution.guestPc, ZeroInstructionBlock, counted)))
      else
        var after := JitExecuted(counted, execution);
        (offered.(statistics := after, events := w.events + [OnJitExecution(execution, after)]), None)
    case Refused(refusal) =>
      (match ledger.CanEnter(refusal, counted)
       case Some(error) =>
         (offered, Some(Stopped(FallbackBudgetExceeded, refusal.guestPc, LedgerText(error), counted)))
       case None => EnterFallback(ledger, b, offered, refusal))
    case Exited(text) =>
      (offered, Some(Stopped(BackendExit, 0, BackendText(text), counted)))
    case Faulted(guestPc, text) =>
      (offered, Some(Stopped(BackendFault, guestPc, BackendText(text), counted)))
  }

  function DiagnosticExecuted(statistics: Statistics, block: InterpretedBlock): Statistics {
    statistics.(
      diagnosticBlocks := Plus(statistics.diagnosticBlocks, 1),
      diagnosticInstructions := Plus(statistics.diagnosticInstructions, block.instructionCount))
  }

  function DiagnosticDispatch(limit: u32, b: Behaviour, w: World): (World, Option<RunResult>) {
    var block := b.diagnostic(w.calls, limit);
    var called := w.(calls := w.calls + [DiagnosticCall(limit, block)]);
    if block.instructionCount == 0 || block.instructionCount > limit then
      (called, Some(Stopped(InvalidBackendResult, block.guestPc, InvalidDiagnosticCount, w.statistics)))
    else
      var after := DiagnosticExecuted(w.statistics, block);
      (called.(statistics := after, events := w.events + [OnDiagnosticInterpreter(block, after)]), None)
  }

  function Dispatch(c: RuntimeConfiguration, b: Behaviour, w: World): (World, Option<RunResult>) {
    if c.mode == Jit then JitDispatch(Ledger(c.fallback), b, w)
    else DiagnosticDispatch(c.diagnosticInstructionsPerDispatch, b, w)
  }

  /** Up to n dispatches, ending early at the first one that stops. */
  function Replay(c: RuntimeConfiguration, b: Behaviour, w: World, n: nat): (World, Option<RunResult>)
    decreases n
  {
    if n == 0 then (w, None)
    else
      var (next, result) := Dispatch(c, b, w);
      if result.Some? then (next, result) else Replay(c, b, next, n - 1)
  }

  function RunFrom(c: RuntimeConfiguration, b: Behaviour, w: World, n: u64): (World, RunResult) {
    var (next, result) := Replay(c, b, w, n);
    match result
    case Some(r) => (next, r)
    case None =>
      (next, Stopped(DispatchBudgetExhausted, 0, DispatchesExhausted(n), next.statistics))
  }

  class ExecutionSession {
    const configuration: RuntimeConfiguration
    const backend: Backend
    const diagnostics: DiagnosticsSink
    const ledger: Ledger
    const statistics: StatisticsRecord

    ghost predicate Valid() {
      && statistics.Valid()
      && ledger == Ledger(configuration.fallback)
      && WellFormed(configuration.fallback)
      && configuration.diagnosticInstructionsPerDispatch != 0
    }

    ghost function Frame(): set<object> {
      {statistics, statistics.fallbackBlocksByReason, statistics.fallbackInstructionsByReason,
       backend, diagnostics}
    }

    function Now(): World
      requires Valid()
      reads Frame()
    {
      World(statistics.Value(), backend.calls, diagnostics.events)
    }

    constructor (configuration: RuntimeConfiguration, backend: Backend, diagnostics: DiagnosticsSink)
      requires CheckConfiguration(configuration).Ok?
      ensures Valid()
      ensures this.configuration == configuration
      ensures this.backend == backend && this.diagnostics == diagnostics
      ensures Now() == World(ZERO_STATISTICS, backend.calls, diagnostics.events)
      ensures fresh(Frame() - {backend, diagnostics})
    {
      this.configuration := configuration;
      this.backend := backend;
      this.diagnostics := diagnostics;
      ledger := Ledger(configuration.fallback);
      statistics := new StatisticsRecord();
    }

    /** Construction as callers see it: a rejected configuration yields no session. */
    static method Create(configuration: RuntimeConfiguration, backend: Backend,
                         diagnostics: DiagnosticsSink)
      returns (r: Result<ExecutionSession, ConfigurationError>)
      ensures r.Err? <==> (!WellFormed(configuration.fallback)
                           || configuration.diagnosticInstructionsPerDispatch == 0)
      ensures r.Err? ==> r.error == if WellFormed(configuration.fallback) then ZeroDiagnosticLimit
                                    else PartialFallbackLimits
      ensures r.Ok? ==>
                && fresh(r.value) && r.value.Valid()
                && fresh(r.value.Frame() - {backend, diagnostics})
                && r.value.configuration == configuration
                && r.value.backend == backend && r.value.diagnostics == diagnostics
                && r.value.Now() == World(ZERO_STATISTICS, backend.calls, diagnostics.events)
    {
      match CheckConfiguration(configuration)
      case Err(error) =>
        r := Err(error);
      case Ok(_) =>
        var session := new ExecutionSession(configuration, backend, diagnostics);
        r := Ok(session);
    }

    method RunJitDispatch() returns (result: Option<RunResult>)
      requires Valid()
      modifies Frame()
      ensures Valid()
      ensures (Now(), result) == JitDispatch(ledger, backend.behaviour, old(Now()))
    {
      statistics.jitDispatches := Plus(statistics.jitDispatches, 1);
      var step := backend.ExecuteJitBlock();
      match step
      case Executed(execution) =>
        if execution.instructionCount == 0 {
          return Some(Stopped(InvalidBackendResult, execution.guestPc, ZeroInstructionBlock,
                              statistics.Value()));
        }
        statistics.jitBlocksExecuted := Plus(statistics.jitBlocksExecuted, 1);
        statistics.jitInstructionsExecuted :=
          Plus(statistics.jitInstructionsExecuted, execution.instructionCount);
        if execution.compiled {
          statistics.jitBlocksCompiled := Plus(statistics.jitBlocksCompiled, 1);
        }
        diagnostics.Emit(OnJitExecution(execution, statistics.Value()));
        return None;
      case Refused(refusal) =>
        var refused := ledger.CanEnter(refusal, statistics.Value());
        if refused.Some? {
          return Some(Stopped(FallbackBudgetExceeded, refusal.guestPc, LedgerText(refused.value),
                              statistics.Value()));
        }
        var execution :=
          backend.ExecuteRefusedBlock(refusal, ledger.InstructionLimit(statistics.Value()));
        var error := ledger.Record(refusal, execution, statistics);
        if error.Some? {
          return Some(Stopped(FallbackBudgetExceeded, refusal.guestPc, LedgerText(error.value),
                              statistics.Value()));
        }
        diagnostics.Emit(OnFallback(refusal, execution, statistics.Value()));
        return None;
      case Exited(text) =>
        return Some(Stopped(BackendExit, 0, BackendText(text), statistics.Value()));
      case Faulted(guestPc, text) =>
        return Some(Stopped(BackendFault, guestPc, BackendText(text), statistics.Value()));
    }

    method RunDiagnosticDispatch() returns (result: Option<RunResult>)
      requires Valid()
      modifies Frame()
      ensures Valid()
      ensures (Now(), result) == DiagnosticDispatch(configuration.diagnosticInstructionsPerDispatch,
                                                    backend.behaviour, old(Now()))
    {
      var limit := configuration.diagnosticInstructionsPerDispatch;
      var execution := backend.ExecuteDiagnosticInterpreterBlock(limit);
      if execution.instructionCount == 0 || execution.instructionCount > limit {
        return Some(Stopped(InvalidBackendResult, execution.guestPc, InvalidDiagnosticCount,
                            statistics.Value()));
      }
      statistics.diagnosticBlocks := Plus(statistics.diagnosticBlocks, 1);
      statistics.diagnosticInstructions :=
        Plus(statistics.diagnosticInstructions, execution.instructionCount);
      diagnostics.Emit(OnDiagnosticInterpreter(execution, statistics.Value()));
      return None;
    }

    method Run(maximumDispatches: u64) returns (result: RunResult)
      requires Valid()
      modifies Frame()
      ensures Valid()
      ensures (Now(), result) ==
              RunFrom(configuration, backend.behaviour, old(Now()), maximumDispatches)
    {
      hide JitDispatch, DiagnosticDispatch, Plus;
      var dispatch: u64 := 0;
      while dispatch < maximumDispatches
        invariant Valid() && dispatch <= maximumDispatches
        invariant Replay(configuration, backend.behaviour, old(Now()), maximumDispatches)
                  == Replay(configuration, backend.behaviour, Now(), maximumDispatches - dispatch)
      {
        var stop: Option<RunResult>;
        if configuration.mode == Jit {
          stop := RunJitDispatch();
        } else {
          stop := RunDiagnosticDispatch();
        }
        if stop.Some? {
          return stop.value;
        }
        dispatch := dispatch + 1;
      }
      return Stopped(DispatchBudgetExhausted, 0, DispatchesExhausted(maximumDispatches),
                     statistics.Value());
    }
  }
}
