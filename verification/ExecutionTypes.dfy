/** The vocabulary of the execution policy (include/gcnport/execution_types.h). */
module ExecutionTypes {
  import opened Words

  datatype ExecutionMode = Jit | DiagnosticInterpreter

  /** Refusal reasons are raw bytes: a backend may report one outside the enumeration. */
  const REASON_COUNT: nat := 4

  datatype FallbackBudget = FallbackBudget(
    maximumBlocks: u64,
    maximumTotalInstructions: u64,
    maximumInstructionsPerBlock: u32)

  datatype RuntimeConfiguration = RuntimeConfiguration(
    mode: ExecutionMode,
    fallback: FallbackBudget,
    diagnosticInstructionsPerDispatch: u32)

  datatype JitExecution = JitExecution(guestPc: u32, instructionCount: u32, compiled: bool)

  datatype JitRefusal = JitRefusal(guestPc: u32, reason: u8)

  datatype JitStep =
    | Executed(execution: JitExecution)
    | Refused(refusal: JitRefusal)
    | Exited(exitDetail: string)
    | Faulted(guestPc: u32, faultDetail: string)

  datatype InterpretedBlock = InterpretedBlock(guestPc: u32, instructionCount: u32)

  type PerReason = s: seq<u64> | |s| == REASON_COUNT witness [0, 0, 0, 0]

  /** A copy of the counters, as carried by results and by diagnostics events. */
  datatype Statistics = Statistics(
    jitDispatches: u64,
    jitBlocksCompiled: u64,
    jitBlocksExecuted: u64,
    jitInstructionsExecuted: u64,
    fallbackBlocks: u64,
    fallbackInstructions: u64,
    fallbackBlocksByReason: PerReason,
    fallbackInstructionsByReason: PerReason,
    diagnosticBlocks: u64,
    diagnosticInstructions: u64)

  const ZERO_STATISTICS: Statistics :=
    Statistics(0, 0, 0, 0, 0, 0, [0, 0, 0, 0], [0, 0, 0, 0], 0, 0)

  /** The counters a session owns and updates in place. */
  class StatisticsRecord {
    var jitDispatches: u64
    var jitBlocksCompiled: u64
    var jitBlocksExecuted: u64
    var jitInstructionsExecuted: u64
    var fallbackBlocks: u64
    var fallbackInstructions: u64
    const fallbackBlocksByReason: array<u64>
    const fallbackInstructionsByReason: array<u64>
    var diagnosticBlocks: u64
    var diagnosticInstructions: u64

    ghost predicate Valid() {
      && fallbackBlocksByReason.Length == REASON_COUNT
      && fallbackInstructionsByReason.Length == REASON_COUNT
      && fallbackBlocksByReason != fallbackInstructionsByReason
    }

    function Value(): Statistics
      requires Valid()
      reads this, fallbackBlocksByReason, fallbackInstructionsByReason
    {
      Statistics(jitDispatches, jitBlocksCompiled, jitBlocksExecuted, jitInstructionsExecuted,
                 fallbackBlocks, fallbackInstructions,
                 fallbackBlocksByReason[..], fallbackInstructionsByReason[..],
                 diagnosticBlocks, diagnosticInstructions)
    }

    constructor ()
      ensures Valid() && Value() == ZERO_STATISTICS
      ensures fresh(fallbackBlocksByReason) && fresh(fallbackInstructionsByReason)
    {
      jitDispatches, jitBlocksCompiled, jitBlocksExecuted, jitInstructionsExecuted := 0, 0, 0, 0;
      fallbackBlocks, fallbackInstructions := 0, 0;
      fallbackBlocksByReason := new u64[REASON_COUNT](_ => 0);
      fallbackInstructionsByReason := new u64[REASON_COUNT](_ => 0);
      diagnosticBlocks, diagnosticInstructions := 0, 0;
    }
  }

  /** Which of the ledger's refusals a detail message stands for. */
  datatype LedgerError =
    | InvalidReason
    | BlockBudgetExhausted
    | InstructionBudgetExhausted
    | PcMismatch
    | NoInstructions
    | PerBlockLimitExceeded
    | TotalLimitExceeded

  /** The text of a stop is kept as the branch that wrote it. */
  datatype Detail =
    | BackendText(text: string)
    | LedgerText(error: LedgerError)
    | ZeroInstructionBlock
    | InvalidDiagnosticCount
    | DispatchesExhausted(maximumDispatches: u64)

  datatype RunStopReason =
    | BackendExit
    | BackendFault
    | DispatchBudgetExhausted
    | FallbackBudgetExceeded
    | InvalidBackendResult

  datatype RunResult = RunResult(
    reason: RunStopReason,
    guestPc: u32,
    detail: Detail,
    statistics: Statistics)
}
