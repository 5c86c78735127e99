/** Budget arithmetic and accounting for refused blocks (src/fallback_ledger.cpp). */
module FallbackLedger {
  import opened Words
  import opened ExecutionTypes

  /** All limits zero (fallback disabled) or all limits nonzero. */
  predicate WellFormed(budget: FallbackBudget) {
    && (budget.maximumBlocks == 0 <==> budget.maximumTotalInstructions == 0)
    && (budget.maximumBlocks == 0 <==> budget.maximumInstructionsPerBlock == 0)
  }

  /** The ledger never changes after construction, so it is a value. */
  datatype Ledger = Ledger(budget: FallbackBudget) {

    static function Make(budget: FallbackBudget): (r: Option<Ledger>)
      ensures r.Some? <==> WellFormed(budget)
      ensures r.Some? ==> r.value.budget == budget
    {
      var disabled := budget.maximumBlocks == 0 && budget.maximumTotalInstructions == 0
                      && budget.maximumInstructionsPerBlock == 0;
      var fullyConfigured := budget.maximumBlocks != 0 && budget.maximumTotalInstructions != 0
                             && budget.maximumInstructionsPerBlock != 0;
      if !disabled && !fullyConfigured then None else Some(Ledger(budget))
    }

    function CanEnter(refusal: JitRefusal, statistics: Statistics): Option<LedgerError> {
      if refusal.reason >= REASON_COUNT then Some(InvalidReason)
      else if statistics.fallbackBlocks >= budget.maximumBlocks then Some(BlockBudgetExhausted)
      else if statistics.fallbackInstructions >= budget.maximumTotalInstructions
      then Some(InstructionBudgetExhausted)
      else None
    }

    /** The 64-bit minimum is narrowed to 32 bits by the final cast. */
    function InstructionLimit(statistics: Statistics): u32 {
      if statistics.fallbackInstructions >= budget.maximumTotalInstructions then 0
      else
        var remaining := budget.maximumTotalInstructions - statistics.fallbackInstructions;
        Narrow(Min(budget.maximumInstructionsPerBlock, remaining))
    }

    /** What `record` answers; the sum it compares against the total is a 64-bit one. */
    function RecordError(refusal: JitRefusal, execution: InterpretedBlock, statistics: Statistics)
      : Option<LedgerError>
    {
      if refusal.reason >= REASON_COUNT then Some(InvalidReason)
      else if execution.guestPc != refusal.guestPc then Some(PcMismatch)
      else if execution.instructionCount == 0 then Some(NoInstructions)
      else if execution.instructionCount > budget.maximumInstructionsPerBlock
      then Some(PerBlockLimitExceeded)
      else if Plus(statistics.fallbackInstructions, execution.instructionCount)
              > budget.maximumTotalInstructions
      then Some(TotalLimitExceeded)
      else None
    }

    method Record(refusal: JitRefusal, execution: InterpretedBlock, statistics: StatisticsRecord)
      returns (error: Option<LedgerError>)
      requires statistics.Valid()
      modifies statistics, statistics.fallbackBlocksByReason, statistics.fallbackInstructionsByReason
      ensures error == RecordError(refusal, execution, old(statistics.Value()))
      ensures statistics.Value() ==
              if error.Some? then old(statistics.Value())
              else Recorded(old(statistics.Value()), refusal, execution)
    {
      if refusal.reason >= REASON_COUNT {
        return Some(InvalidReason);
      }
      if execution.guestPc != refusal.guestPc {
        return Some(PcMismatch);
      }
      if execution.instructionCount == 0 {
        return Some(NoInstructions);
      }
      if execution.instructionCount > budget.maximumInstructionsPerBlock {
        return Some(PerBlockLimitExceeded);
      }
      if Plus(statistics.fallbackInstructions, execution.instructionCount)
         > budget.maximumTotalInstructions
      {
        return Some(TotalLimitExceeded);
      }
      var index := refusal.reason;
      var blocks := statistics.fallbackBlocksByReason;
      var instructions := statistics.fallbackInstructionsByReason;
      statistics.fallbackBlocks := Plus(statistics.fallbackBlocks, 1);
      statistics.fallbackInstructions :=
        Plus(statistics.fallbackInstructions, execution.instructionCount);
      blocks[index] := Plus(blocks[index], 1);
      instructions[index] := Plus(instructions[index], execution.instructionCount);
      return None;
    }
  }

  function AddAt(counters: PerReason, index: nat, amount: u64): PerReason
    requires index < REASON_COUNT
  {
    counters[index := Plus(counters[index], amount)]
  }

  function Recorded(statistics: Statistics, refusal: JitRefusal, execution: InterpretedBlock)
    : Statistics
    requires refusal.reason < REASON_COUNT
  {
    statistics.(
      fallbackBlocks := Plus(statistics.fallbackBlocks, 1),
      fallbackInstructions := Plus(statistics.fallbackInstructions, execution.instructionCount),
      fallbackBlocksByReason := AddAt(statistics.fallbackBlocksByReason, refusal.reason, 1),
      fallbackInstructionsByReason :=
        AddAt(statistics.fallbackInstructionsByReason, refusal.reason, execution.instructionCount))
  }

  /** The comparison a caller would expect: a valid reason, the refused PC, and a count within the
      limit that was handed to the backend. */
  predicate WithinLimit(ledger: Ledger, refusal: JitRefusal, execution: InterpretedBlock,
                        statistics: Statistics)
  {
    && refusal.reason < REASON_COUNT
    && execution.guestPc == refusal.guestPc
    && 1 <= execution.instructionCount <= ledger.InstructionLimit(statistics)
  }

  /** The limit is never truncated by its cast, is positive exactly while instructions remain, and
      never exceeds what remains. */
  lemma LimitIsExact(ledger: Ledger, statistics: Statistics)
    ensures var limit := ledger.InstructionLimit(statistics);
            var used, total := statistics.fallbackInstructions, ledger.budget.maximumTotalInstructions;
            && (used < total ==>
                  && limit <= ledger.budget.maximumInstructionsPerBlock
                  && used + limit <= total
                  && (limit == ledger.budget.maximumInstructionsPerBlock || used + limit == total))
            && (used >= total ==> limit == 0)
  {}

  /** The min-and-cast form given to the backend and the two comparisons made afterwards agree on
      every execution exactly while the 64-bit sum cannot wrap for the per-block limit. When it can
      wrap, the count that brings the sum back to zero is recorded although it is beyond the limit. */
  lemma TwoBoundsAgreeIff(ledger: Ledger, refusal: JitRefusal, statistics: Statistics)
    ensures (forall execution :: ledger.RecordError(refusal, execution, statistics).None?
                                 <==> WithinLimit(ledger, refusal, execution, statistics))
            <==> (refusal.reason >= REASON_COUNT
                  || statistics.fallbackInstructions + ledger.budget.maximumInstructionsPerBlock < TWO_64)
  {
    var used := statistics.fallbackInstructions;
    if refusal.reason < REASON_COUNT && used + ledger.budget.maximumInstructionsPerBlock >= TWO_64 {
      var overrun := InterpretedBlock(refusal.guestPc, TWO_64 - used);
      assert ledger.RecordError(refusal, overrun, statistics).None?;
      assert !WithinLimit(ledger, refusal, overrun, statistics);
    }
  }
}
