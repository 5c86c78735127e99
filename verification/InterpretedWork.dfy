/** What fallback interpreted, as opposed to what it recorded: an answer that the ledger rejects was
    interpreted all the same. */
module InterpretedWork {
  import opened Words
  import opened ExecutionTypes
  import opened FallbackLedger
  import opened ExecutionSession
  import opened SessionRuns
  import opened Counters
  import opened BudgetSafety

  /** The instructions of every fallback answer, recorded or not. */
  function Interpreted(calls: seq<Call>): nat {
    if calls == [] then 0
    else
      var call := calls[|calls| - 1];
      Interpreted(calls[..|calls| - 1]) + if call.FallbackCall? then call.answer.instructionCount else 0
  }

  lemma InterpretedAppend(calls: seq<Call>, call: Call)
    ensures Interpreted(calls + [call])
            == Interpreted(calls) + if call.FallbackCall? then call.answer.instructionCount else 0
  {
    assert (calls + [call])[..|calls|] == calls;
  }

  // Rejections, run by run.

  lemma {:induction false} ReplayRejects(c: RuntimeConfiguration, b: Behaviour, w: World, n: nat)
    requires Booked(c, b, w)
    ensures var (next, result) := Replay(c, b, w, n); Books(c, b, w, next, result.Some?)
    decreases n
  {
    if n > 0 {
      hide Dispatch, Booked, Rejected, EndsInFallback;
      DispatchBooks(c, b, w);
      var (next, result) := Dispatch(c, b, w);
      if result.None? {
        ReplayRejects(c, b, next, n - 1);
        assert Replay(c, b, w, n) == Replay(c, b, next, n - 1);
      } else {
        assert Replay(c, b, w, n) == (next, result);
      }
    }
  }

  /** Each run has at most one rejected answer, and has one exactly when it stops for the fallback
      budget on a fallback call. */
  lemma RunRejects(c: RuntimeConfiguration, b: Behaviour, w: World, n: u64)
    requires Booked(c, b, w)
    ensures var (next, result) := RunFrom(c, b, w, n);
            && Booked(c, b, next)
            && Rejected(c.fallback, next.calls)
               == Rejected(c.fallback, w.calls)
                  + if result.reason == FallbackBudgetExceeded && EndsInFallback(next.calls) then 1 else 0
  {
    hide Booked, Rejected, Dispatch;
    ReplayRejects(c, b, w, n);
    StopIsExplained(c, b, w, n);
    var (next, stop) := Replay(c, b, w, n);
    assert RunFrom(c, b, w, n).0 == next;
    if stop.Some? && EndsInFallback(next.calls) {
      assert stop.value.reason == FallbackBudgetExceeded;
    }
    assert stop.Some? ==> RunFrom(c, b, w, n).1 == stop.value;
  }

  lemma EarlyStopsAppend(results: seq<RunResult>, result: RunResult)
    ensures EarlyStops(results + [result])
            == EarlyStops(results) + if result.reason == DispatchBudgetExhausted then 0 else 1
  {
    assert (results + [result])[..|results|] == results;
  }

  /** Over a whole session the rejected answers number at most the runs that stopped early. */
  lemma {:induction false} RejectionsAreStops(c: RuntimeConfiguration, b: Behaviour, runs: seq<u64>)
    ensures Rejected(c.fallback, Session(c, b, runs).calls) <= EarlyStops(Results(c, b, runs)) <= |runs|
    decreases |runs|
  {
    if runs != [] {
      hide RunFrom, Rejected, Booked;
      var (before, n) := (runs[..|runs| - 1], runs[|runs| - 1]);
      var w := Session(c, b, before);
      RejectionsAreStops(c, b, before);
      CallsInOrder(c, b, before);
      RunRejects(c, b, w, n);
      EarlyStopsAppend(Results(c, b, before), RunFrom(c, b, w, n).1);
      assert Session(c, b, runs) == RunFrom(c, b, w, n).0;
      assert Results(c, b, runs) == Results(c, b, before) + [RunFrom(c, b, w, n).1];
    } else {
      NoneYet(c.fallback);
    }
  }

  lemma NoneYet(budget: FallbackBudget)
    ensures Rejected(budget, []) == 0
  {}

  // What was interpreted beyond what was recorded.

  /** Every answer is at most this large. */
  predicate AnswersAtMost(calls: seq<Call>, limit: nat) {
    forall i :: 0 <= i < |calls| && calls[i].FallbackCall? ==> calls[i].answer.instructionCount <= limit
  }

  lemma {:induction false} InterpretedSplit(budget: FallbackBudget, calls: seq<Call>, limit: nat)
    requires AnswersAtMost(calls, limit)
    ensures var recorded := UsageOf(Machine, budget, calls).instructions;
            recorded <= Interpreted(calls) <= recorded + Rejected(budget, calls) * limit
  {
    if calls != [] {
      var (front, call) := (calls[..|calls| - 1], calls[|calls| - 1]);
      InterpretedSplit(budget, front, limit);
      assert (Rejected(budget, front) + 1) * limit == Rejected(budget, front) * limit + limit;
      assert Rejected(budget, calls) == Rejected(budget, front) + Rejects(budget, front, call);
    }
  }

  lemma HonouredAnswers(c: RuntimeConfiguration, b: Behaviour, calls: seq<Call>)
    requires Honours(b) && CallLanguage(Machine, c, calls) && Answered(b, calls)
    ensures AnswersAtMost(calls, c.fallback.maximumInstructionsPerBlock)
  {
    forall i | 0 <= i < |calls| && calls[i].FallbackCall?
      ensures calls[i].answer.instructionCount <= c.fallback.maximumInstructionsPerBlock
    {
      LimitWithinBlock(c, calls, i);
    }
  }

  lemma {:induction false} LimitWithinBlock(c: RuntimeConfiguration, calls: seq<Call>, i: nat)
    requires CallLanguage(Machine, c, calls) && i < |calls| && calls[i].FallbackCall?
    ensures calls[i].limit <= c.fallback.maximumInstructionsPerBlock
    decreases |calls|
  {
    var last := |calls| - 1;
    if i < last {
      LimitWithinBlock(c, if calls[last].FallbackCall? then calls[..last][..last - 1] else calls[..last], i);
    }
  }

  /** Against a backend that honours its limits, everything interpreted is what was recorded and at
      most one block more for each run that stopped early. */
  lemma InterpretedBound(c: RuntimeConfiguration, b: Behaviour, runs: seq<u64>)
    requires Honours(b)
    ensures var calls := Session(c, b, runs).calls;
            var (recorded, perBlock) := (UsageOf(Machine, c.fallback, calls).instructions,
                                         c.fallback.maximumInstructionsPerBlock);
            && recorded <= Interpreted(calls) <= recorded + Rejected(c.fallback, calls) * perBlock
            && Rejected(c.fallback, calls) <= EarlyStops(Results(c, b, runs)) <= |runs|
            && Interpreted(calls) <= c.fallback.maximumTotalInstructions + |runs| * perBlock
  {
    var w := Session(c, b, runs);
    var (budget, perBlock) := (c.fallback, c.fallback.maximumInstructionsPerBlock);
    CallsInOrder(c, b, runs);
    BookedIsBudgeted(c, b, w);
    OrderIsExact(c, b, w.calls);
    HonouredAnswers(c, b, w.calls);
    InterpretedSplit(budget, w.calls, perBlock);
    RejectionsAreStops(c, b, runs);
    Times(Rejected(budget, w.calls), |runs|, perBlock);
  }

  lemma Times(a: nat, b: nat, limit: nat)
    requires a <= b
    ensures a * limit <= b * limit
  {}

  /** A backend that also answers at the refused PC and makes progress is never rejected, so that all
      it interprets is recorded and within the budget. */
  lemma ObedienceIsRecorded(c: RuntimeConfiguration, b: Behaviour, runs: seq<u64>)
    requires WellFormed(c.fallback) && Obeys(b)
    ensures var calls := Session(c, b, runs).calls;
            && Rejected(c.fallback, calls) == 0
            && Interpreted(calls) == UsageOf(Machine, c.fallback, calls).instructions
            && Interpreted(calls) <= c.fallback.maximumTotalInstructions
  {
    var calls := Session(c, b, runs).calls;
    CallsInOrder(c, b, runs);
    NoneRejected(c, b, calls);
    InterpretedBound(c, b, runs);
    OrderIsExact(c, b, calls);
  }

  lemma {:induction false} NoneRejected(c: RuntimeConfiguration, b: Behaviour, calls: seq<Call>)
    requires WellFormed(c.fallback) && Obeys(b)
    requires CallLanguage(Machine, c, calls) && Answered(b, calls)
    ensures Rejected(c.fallback, calls) == 0
    decreases |calls|
  {
    if calls != [] {
      var last := |calls| - 1;
      var (front, call) := (calls[..last], calls[last]);
      AnsweredPrefix(b, calls, last);
      hide Obeys;
      if call.FallbackCall? {
        var before := front[..last - 1];
        AnsweredPrefix(b, front, last - 1);
        UsageAppend(Machine, c.fallback, before, front[last - 1]);
        RejectedAppend(c.fallback, before, front[last - 1]);
        assert front == before + [front[last - 1]];
        NoneRejected(c, b, before);
        hide CallLanguage, UsageOf;
        assert call.answer == b.refused(front, call.refusal, call.limit);
        ObedientAnswer(b, front, call);
        ObedientAccepted(c.fallback, UsageOf(Machine, c.fallback, front), call);
      } else {
        NoneRejected(c, b, front);
      }
    }
  }

  lemma ObedientAnswer(b: Behaviour, calls: seq<Call>, call: Call)
    requires Obeys(b) && call.FallbackCall? && call.answer == b.refused(calls, call.refusal, call.limit)
    ensures call.answer.instructionCount <= call.limit
    ensures call.limit >= 1 ==> call.answer.guestPc == call.refusal.guestPc && call.answer.instructionCount >= 1
  {}

  lemma ObedientAccepted(budget: FallbackBudget, usage: Usage, call: Call)
    requires WellFormed(budget) && call.FallbackCall? && Enters(Machine, budget, usage, call.refusal)
    requires call.limit == Min(budget.maximumInstructionsPerBlock,
                               budget.maximumTotalInstructions - Wrap(usage.instructions))
    requires call.answer.instructionCount <= call.limit
    requires call.limit >= 1 ==> call.answer.guestPc == call.refusal.guestPc && call.answer.instructionCount >= 1
    ensures Accepts(Machine, budget, usage, call.refusal, call.answer)
  {}

  // The budget does not bound what is interpreted.

  const ONE: RuntimeConfiguration := RuntimeConfiguration(Jit, FallbackBudget(1, 1, 1), 1)

  const HUNDRED: Behaviour := Behaviour(
    calls => Refused(JitRefusal(0, 0)),
    (calls, refusal, limit) => InterpretedBlock(0, 100),
    (calls, limit) => InterpretedBlock(0, 0))

  /** With a budget of one instruction, whose sum is far from wrapping, a backend that ignores its limit
      interprets a hundred: the ledger sees them only afterwards, records none and stops the run. */
  lemma RejectedWorkExceedsBudget()
    ensures !CanWrap(ONE.fallback)
    ensures var w := Session(ONE, HUNDRED, [1]);
            Interpreted(w.calls) == 100 && w.statistics.fallbackInstructions == 0
  {
    var runs: seq<u64> := [1];
    assert runs[..0] == [];
    var (next, result) := Dispatch(ONE, HUNDRED, FRESH);
    assert Replay(ONE, HUNDRED, FRESH, 1).0 == next;
    var answer := FallbackCall(JitRefusal(0, 0), 1, InterpretedBlock(0, 100));
    assert next.calls == [] + [JitCall(Refused(JitRefusal(0, 0)))] + [answer];
    InterpretedAppend([], JitCall(Refused(JitRefusal(0, 0))));
    InterpretedAppend([JitCall(Refused(JitRefusal(0, 0)))], answer);
  }

  /** Honours its limits, but answers for another PC. */
  const ELSEWHERE: Behaviour := Behaviour(
    calls => Refused(JitRefusal(0, 0)),
    (calls, refusal, limit) => InterpretedBlock(4, if limit == 0 then 0 else 1),
    (calls, limit) => InterpretedBlock(0, 0))

  function Ones(n: nat): seq<u64> {
    if n == 0 then [] else Ones(n - 1) + [1]
  }

  /** One dispatch of it. */
  lemma ElsewhereDispatch(c: RuntimeConfiguration, w: World)
    requires c.mode == Jit && WellFormed(c.fallback) && c.fallback.maximumBlocks > 0
    requires w.statistics.fallbackBlocks == w.statistics.fallbackInstructions == 0
    ensures var next := Replay(c, ELSEWHERE, w, 1).0;
            && Interpreted(next.calls) == Interpreted(w.calls) + 1
            && next.statistics.fallbackBlocks == next.statistics.fallbackInstructions == 0
  {
    var (next, result) := Dispatch(c, ELSEWHERE, w);
    assert Replay(c, ELSEWHERE, w, 1).0 == next;
    var offer := JitCall(Refused(JitRefusal(0, 0)));
    var limit := Ledger(c.fallback).InstructionLimit(w.statistics);
    LimitIsExact(Ledger(c.fallback), w.statistics);
    var answer := FallbackCall(JitRefusal(0, 0), limit, InterpretedBlock(4, 1));
    assert next.calls == w.calls + [offer] + [answer];
    InterpretedAppend(w.calls, offer);
    InterpretedAppend(w.calls + [offer], answer);
  }

  lemma OneMoreRun(c: RuntimeConfiguration, b: Behaviour, before: seq<u64>, n: u64)
    ensures Session(c, b, before + [n]) == Replay(c, b, Session(c, b, before), n).0
  {
    hide Replay;
    assert (before + [n])[..|before|] == before;
  }

  lemma ElsewhereHonours()
    ensures Honours(ELSEWHERE)
  {}

  /** Even against a backend that honours its limits there is no bound over sessions: every further run
      can add an instruction that is never recorded. */
  lemma {:induction false} UnrecordedWithoutEnd(c: RuntimeConfiguration, n: nat)
    requires c.mode == Jit && WellFormed(c.fallback) && c.fallback.maximumBlocks > 0
    ensures Honours(ELSEWHERE)
    ensures var w := Session(c, ELSEWHERE, Ones(n));
            && Interpreted(w.calls) == n
            && w.statistics.fallbackBlocks == w.statistics.fallbackInstructions == 0
  {
    hide *;
    ElsewhereHonours();
    if n > 0 {
      OneMore(n);
      UnrecordedWithoutEnd(c, n - 1);
      ElsewhereDispatch(c, Session(c, ELSEWHERE, Ones(n - 1)));
      OneMoreRun(c, ELSEWHERE, Ones(n - 1), 1);
    } else {
      NothingInterpretedYet(c);
    }
  }

  lemma OneMore(n: nat)
    requires n > 0
    ensures Ones(n) == Ones(n - 1) + [1]
  {}

  lemma NothingInterpretedYet(c: RuntimeConfiguration)
    ensures var w := Session(c, ELSEWHERE, Ones(0));
            && Interpreted(w.calls) == 0
            && w.statistics.fallbackBlocks == w.statistics.fallbackInstructions == 0
  {}

  lemma {:induction false} DisabledInterpretsNothing(c: RuntimeConfiguration, calls: seq<Call>)
    requires c.fallback.maximumBlocks == 0 && CallLanguage(Machine, c, calls)
    ensures Interpreted(calls) == 0
  {
    if calls != [] {
      DisabledInterpretsNothing(c, calls[..|calls| - 1]);
    }
  }

  /** Exactly which budgets bound what is interpreted over a session: only the disabled one, whether or
      not the backend honours its limits. */
  lemma InterpretedWithinBudgetIff(c: RuntimeConfiguration)
    requires c.mode == Jit && WellFormed(c.fallback)
    ensures (forall b, runs :: Interpreted(Session(c, b, runs).calls) <= c.fallback.maximumTotalInstructions)
            <==> c.fallback.maximumBlocks == 0
    ensures (forall b, runs :: Honours(b) ==>
                                 Interpreted(Session(c, b, runs).calls) <= c.fallback.maximumTotalInstructions)
            <==> c.fallback.maximumBlocks == 0
  {
    hide Interpreted, Session, Honours;
    var total: nat := c.fallback.maximumTotalInstructions;
    if c.fallback.maximumBlocks == 0 {
      forall b, runs ensures Interpreted(Session(c, b, runs).calls) <= total {
        CallsInOrder(c, b, runs);
        DisabledInterpretsNothing(c, Session(c, b, runs).calls);
      }
    } else {
      UnrecordedWithoutEnd(c, total + 1);
      assert !(Interpreted(Session(c, ELSEWHERE, Ones(total + 1)).calls) <= total);
    }
  }
}
