/** The fallback budget over whole sessions. The guarantee is split over three ledger functions:
    only their composition over the dispatch loop keeps it. */
module BudgetSafety {
  import opened Words
  import opened ExecutionTypes
  import opened FallbackLedger
  import opened ExecutionSession
  import opened SessionRuns
  import opened Counters

  /** A backend that never executes more than it was allowed to. */
  ghost predicate Honours(b: Behaviour) {
    forall calls, refusal, limit :: b.refused(calls, refusal, limit).instructionCount <= limit
  }

  /** The ledger's 64-bit sum can wrap before a budget stops it. */
  predicate CanWrap(budget: FallbackBudget) {
    && budget.maximumTotalInstructions + budget.maximumInstructionsPerBlock > TWO_64
    && budget.maximumBlocks * budget.maximumInstructionsPerBlock >= TWO_64
  }

  /** What fallback has recorded, read off the backend's call log alone. */
  datatype Usage = Usage(blocks: nat, instructions: nat)

  /** Two ways of comparing it with a budget: through 64-bit counters and a 64-bit sum, as the ledger
      does, or in unbounded numbers, as the budget is meant. */
  datatype Account = Machine | Unbounded {
    function Counter(n: nat): nat {
      if Machine? then Wrap(n) else n
    }

    function SumOf(used: nat, count: u32): nat {
      if Machine? then Plus(Wrap(used), count) else used + count
    }
  }

  predicate Enters(account: Account, budget: FallbackBudget, usage: Usage, refusal: JitRefusal) {
    && refusal.reason < REASON_COUNT
    && account.Counter(usage.blocks) < budget.maximumBlocks
    && account.Counter(usage.instructions) < budget.maximumTotalInstructions
  }

  predicate Accepts(account: Account, budget: FallbackBudget, usage: Usage, refusal: JitRefusal,
                    answer: InterpretedBlock)
  {
    && refusal.reason < REASON_COUNT
    && answer.guestPc == refusal.guestPc
    && 1 <= answer.instructionCount <= budget.maximumInstructionsPerBlock
    && account.SumOf(usage.instructions, answer.instructionCount) <= budget.maximumTotalInstructions
  }

  function Use(account: Account, budget: FallbackBudget, usage: Usage, call: Call): Usage {
    if call.FallbackCall? && Accepts(account, budget, usage, call.refusal, call.answer)
    then Usage(usage.blocks + 1, usage.instructions + call.answer.instructionCount)
    else usage
  }

  function UsageOf(account: Account, budget: FallbackBudget, calls: seq<Call>): Usage {
    if calls == [] then Usage(0, 0)
    else Use(account, budget, UsageOf(account, budget, calls[..|calls| - 1]), calls[|calls| - 1])
  }

  /** The order of backend calls. In JIT mode (J | J F)*, where F follows exactly those refusals that
      may enter, repeats that refusal, and is limited by the block limit and by what remains; in
      diagnostic mode D* with the configured limit. */
  predicate CallLanguage(account: Account, c: RuntimeConfiguration, calls: seq<Call>)
    decreases |calls|
  {
    if calls == [] then true
    else
      var before := calls[..|calls| - 1];
      var usage := UsageOf(account, c.fallback, before);
      match calls[|calls| - 1]
      case JitCall(step) =>
        && c.mode == Jit
        && CallLanguage(account, c, before)
        && (step.Refused? ==> !Enters(account, c.fallback, usage, step.refusal))
      case FallbackCall(refusal, limit, _) =>
        && c.mode == Jit
        && before != []
        && before[|before| - 1] == JitCall(Refused(refusal))
        && Enters(account, c.fallback, usage, refusal)
        && limit == Min(c.fallback.maximumInstructionsPerBlock,
                        c.fallback.maximumTotalInstructions - account.Counter(usage.instructions))
        && CallLanguage(account, c, before[..|before| - 1])
      case DiagnosticCall(limit, _) =>
        && c.mode == DiagnosticInterpreter
        && limit == c.diagnosticInstructionsPerDispatch
        && CallLanguage(account, c, before)
  }

  /** Every fallback answer in the log is the backend's. */
  predicate Answered(b: Behaviour, calls: seq<Call>) {
    forall i :: 0 <= i < |calls| && calls[i].FallbackCall? ==>
                  calls[i].answer == b.refused(calls[..i], calls[i].refusal, calls[i].limit)
  }

  /** The machine counters and the event log are what the call log says, and the calls are in order. */
  predicate Booked(c: RuntimeConfiguration, b: Behaviour, w: World) {
    var usage := UsageOf(Machine, c.fallback, w.calls);
    && CallLanguage(Machine, c, w.calls)
    && Answered(b, w.calls)
    && w.statistics.fallbackBlocks == Wrap(usage.blocks)
    && w.statistics.fallbackInstructions == Wrap(usage.instructions)
    && Tally(w.events).fallbackBlocks == usage.blocks
    && Tally(w.events).fallbackInstructions == usage.instructions
  }

  lemma UsageAppend(account: Account, budget: FallbackBudget, calls: seq<Call>, call: Call)
    ensures UsageOf(account, budget, calls + [call]) == Use(account, budget, UsageOf(account, budget, calls), call)
  {
    assert (calls + [call])[..|calls|] == calls;
  }

  lemma AnsweredAppend(b: Behaviour, calls: seq<Call>, call: Call)
    requires Answered(b, calls)
    requires call.FallbackCall? ==> call.answer == b.refused(calls, call.refusal, call.limit)
    ensures Answered(b, calls + [call])
  {
    var longer := calls + [call];
    forall i | 0 <= i < |longer| && longer[i].FallbackCall?
      ensures longer[i].answer == b.refused(longer[..i], longer[i].refusal, longer[i].limit)
    {
      assert longer[..i] == calls[..i];
      assert i == |calls| ==> calls[..i] == calls;
    }
  }

  lemma LanguageAppend(account: Account, c: RuntimeConfiguration, calls: seq<Call>, call: Call)
    requires CallLanguage(account, c, calls)
    requires call.JitCall? ==>
               c.mode == Jit
               && (call.step.Refused? ==>
                     !Enters(account, c.fallback, UsageOf(account, c.fallback, calls), call.step.refusal))
    requires call.DiagnosticCall? ==>
               c.mode == DiagnosticInterpreter && call.limit == c.diagnosticInstructionsPerDispatch
    requires !call.FallbackCall?
    ensures CallLanguage(account, c, calls + [call])
  {
    assert (calls + [call])[..|calls|] == calls;
  }

  lemma LanguageFallback(account: Account, c: RuntimeConfiguration, calls: seq<Call>, call: Call)
    requires c.mode == Jit && CallLanguage(account, c, calls) && call.FallbackCall?
    requires var usage := UsageOf(account, c.fallback, calls);
             && Enters(account, c.fallback, usage, call.refusal)
             && call.limit == Min(c.fallback.maximumInstructionsPerBlock,
                                  c.fallback.maximumTotalInstructions - account.Counter(usage.instructions))
    ensures CallLanguage(account, c, calls + [JitCall(Refused(call.refusal))] + [call])
  {
    var offered := calls + [JitCall(Refused(call.refusal))];
    var log := offered + [call];
    assert log[..|log| - 1] == offered && offered[..|offered| - 1] == calls;
    UsageAppend(account, c.fallback, calls, JitCall(Refused(call.refusal)));
  }

  // Fallback answers that were interpreted but not recorded.

  function Rejects(budget: FallbackBudget, before: seq<Call>, call: Call): nat {
    if call.FallbackCall?
       && !Accepts(Machine, budget, UsageOf(Machine, budget, before), call.refusal, call.answer)
    then 1 else 0
  }

  function Rejected(budget: FallbackBudget, calls: seq<Call>): nat {
    if calls == [] then 0
    else Rejected(budget, calls[..|calls| - 1]) + Rejects(budget, calls[..|calls| - 1], calls[|calls| - 1])
  }

  lemma RejectedAppend(budget: FallbackBudget, calls: seq<Call>, call: Call)
    ensures Rejected(budget, calls + [call]) == Rejected(budget, calls) + Rejects(budget, calls, call)
  {
    assert (calls + [call])[..|calls|] == calls;
  }

  predicate EndsInFallback(calls: seq<Call>) {
    calls != [] && calls[|calls| - 1].FallbackCall?
  }

  /** What one dispatch does to the books: they stay in order, and an answer is rejected exactly when
      the dispatch stops on a fallback call. */
  predicate Books(c: RuntimeConfiguration, b: Behaviour, w: World, next: World, stopped: bool) {
    && Booked(c, b, next)
    && Rejected(c.fallback, next.calls)
       == Rejected(c.fallback, w.calls) + if stopped && EndsInFallback(next.calls) then 1 else 0
  }

  /** The fallback half of a dispatch: `w` is the world without the refusal being served. */
  lemma EnterFallbackBooks(c: RuntimeConfiguration, b: Behaviour, w: World, offered: World, refusal: JitRefusal)
    requires c.mode == Jit && Booked(c, b, w)
    requires offered == World(Counted(c, w.statistics), w.calls + [JitCall(Refused(refusal))], w.events)
    requires Ledger(c.fallback).CanEnter(refusal, offered.statistics).None?
    ensures var (next, result) := EnterFallback(Ledger(c.fallback), b, offered, refusal);
            Books(c, b, w, next, result.Some?)
  {
    hide Answered, CallLanguage, Tally;
    var ledger, budget, usage := Ledger(c.fallback), c.fallback, UsageOf(Machine, c.fallback, w.calls);
    var limit := ledger.InstructionLimit(offered.statistics);
    var block := b.refused(offered.calls, refusal, limit);
    var call := FallbackCall(refusal, limit, block);
    UsageAppend(Machine, budget, w.calls, JitCall(Refused(refusal)));
    UsageAppend(Machine, budget, offered.calls, call);
    RejectedAppend(budget, w.calls, JitCall(Refused(refusal)));
    RejectedAppend(budget, offered.calls, call);
    AnsweredAppend(b, w.calls, JitCall(Refused(refusal)));
    AnsweredAppend(b, offered.calls, call);
    LimitIsExact(ledger, offered.statistics);
    LanguageFallback(Machine, c, w.calls, call);
    if Accepts(Machine, budget, usage, refusal, block) {
      TallyAppend(w.events, OnFallback(refusal, block, Recorded(offered.statistics, refusal, block)));
      PlusWraps(usage.blocks, 1);
      PlusWraps(usage.instructions, block.instructionCount);
    }
  }

  /** A call other than a fallback call, with an event that records none. */
  lemma OtherCallBooks(c: RuntimeConfiguration, b: Behaviour, w: World, next: World, call: Call, stopped: bool)
    requires Booked(c, b, w) && next.calls == w.calls + [call] && !call.FallbackCall?
    requires CallLanguage(Machine, c, next.calls)
    requires next.statistics.fallbackBlocks == w.statistics.fallbackBlocks
    requires next.statistics.fallbackInstructions == w.statistics.fallbackInstructions
    requires next.events == w.events
             || (|next.events| > 0 && next.events == w.events + [next.events[|next.events| - 1]]
                 && !next.events[|next.events| - 1].OnFallback?)
    ensures Books(c, b, w, next, stopped)
  {
    hide Answered, CallLanguage, Tally;
    UsageAppend(Machine, c.fallback, w.calls, call);
    RejectedAppend(c.fallback, w.calls, call);
    AnsweredAppend(b, w.calls, call);
    if next.events != w.events {
      TallyAppend(w.events, next.events[|next.events| - 1]);
    }
  }

  lemma OfferBooks(c: RuntimeConfiguration, b: Behaviour, w: World)
    requires c.mode == Jit && Booked(c, b, w)
    ensures var (next, result) := JitDispatch(Ledger(c.fallback), b, w);
            Books(c, b, w, next, result.Some?)
  {
    var ledger, step := Ledger(c.fallback), b.jit(w.calls);
    var offered := World(Counted(c, w.statistics), w.calls + [JitCall(step)], w.events);
    var (next, result) := JitDispatch(ledger, b, w);
    if step.Refused? && ledger.CanEnter(step.refusal, offered.statistics).None? {
      EnterFallbackBooks(c, b, w, offered, step.refusal);
      assert (next, result) == EnterFallback(ledger, b, offered, step.refusal);
    } else {
      LanguageAppend(Machine, c, w.calls, JitCall(step));
      hide Booked, Books, CallLanguage;
      OtherCallBooks(c, b, w, next, JitCall(step), result.Some?);
    }
  }

  lemma DispatchBooks(c: RuntimeConfiguration, b: Behaviour, w: World)
    requires Booked(c, b, w)
    ensures var (next, result) := Dispatch(c, b, w); Books(c, b, w, next, result.Some?)
  {
    if c.mode == Jit {
      OfferBooks(c, b, w);
    } else {
      var limit := c.diagnosticInstructionsPerDispatch;
      var call := DiagnosticCall(limit, b.diagnostic(w.calls, limit));
      LanguageAppend(Machine, c, w.calls, call);
      var (next, result) := Dispatch(c, b, w);
      hide Booked, Books, CallLanguage;
      OtherCallBooks(c, b, w, next, call, result.Some?);
    }
  }

  /** In every reachable state, whatever the budget and the backend: the calls are in order with what
      remained by the machine counters, those counters are the recorded fallbacks modulo 2^64, and the
      event log records the same ones. */
  lemma CallsInOrder(c: RuntimeConfiguration, b: Behaviour, runs: seq<u64>)
    ensures Booked(c, b, Session(c, b, runs))
  {
    forall w | Booked(c, b, w) ensures Booked(c, b, Dispatch(c, b, w).0) {
      DispatchBooks(c, b, w);
    }
    hide Booked, Dispatch, Session;
    FreshIsBooked(c, b);
    SessionKeeps(c, b, runs, (w: World) => Booked(c, b, w));
  }

  lemma FreshIsBooked(c: RuntimeConfiguration, b: Behaviour)
    ensures Booked(c, b, FRESH)
  {}

  /** Read at one position of such a log: every fallback call directly follows the valid refusal it
      serves, with a limit that is positive, within one block and within what remained. */
  lemma {:induction false} FallbackFollowsRefusal(account: Account, c: RuntimeConfiguration, calls: seq<Call>,
                                                  i: nat)
    requires WellFormed(c.fallback) && CallLanguage(account, c, calls)
    requires i < |calls| && calls[i].FallbackCall?
    ensures i > 0 && calls[i - 1] == JitCall(Refused(calls[i].refusal))
    ensures calls[i].refusal.reason < REASON_COUNT
    ensures 1 <= calls[i].limit <= c.fallback.maximumInstructionsPerBlock
    ensures account.Counter(UsageOf(account, c.fallback, calls[..i]).instructions) + calls[i].limit
            <= c.fallback.maximumTotalInstructions
    decreases |calls|
  {
    var last := |calls| - 1;
    if i < last {
      var before := if calls[last].FallbackCall? then calls[..last][..last - 1] else calls[..last];
      assert before[..i] == calls[..i];
      FallbackFollowsRefusal(account, c, before, i);
    }
  }

  /** What remains by the log is what remains by the counters: a dispatch that makes a fallback call
      makes it with the limit that the counters it started with leave, and the account of the calls
      before that one is those counters. */
  lemma LimitIsByCounters(c: RuntimeConfiguration, b: Behaviour, w: World)
    requires Booked(c, b, w)
    ensures var (calls, n) := (Dispatch(c, b, w).0.calls, |w.calls|);
            |calls| > n + 1 ==>
              && calls[n + 1].FallbackCall?
              && calls[n + 1].limit == Ledger(c.fallback).InstructionLimit(w.statistics)
              && Wrap(UsageOf(Machine, c.fallback, calls[..n + 1]).instructions) == w.statistics.fallbackInstructions
              && Wrap(UsageOf(Machine, c.fallback, calls[..n + 1]).blocks) == w.statistics.fallbackBlocks
  {
    FallbackCallMade(c, b, w);
    hide Dispatch, CallLanguage, Answered, Tally;
    UsageAppend(Machine, c.fallback, w.calls, JitCall(b.jit(w.calls)));
  }

  /** The calls of a dispatch that makes more than one. */
  lemma FallbackCallMade(c: RuntimeConfiguration, b: Behaviour, w: World)
    ensures var (calls, n) := (Dispatch(c, b, w).0.calls, |w.calls|);
            |calls| > n + 1 ==>
              && calls[..n + 1] == w.calls + [JitCall(b.jit(w.calls))]
              && calls[n + 1].FallbackCall?
              && calls[n + 1].limit == Ledger(c.fallback).InstructionLimit(w.statistics)
  {
    if c.mode == Jit {
      var step := b.jit(w.calls);
      var offered := World(Counted(c, w.statistics), w.calls + [JitCall(step)], w.events);
      if step.Refused? && Ledger(c.fallback).CanEnter(step.refusal, offered.statistics).None? {
        assert Dispatch(c, b, w) == EnterFallback(Ledger(c.fallback), b, offered, step.refusal);
      }
    }
  }

  /** The same for every session, the remainder being that of the account of the earlier calls as the
      machine keeps it. */
  lemma EveryFallbackFollowsItsRefusal(c: RuntimeConfiguration, b: Behaviour, runs: seq<u64>, i: nat)
    requires WellFormed(c.fallback)
    requires var calls := Session(c, b, runs).calls; i < |calls| && calls[i].FallbackCall?
    ensures var calls := Session(c, b, runs).calls;
            && c.mode == Jit
            && i > 0 && calls[i - 1] == JitCall(Refused(calls[i].refusal))
            && calls[i].refusal.reason < REASON_COUNT
            && 1 <= calls[i].limit <= c.fallback.maximumInstructionsPerBlock
            && Wrap(UsageOf(Machine, c.fallback, calls[..i]).instructions) + calls[i].limit
               <= c.fallback.maximumTotalInstructions
  {
    CallsInOrder(c, b, runs);
    FallbackFollowsRefusal(Machine, c, Session(c, b, runs).calls, i);
    if c.mode != Jit {
      DiagnosticModeIsSeparate(c, b, runs);
    }
  }

  // Exact accounting.

  /** Within the budget, each block having run at least once and within its limit. */
  predicate Afforded(budget: FallbackBudget, usage: Usage) {
    && usage.blocks <= budget.maximumBlocks
    && usage.instructions <= budget.maximumTotalInstructions
    && Limited(usage.blocks, usage.instructions, budget.maximumInstructionsPerBlock)
  }

  /** The sum the ledger compares is the true sum. */
  lemma SumDoesNotWrap(budget: FallbackBudget, usage: Usage, count: nat)
    requires usage.blocks < budget.maximumBlocks && usage.instructions < budget.maximumTotalInstructions
    requires count <= budget.maximumInstructionsPerBlock
    requires usage.instructions <= usage.blocks * budget.maximumInstructionsPerBlock
    requires !CanWrap(budget) || usage.instructions + count <= budget.maximumTotalInstructions
    ensures usage.instructions + count < TWO_64
  {
    var limit := budget.maximumInstructionsPerBlock;
    assert usage.blocks * limit + limit == (usage.blocks + 1) * limit;
    assert (usage.blocks + 1) * limit <= budget.maximumBlocks * limit;
  }

  /** While the account is within the budget, the ledger records what the budget accepts. */
  lemma UseIsExact(budget: FallbackBudget, usage: Usage, call: Call)
    requires Afforded(budget, usage) && call.FallbackCall?
    requires Enters(Machine, budget, usage, call.refusal)
    requires !CanWrap(budget)
             || usage.instructions + call.answer.instructionCount <= budget.maximumTotalInstructions
    ensures Use(Machine, budget, usage, call) == Use(Unbounded, budget, usage, call)
    ensures Afforded(budget, Use(Unbounded, budget, usage, call))
  {
    var count := call.answer.instructionCount;
    if 1 <= count <= budget.maximumInstructionsPerBlock {
      SumDoesNotWrap(budget, usage, count);
      LimitedStep(usage.blocks, usage.instructions, budget.maximumInstructionsPerBlock, count);
    }
  }

  lemma AnsweredPrefix(b: Behaviour, calls: seq<Call>, n: nat)
    requires n <= |calls| && Answered(b, calls)
    ensures Answered(b, calls[..n])
  {
    assert forall i :: 0 <= i < n ==> calls[..n][..i] == calls[..i];
  }

  /** A refusal and the fallback call that serves it. */
  lemma FallbackIsExact(c: RuntimeConfiguration, calls: seq<Call>, call: Call)
    requires c.mode == Jit && call.FallbackCall?
    requires CallLanguage(Unbounded, c, calls)
    requires var usage := UsageOf(Machine, c.fallback, calls);
             && usage == UsageOf(Unbounded, c.fallback, calls)
             && Afforded(c.fallback, usage)
             && Enters(Machine, c.fallback, usage, call.refusal)
             && call.limit == Min(c.fallback.maximumInstructionsPerBlock,
                                  c.fallback.maximumTotalInstructions - Machine.Counter(usage.instructions))
    requires !CanWrap(c.fallback) || call.answer.instructionCount <= call.limit
    ensures var log := calls + [JitCall(Refused(call.refusal))] + [call];
            && CallLanguage(Unbounded, c, log)
            && UsageOf(Machine, c.fallback, log) == UsageOf(Unbounded, c.fallback, log)
            && Afforded(c.fallback, UsageOf(Unbounded, c.fallback, log))
  {
    var (budget, offer) := (c.fallback, JitCall(Refused(call.refusal)));
    LanguageFallback(Unbounded, c, calls, call);
    UseIsExact(budget, UsageOf(Machine, budget, calls), call);
    hide CallLanguage, Afforded;
    forall account: Account
      ensures UsageOf(account, budget, calls + [offer] + [call])
              == Use(account, budget, UsageOf(account, budget, calls), call)
    {
      UsageAppend(account, budget, calls, offer);
      UsageAppend(account, budget, calls + [offer], call);
    }
  }

  lemma OtherCallIsExact(c: RuntimeConfiguration, calls: seq<Call>, call: Call)
    requires CallLanguage(Machine, c, calls + [call]) && !call.FallbackCall?
    requires CallLanguage(Unbounded, c, calls)
    requires UsageOf(Machine, c.fallback, calls) == UsageOf(Unbounded, c.fallback, calls)
    requires Afforded(c.fallback, UsageOf(Unbounded, c.fallback, calls))
    ensures var log := calls + [call];
            && CallLanguage(Unbounded, c, log)
            && UsageOf(Machine, c.fallback, log) == UsageOf(Unbounded, c.fallback, log)
            && Afforded(c.fallback, UsageOf(Unbounded, c.fallback, log))
  {
    assert (calls + [call])[..|calls|] == calls;
    LanguageAppend(Unbounded, c, calls, call);
    UsageAppend(Machine, c.fallback, calls, call);
    UsageAppend(Unbounded, c.fallback, calls, call);
  }

  /** A log in machine order is in exact order too, with the same account, if the sum cannot wrap or
      the backend honours its limits. */
  lemma {:induction false} OrderIsExact(c: RuntimeConfiguration, b: Behaviour, calls: seq<Call>)
    requires !CanWrap(c.fallback) || Honours(b)
    requires CallLanguage(Machine, c, calls) && Answered(b, calls)
    ensures CallLanguage(Unbounded, c, calls)
    ensures UsageOf(Machine, c.fallback, calls) == UsageOf(Unbounded, c.fallback, calls)
    ensures Afforded(c.fallback, UsageOf(Unbounded, c.fallback, calls))
    decreases |calls|
  {
    if calls != [] {
      var last := |calls| - 1;
      var (front, call) := (calls[..last], calls[last]);
      AnsweredPrefix(b, calls, last);
      if call.FallbackCall? {
        var before := front[..last - 1];
        AnsweredPrefix(b, front, last - 1);
        UsageAppend(Machine, c.fallback, before, front[last - 1]);
        assert front == before + [front[last - 1]] && calls == before + [front[last - 1]] + [call];
        OrderIsExact(c, b, before);
        hide CallLanguage, UsageOf, Afforded;
        FallbackIsExact(c, before, call);
      } else {
        assert calls == front + [call];
        OrderIsExact(c, b, front);
        OtherCallIsExact(c, front, call);
      }
    }
  }

  /** Counters, event log and call log agree on what was recorded, and it is within the budget. */
  predicate Accounted(budget: FallbackBudget, s: Statistics, t: Totals, usage: Usage) {
    && s.fallbackBlocks == t.fallbackBlocks == usage.blocks
    && s.fallbackInstructions == t.fallbackInstructions == usage.instructions
    && Afforded(budget, usage)
  }

  predicate Budgeted(c: RuntimeConfiguration, w: World) {
    && Accounted(c.fallback, w.statistics, Tally(w.events), UsageOf(Unbounded, c.fallback, w.calls))
    && CallLanguage(Unbounded, c, w.calls)
  }

  lemma BookedIsBudgeted(c: RuntimeConfiguration, b: Behaviour, w: World)
    requires !CanWrap(c.fallback) || Honours(b)
    requires Booked(c, b, w)
    ensures Budgeted(c, w)
  {
    OrderIsExact(c, b, w.calls);
  }

  /** Safety over all runs: if the sum cannot wrap, or the backend honours the limit it is given, then
      in every reachable state the recorded blocks and instructions are within the budget, the
      counters are exact, and what remained at each call is what the true sum left over. */
  lemma BudgetKept(c: RuntimeConfiguration, b: Behaviour, runs: seq<u64>)
    requires !CanWrap(c.fallback) || Honours(b)
    ensures Budgeted(c, Session(c, b, runs))
  {
    CallsInOrder(c, b, runs);
    BookedIsBudgeted(c, b, Session(c, b, runs));
  }

  /** What a budget promises about the blocks and instructions recorded so far. */
  predicate WithinBudget(budget: FallbackBudget, t: Totals) {
    && t.fallbackBlocks <= budget.maximumBlocks
    && t.fallbackInstructions <= budget.maximumTotalInstructions
  }

  /** The greatest total from which one more full block makes the sum exactly 2^64. */
  function Brink(budget: FallbackBudget): int {
    TWO_64 - budget.maximumInstructionsPerBlock
  }

  /** Instructions recorded after k blocks of the overrunning backend. */
  function Level(budget: FallbackBudget, k: nat): nat {
    if k == 0 then 0
    else Min(Level(budget, k - 1) + budget.maximumInstructionsPerBlock, Brink(budget))
  }

  /** Full blocks up to the brink, then one full block more. */
  function OverrunCount(budget: FallbackBudget, k: nat): u32 {
    var full := budget.maximumInstructionsPerBlock;
    if Level(budget, k) < Brink(budget) then Min(full, Brink(budget) - Level(budget, k)) else full
  }

  /** A backend that always refuses and then ignores the limit it is given. */
  function Overrunning(budget: FallbackBudget): Behaviour {
    Behaviour(
      calls => Refused(JitRefusal(0, 0)),
      (calls, refusal, limit) => InterpretedBlock(0, OverrunCount(budget, |calls| / 2)),
      (calls, limit) => InterpretedBlock(0, 0))
  }

  predicate OnTheWay(budget: FallbackBudget, w: World, k: nat) {
    && |w.calls| == 2 * k
    && w.statistics.fallbackBlocks == Tally(w.events).fallbackBlocks == k
    && w.statistics.fallbackInstructions == Tally(w.events).fallbackInstructions == Level(budget, k)
  }

  /** What one admitted and accepted fallback does to the world. */
  lemma AcceptedFallback(c: RuntimeConfiguration, b: Behaviour, w: World, refusal: JitRefusal,
                         block: InterpretedBlock)
    requires c.mode == Jit && b.jit(w.calls) == Refused(refusal)
    requires var limit := Ledger(c.fallback).InstructionLimit(w.statistics);
             b.refused(w.calls + [JitCall(Refused(refusal))], refusal, limit) == block
    requires Ledger(c.fallback).CanEnter(refusal, w.statistics).None?
    requires Ledger(c.fallback).RecordError(refusal, block, w.statistics).None?
    ensures var (next, result) := Dispatch(c, b, w);
            && result.None?
            && |next.calls| == |w.calls| + 2
            && next.statistics.fallbackBlocks == Plus(w.statistics.fallbackBlocks, 1)
            && next.statistics.fallbackInstructions
               == Plus(w.statistics.fallbackInstructions, block.instructionCount)
            && Tally(next.events).fallbackBlocks == Tally(w.events).fallbackBlocks + 1
            && Tally(next.events).fallbackInstructions
               == Tally(w.events).fallbackInstructions + block.instructionCount
  {
    var counted := Counted(c, w.statistics);
    var offered := World(counted, w.calls + [JitCall(Refused(refusal))], w.events);
    assert Dispatch(c, b, w) == EnterFallback(Ledger(c.fallback), b, offered, refusal);
    TallyAppend(w.events, OnFallback(refusal, block, Recorded(counted, refusal, block)));
  }

  lemma OverrunStep(c: RuntimeConfiguration, w: World, k: nat)
    requires c.mode == Jit && c.fallback.maximumInstructionsPerBlock > 0
    requires Brink(c.fallback) < c.fallback.maximumTotalInstructions
    requires OnTheWay(c.fallback, w, k) && k < c.fallback.maximumBlocks
    ensures var (next, result) := Dispatch(c, Overrunning(c.fallback), w);
            && result.None?
            && (Level(c.fallback, k) < Brink(c.fallback) ==> OnTheWay(c.fallback, next, k + 1))
            && (Level(c.fallback, k) == Brink(c.fallback) ==>
                  Tally(next.events).fallbackInstructions == TWO_64)
  {
    var (level, count) := (Level(c.fallback, k), OverrunCount(c.fallback, k));
    assert |w.calls + [JitCall(Refused(JitRefusal(0, 0)))]| / 2 == k;
    assert Plus(k, 1) == k + 1;
    assert level < Brink(c.fallback) ==> Plus(level, count) == level + count == Level(c.fallback, k + 1);
    assert level == Brink(c.fallback) ==> level + count == TWO_64;
    AcceptedFallback(c, Overrunning(c.fallback), w, JitRefusal(0, 0), InterpretedBlock(0, count));
  }

  /** Dispatches that keep going and keep a numbered invariant do so over a replay. */
  lemma {:induction false} ReplayCounts(c: RuntimeConfiguration, b: Behaviour, w: World, k: nat, n: nat,
                                        inv: (World, nat) -> bool)
    requires inv(w, k)
    requires forall v, j :: k <= j < k + n && inv(v, j) ==>
                              Dispatch(c, b, v).1.None? && inv(Dispatch(c, b, v).0, j + 1)
    ensures Replay(c, b, w, n).1.None? && inv(Replay(c, b, w, n).0, k + n)
    decreases n
  {
    if n > 0 {
      ReplayCounts(c, b, Dispatch(c, b, w).0, k + 1, n - 1, inv);
    }
  }

  lemma OverrunReplay(c: RuntimeConfiguration, n: nat)
    requires c.mode == Jit && c.fallback.maximumInstructionsPerBlock > 0
    requires Brink(c.fallback) < c.fallback.maximumTotalInstructions
    requires n < c.fallback.maximumBlocks
    requires forall j :: 0 <= j < n ==> Level(c.fallback, j) < Brink(c.fallback)
    ensures var (next, result) := Replay(c, Overrunning(c.fallback), FRESH, n);
            result.None? && OnTheWay(c.fallback, next, n)
  {
    var b := Overrunning(c.fallback);
    forall v, j: nat | j < n && OnTheWay(c.fallback, v, j)
      ensures Dispatch(c, b, v).1.None? && OnTheWay(c.fallback, Dispatch(c, b, v).0, j + 1)
    {
      OverrunStep(c, v, j);
    }
    ReplayCounts(c, b, FRESH, 0, n, (v: World, j: nat) => OnTheWay(c.fallback, v, j));
  }

  lemma {:induction false} LevelIsProduct(budget: FallbackBudget, k: nat)
    requires Level(budget, k) < Brink(budget)
    ensures Level(budget, k) == k * budget.maximumInstructionsPerBlock
  {
    if k > 0 {
      LevelIsProduct(budget, k - 1);
      assert k * budget.maximumInstructionsPerBlock
             == (k - 1) * budget.maximumInstructionsPerBlock + budget.maximumInstructionsPerBlock;
    }
  }

  /** The number of blocks that reach the brink leaves room for one more. */
  lemma BrinkReached(budget: FallbackBudget) returns (k: nat)
    requires CanWrap(budget)
    ensures k < budget.maximumBlocks && Level(budget, k) == Brink(budget)
    ensures forall j :: 0 <= j < k ==> Level(budget, j) < Brink(budget)
  {
    k := 0;
    while Level(budget, k) < Brink(budget)
      invariant k < budget.maximumBlocks && Level(budget, k) <= Brink(budget)
      invariant forall j :: 0 <= j < k ==> Level(budget, j) < Brink(budget)
      decreases Brink(budget) - Level(budget, k)
    {
      LevelIsProduct(budget, k);
      assert (k + 1) * budget.maximumInstructionsPerBlock
             == k * budget.maximumInstructionsPerBlock + budget.maximumInstructionsPerBlock;
      k := k + 1;
    }
  }

  /** With a budget whose sum can wrap, a backend that ignores its limit makes the session record
      2^64 instructions, more than any maximum total. */
  lemma WrappingBudgetFails(c: RuntimeConfiguration) returns (runs: seq<u64>)
    requires c.mode == Jit && CanWrap(c.fallback)
    ensures !WithinBudget(c.fallback, Tally(Session(c, Overrunning(c.fallback), runs).events))
  {
    var b := Overrunning(c.fallback);
    var k := BrinkReached(c.fallback);
    OverrunReplay(c, k);
    OverrunStep(c, Replay(c, b, FRESH, k).0, k);
    ReplaySplits(c, b, FRESH, k, 1);
    runs := [k + 1];
    assert runs[..0] == [];
    var last := Replay(c, b, FRESH, k).0;
    assert Replay(c, b, last, 1).0 == Dispatch(c, b, last).0;
    assert Session(c, b, runs) == Replay(c, b, FRESH, k + 1).0;
  }

  /** Exactly which budgets bound what is recorded, against every backend and every sequence of runs. */
  lemma BudgetSafeIff(c: RuntimeConfiguration)
    requires c.mode == Jit
    ensures (forall b, runs :: WithinBudget(c.fallback, Tally(Session(c, b, runs).events)))
            <==> !CanWrap(c.fallback)
  {
    if CanWrap(c.fallback) {
      var runs := WrappingBudgetFails(c);
    } else {
      forall b, runs ensures WithinBudget(c.fallback, Tally(Session(c, b, runs).events)) {
        BudgetKept(c, b, runs);
      }
    }
  }

  /** A backend that interprets within its limit, at the refused PC, and makes progress if it may. */
  ghost predicate Obeys(b: Behaviour) {
    && Honours(b)
    && forall calls, refusal, limit ::
         limit >= 1 ==> var block := b.refused(calls, refusal, limit);
                        block.guestPc == refusal.guestPc && block.instructionCount >= 1
  }

  /** One that refuses every block for a valid reason besides. */
  ghost predicate AlwaysRefuses(b: Behaviour) {
    Obeys(b) && forall calls :: b.jit(calls).Refused? && b.jit(calls).refusal.reason < REASON_COUNT
  }

  predicate UsedUp(budget: FallbackBudget, t: Totals) {
    t.fallbackBlocks == budget.maximumBlocks || t.fallbackInstructions == budget.maximumTotalInstructions
  }

  lemma RefusedDispatch(c: RuntimeConfiguration, b: Behaviour, w: World)
    requires c.mode == Jit && WellFormed(c.fallback)
    requires AlwaysRefuses(b) && Budgeted(c, w)
    ensures var (next, result) := Dispatch(c, b, w);
            && (result.None? ==>
                  Tally(next.events).fallbackBlocks == Tally(w.events).fallbackBlocks + 1)
            && (result.Some? ==>
                  && next.events == w.events
                  && result.value.reason == FallbackBudgetExceeded
                  && UsedUp(c.fallback, Tally(w.events)))
  {
    var ledger, refusal := Ledger(c.fallback), b.jit(w.calls).refusal;
    if ledger.CanEnter(refusal, w.statistics).None? {
      var limit := ledger.InstructionLimit(w.statistics);
      var block := b.refused(w.calls + [JitCall(Refused(refusal))], refusal, limit);
      RefusedBlockAccepted(c.fallback, w.statistics, refusal, block);
      AcceptedFallback(c, b, w, refusal, block);
    }
  }

  lemma RefusedBlockAccepted(budget: FallbackBudget, s: Statistics, refusal: JitRefusal, block: InterpretedBlock)
    requires WellFormed(budget) && Ledger(budget).CanEnter(refusal, s).None?
    requires var limit := Ledger(budget).InstructionLimit(s);
             && block.instructionCount <= limit
             && (limit >= 1 ==> block.guestPc == refusal.guestPc && block.instructionCount >= 1)
    ensures Ledger(budget).RecordError(refusal, block, s).None?
  {
    LimitIsExact(Ledger(budget), s);
  }

  /** A replay in which every dispatch that goes on counts one, and every one that stops counts none. */
  lemma {:induction false} ReplayProgress(c: RuntimeConfiguration, b: Behaviour, w: World, n: nat,
                                          inv: World -> bool, count: World -> int,
                                          stop: (World, RunResult) -> bool)
    requires inv(w)
    requires forall v :: inv(v) ==>
                           var (next, result) := Dispatch(c, b, v);
                           && inv(next)
                           && (result.None? ==> count(next) == count(v) + 1)
                           && (result.Some? ==> count(next) == count(v) && stop(next, result.value))
    ensures var (next, result) := Replay(c, b, w, n);
            && inv(next)
            && (result.None? ==> count(next) == count(w) + n)
            && (result.Some? ==> 0 <= count(next) - count(w) < n && stop(next, result.value))
    decreases n
  {
    hide Dispatch;
    if n > 0 {
      var (next, result) := Dispatch(c, b, w);
      if result.None? {
        ReplayProgress(c, b, next, n - 1, inv, count, stop);
      }
    }
  }

  function FallbackBlocks(w: World): nat {
    Tally(w.events).fallbackBlocks
  }

  predicate StoppedUsedUp(budget: FallbackBudget, w: World, result: RunResult) {
    result.reason == FallbackBudgetExceeded && UsedUp(budget, Tally(w.events))
  }

  lemma RefusedReplay(c: RuntimeConfiguration, b: Behaviour, n: nat)
    requires c.mode == Jit && WellFormed(c.fallback) && AlwaysRefuses(b)
    ensures var (w, result) := Replay(c, b, FRESH, n);
            && Booked(c, b, w)
            && (result.None? ==> FallbackBlocks(w) == n)
            && (result.Some? ==> FallbackBlocks(w) < n && StoppedUsedUp(c.fallback, w, result.value))
  {
    forall w | Booked(c, b, w)
      ensures var (next, result) := Dispatch(c, b, w);
              && Booked(c, b, next)
              && (result.None? ==> FallbackBlocks(next) == FallbackBlocks(w) + 1)
              && (result.Some? ==> FallbackBlocks(next) == FallbackBlocks(w)
                                   && StoppedUsedUp(c.fallback, next, result.value))
    {
      BookedIsBudgeted(c, b, w);
      RefusedDispatch(c, b, w);
      DispatchBooks(c, b, w);
    }
    hide Dispatch, Replay, Booked, StoppedUsedUp;
    FreshIsBooked(c, b);
    assert FallbackBlocks(FRESH) == 0;
    hide FallbackBlocks;
    ReplayProgress(c, b, FRESH, n, (w: World) => Booked(c, b, w), (w: World) => FallbackBlocks(w),
                   (w: World, r: RunResult) => StoppedUsedUp(c.fallback, w, r));
  }

  /** A fresh session whose backend always refuses validly: F blocks succeed, F is at most both
      budgets, and unless the dispatches run out first the session stops for the budget with one of
      the two used up exactly, so that F is at least the smaller of the block budget and
      ceil(total / per block). */
  lemma ExhaustionBound(c: RuntimeConfiguration, b: Behaviour, n: u64)
    requires c.mode == Jit && WellFormed(c.fallback) && AlwaysRefuses(b)
    ensures var (w, result) := RunFrom(c, b, FRESH, n);
            var (budget, t) := (c.fallback, Tally(w.events));
            var F := t.fallbackBlocks;
            && F <= budget.maximumBlocks && F <= budget.maximumTotalInstructions
            && (result.reason == DispatchBudgetExhausted || result.reason == FallbackBudgetExceeded)
            && (result.reason == DispatchBudgetExhausted ==> F == n)
            && (result.reason == FallbackBudgetExceeded ==>
                  && F < n
                  && UsedUp(budget, t)
                  && (F == budget.maximumBlocks
                      || F * budget.maximumInstructionsPerBlock >= budget.maximumTotalInstructions))
  {
    hide Dispatch, Replay, UsageOf, CallLanguage, Booked, Tally;
    RefusedReplay(c, b, n);
    BookedIsBudgeted(c, b, Replay(c, b, FRESH, n).0);
  }

  /** Diagnostic mode is separate: only diagnostic calls with the configured limit, and every JIT and
      fallback counter stays zero. */
  predicate DiagnosticOnly(c: RuntimeConfiguration, w: World) {
    && (forall i :: 0 <= i < |w.calls| ==>
                      w.calls[i].DiagnosticCall? && w.calls[i].limit == c.diagnosticInstructionsPerDispatch)
    && w.statistics == ZERO_STATISTICS.(diagnosticBlocks := w.statistics.diagnosticBlocks,
                                        diagnosticInstructions := w.statistics.diagnosticInstructions)
  }

  lemma DiagnosticModeIsSeparate(c: RuntimeConfiguration, b: Behaviour, runs: seq<u64>)
    requires c.mode == DiagnosticInterpreter
    ensures DiagnosticOnly(c, Session(c, b, runs))
  {
    SessionKeeps(c, b, runs, (w: World) => DiagnosticOnly(c, w));
  }
}
