/** The ticket protocol under its mutex: any number of threads, every interleaving of invocations,
    lock acquisitions, single statements of the bodies, releases and returns. */
module TicketThreads {
  import opened Words
  import opened HookKeys
  import opened OriginalCalls
  import opened TicketHistory

  type Thread = nat

  /** An invocation: its operation, and how many operations had taken effect and how many had
      returned, in the whole system, when it was made. */
  datatype Call = Call(op: Operation, effects: nat, deliveries: nat)

  /** Where a thread is. From Entered to Leaving it holds the lock. */
  datatype Pc =
    | Idle
    | Blocked(call: Call)
    | Entered(call: Call)
    | TookTicket(call: Call, ticket: u64)
    | Announced(call: Call, ticket: u64)
    | Matched(call: Call, record: TicketRecord)
    | Located(call: Call, address: u32)
    | Revoked(call: Call, address: u32)
    | Leaving(call: Call, response: Response, index: nat)
    | Answered(call: Call, response: Response, index: nat)
  {
    predicate Working() {
      Entered? || TookTicket? || Announced? || Matched? || Located? || Revoked?
    }

    predicate Holding() {
      Working() || Leaving?
    }
  }

  /** An operation that took effect, in the order of effect. */
  datatype Record = Record(thread: Thread, step: Step)

  /** A response handed back to its caller, with the position of its effect. */
  datatype Delivery = Delivery(thread: Thread, call: Call, response: Response, index: nat)

  datatype System = System(
    storage: Storage,
    log: seq<Invalidation>,
    owner: Option<Thread>,
    pcs: map<Thread, Pc>,
    history: seq<Record>,
    acquired: seq<(Thread, Operation)>,
    delivered: seq<Delivery>)
  {
    function PcOf(t: Thread): Pc {
      if t in pcs then pcs[t] else Idle
    }
  }

  const INITIAL: System := System(EMPTY, [], None, map[], [], [], [])

  datatype Progress = More(pc: Pc) | Done(response: Response, done: bool)

  datatype Effect = Effect(storage: Storage, progress: Progress, invalidation: Option<Invalidation>)

  function TicketOf(op: Operation): u64 {
    match op
    case ClaimEntry(ticket, _) => ticket
    case Complete(ticket) => ticket
    case Cancel(ticket) => ticket
    case _ => 0
  }

  /** The first statements of a body, up to the lookup or the counter. */
  function Start(s: Storage, call: Call): Effect {
    match call.op
    case Begin(key) =>
      Effect(s.(nextTicket := Plus(s.nextTicket, 1)), More(TookTicket(call, s.nextTicket)), None)
    case ClaimEntry(ticket, key) =>
      if ticket !in s.tickets || s.tickets[ticket].key != key || s.tickets[ticket].state != Pending
      then Effect(s, Done(Claim(false), true), None)
      else Effect(s, More(Matched(call, s.tickets[ticket])), None)
    case Complete(ticket) =>
      if ticket !in s.tickets || s.tickets[ticket].state != Claimed
      then Effect(s, Done(NotClaimedOnce, true), None)
      else Effect(s, More(Located(call, s.tickets[ticket].key.address)), None)
    case Cancel(ticket) =>
      if ticket !in s.tickets then Effect(s, Done(NothingToCancel, true), None)
      else Effect(s, More(Located(call, s.tickets[ticket].key.address)), None)
    case PendingCount => Effect(s, Done(Count(|s.tickets|), true), None)
  }

  /** One statement of the body of the thread that holds the lock. */
  function Work(s: Storage, pc: Pc, done: bool): Effect
    requires pc.Working()
  {
    match pc
    case Entered(call) => Start(s, call)
    case TookTicket(call, ticket) =>
      var address := if call.op.Begin? then call.op.beginKey.address else 0;
      Effect(s, if done then More(Announced(call, ticket)) else Done(InvalidatorThrew, false),
             Some(Invalidation(address, done)))
    case Announced(call, ticket) =>
      if call.op.Begin? && ticket !in s.tickets
      then Effect(s.(tickets := s.tickets[ticket := TicketRecord(call.op.beginKey, Pending)]),
                  Done(Issued(ticket), true), None)
      else Effect(s, Done(Issued(ticket), true), None)
    case Matched(call, record) =>
      Effect(s.(tickets := s.tickets[TicketOf(call.op) := record.(state := Claimed)]),
             Done(Claim(true), true), None)
    case Located(call, address) =>
      Effect(s, if done then More(Revoked(call, address)) else Done(InvalidatorThrew, false),
             Some(Invalidation(address, done)))
    case Revoked(call, _) =>
      Effect(s.(tickets := s.tickets - {TicketOf(call.op)}), Done(Retired, true), None)
  }

  datatype Action =
    | Invoke(thread: Thread, op: Operation)
    | Acquire(thread: Thread)
    | Statement(thread: Thread, done: bool)
    | Release(thread: Thread)
    | Return(thread: Thread)

  /** A begin with an invalid key is rejected before the lock is taken. */
  predicate RejectedEarly(op: Operation) {
    op.Begin? && !op.beginKey.IsValid()
  }

  predicate Enabled(sys: System, a: Action) {
    match a
    case Invoke(t, _) => sys.PcOf(t).Idle?
    case Acquire(t) => sys.PcOf(t).Blocked? && sys.owner.None?
    case Statement(t, _) => sys.PcOf(t).Working()
    case Release(t) => sys.PcOf(t).Leaving?
    case Return(t) => sys.PcOf(t).Answered?
  }

  function Next(sys: System, a: Action): System
    requires Enabled(sys, a)
  {
    match a
    case Invoke(t, op) =>
      var call := Call(op, |sys.history|, |sys.delivered|);
      if RejectedEarly(op) then
        sys.(history := sys.history + [Record(t, Step(op, true))],
             pcs := sys.pcs[t := Answered(call, InvalidKey, |sys.history|)])
      else sys.(pcs := sys.pcs[t := Blocked(call)])
    case Acquire(t) =>
      var call := sys.PcOf(t).call;
      sys.(owner := Some(t), pcs := sys.pcs[t := Entered(call)], acquired := sys.acquired + [(t, call.op)])
    case Statement(t, done) =>
      var pc := sys.PcOf(t);
      var effect := Work(sys.storage, pc, done);
      var after := sys.(storage := effect.storage,
                        log := if effect.invalidation.Some? then sys.log + [effect.invalidation.value]
                               else sys.log);
      (match effect.progress
       case More(next) => after.(pcs := sys.pcs[t := next])
       case Done(response, ok) =>
         after.(history := sys.history + [Record(t, Step(pc.call.op, ok))],
                pcs := sys.pcs[t := Leaving(pc.call, response, |sys.history|)]))
    case Release(t) =>
      var Leaving(call, response, index) := sys.PcOf(t);
      sys.(owner := None, pcs := sys.pcs[t := Answered(call, response, index)])
    case Return(t) =>
      var Answered(call, response, index) := sys.PcOf(t);
      sys.(delivered := sys.delivered + [Delivery(t, call, response, index)],
           pcs := sys.pcs[t := Idle])
  }

  /** The system after a schedule; None if an action is not enabled when its turn comes. */
  function Exec(schedule: seq<Action>): Option<System> {
    if schedule == [] then Some(INITIAL)
    else
      var last := schedule[|schedule| - 1];
      match Exec(schedule[..|schedule| - 1])
      case None => None
      case Some(sys) => if Enabled(sys, last) then Some(Next(sys, last)) else None
  }

  function Steps(history: seq<Record>): seq<Step> {
    seq(|history|, i requires 0 <= i < |history| => history[i].step)
  }

  /** The response of the i-th operation of the sequential run. */
  function ResponseAt(h: seq<Step>, i: nat): Response
    requires i < |h|
  {
    Last(h[..i + 1]).response
  }

  /** The invalidator's log after the sequential run. */
  function LogOf(h: seq<Step>): seq<Invalidation> {
    if h == [] then []
    else
      LogOf(h[..|h| - 1])
      + if Last(h).invalidation.Some? then [Last(h).invalidation.value] else []
  }

  /** The operations that took the lock, in the order in which they took effect. */
  function LockOrder(history: seq<Record>): seq<(Thread, Operation)> {
    if history == [] then []
    else
      var last := history[|history| - 1];
      LockOrder(history[..|history| - 1])
      + if RejectedEarly(last.step.op) then [] else [(last.thread, last.step.op)]
  }

  /** How far the body has come, relative to the storage s and log l it started from. */
  predicate Partway(s: Storage, l: seq<Invalidation>, sys: System, pc: Pc)
    requires pc.Working()
  {
    var op := pc.call.op;
    && !RejectedEarly(op)
    && match pc
       case Entered(_) => sys.storage == s && sys.log == l
       case TookTicket(_, ticket) =>
         && op.Begin? && ticket == s.nextTicket
         && sys.storage == s.(nextTicket := Plus(ticket, 1)) && sys.log == l
       case Announced(_, ticket) =>
         && op.Begin? && ticket == s.nextTicket
         && sys.storage == s.(nextTicket := Plus(ticket, 1))
         && sys.log == l + [Invalidation(op.beginKey.address, true)]
       case Matched(_, record) =>
         && op.ClaimEntry? && op.claimed in s.tickets && s.tickets[op.claimed] == record
         && record == TicketRecord(op.claimKey, Pending)
         && sys.storage == s && sys.log == l
       case Located(_, address) =>
         Retiring(s, op, address) && sys.storage == s && sys.log == l
       case Revoked(_, address) =>
         Retiring(s, op, address) && sys.storage == s && sys.log == l + [Invalidation(address, true)]
  }

  predicate Retiring(s: Storage, op: Operation, address: u32) {
    && (op.Complete? || op.Cancel?)
    && TicketOf(op) in s.tickets && s.tickets[TicketOf(op)].key.address == address
    && (op.Complete? ==> s.tickets[TicketOf(op)].state == Claimed)
  }

  /** Mutual exclusion; and no thread waits to begin with an invalid key. */
  ghost predicate Exclusive(sys: System) {
    && (forall t: Thread :: sys.PcOf(t).Holding() <==> sys.owner == Some(t))
    && (forall t: Thread :: sys.PcOf(t).Blocked? ==> !RejectedEarly(sys.PcOf(t).call.op))
  }

  /** Some thread is in the middle of its body. */
  predicate BodyOpen(sys: System) {
    sys.owner.Some? && sys.PcOf(sys.owner.value).Working()
  }

  /** The shared state is the one of the sequential run, up to the statements the owner has made. */
  predicate Sequential(sys: System) {
    var h := Steps(sys.history);
    if BodyOpen(sys) then Partway(After(h), LogOf(h), sys, sys.PcOf(sys.owner.value))
    else sys.storage == After(h) && sys.log == LogOf(h)
  }

  /** Operations take effect in the order in which they got the lock. */
  predicate LockOrdered(sys: System) {
    sys.acquired == LockOrder(sys.history)
                    + if BodyOpen(sys) then [(sys.owner.value, sys.PcOf(sys.owner.value).call.op)] else []
  }

  ghost predicate SharedOk(sys: System) {
    Exclusive(sys) && Sequential(sys) && LockOrdered(sys)
  }

  /** A response that is what the sequential run answers at its position, at or after its call. */
  predicate Placed(history: seq<Record>, t: Thread, call: Call, response: Response, index: nat) {
    && call.effects <= index < |history|
    && history[index].thread == t && history[index].step.op == call.op
    && response == ResponseAt(Steps(history), index)
  }

  /** Everything delivered when the call was made had already taken effect. */
  predicate Timely(sys: System, call: Call) {
    && call.effects <= |sys.history| && call.deliveries <= |sys.delivered|
    && forall i :: 0 <= i < call.deliveries ==> sys.delivered[i].index < call.effects
  }

  /** A thread's own call is accounted for, and its response has not been handed back. */
  predicate PcOk(sys: System, t: Thread, pc: Pc) {
    && (!pc.Idle? ==> Timely(sys, pc.call))
    && (pc.Leaving? || pc.Answered? ==>
          && Placed(sys.history, t, pc.call, pc.response, pc.index)
          && forall i :: 0 <= i < |sys.delivered| ==> sys.delivered[i].index != pc.index)
  }

  ghost predicate CallsOk(sys: System) {
    (forall t: Thread :: PcOk(sys, t, sys.PcOf(t))) && DeliveriesOk(sys)
  }

  /** Every response handed back so far is the sequential one, no effect is handed back twice, and an
      operation that had returned before another was called took effect before it. */
  predicate DeliveriesOk(sys: System) {
    && (forall i :: 0 <= i < |sys.delivered| ==>
          var d := sys.delivered[i];
          Placed(sys.history, d.thread, d.call, d.response, d.index) && Timely(sys, d.call))
    && (forall i, j :: 0 <= i < j < |sys.delivered| ==> sys.delivered[i].index != sys.delivered[j].index)
  }

  lemma StepsAppend(history: seq<Record>, record: Record)
    ensures Steps(history + [record]) == Steps(history) + [record.step]
  {}

  lemma SequentialAppend(h: seq<Step>, step: Step)
    ensures var outcome := Execute(After(h), step.op, step.done);
            && After(h + [step]) == outcome.storage
            && ResponseAt(h + [step], |h|) == outcome.response
            && LogOf(h + [step])
               == LogOf(h) + if outcome.invalidation.Some? then [outcome.invalidation.value] else []
  {
    var longer := h + [step];
    assert longer[..|h|] == h && longer[..|h| + 1] == longer;
  }

  /** One statement keeps the account of how far the body has come; the last one completes exactly what
      the operation does in one step. */
  predicate StatementAgrees(s: Storage, l: seq<Invalidation>, sys: System, pc: Pc, done: bool)
    requires pc.Working()
  {
    var effect := Work(sys.storage, pc, done);
    var log := if effect.invalidation.Some? then sys.log + [effect.invalidation.value] else sys.log;
    match effect.progress
    case More(next) =>
      && next.Working() && next.call == pc.call
      && Partway(s, l, sys.(storage := effect.storage, log := log), next)
    case Done(response, ok) =>
      var outcome := Execute(s, pc.call.op, ok);
      && outcome.storage == effect.storage
      && outcome.response == response
      && log == l + if outcome.invalidation.Some? then [outcome.invalidation.value] else []
  }

  lemma FirstStatement(s: Storage, l: seq<Invalidation>, sys: System, pc: Pc, done: bool)
    requires pc.Entered? && Partway(s, l, sys, pc)
    ensures StatementAgrees(s, l, sys, pc, done)
  {}

  lemma LaterStatement(s: Storage, l: seq<Invalidation>, sys: System, pc: Pc, done: bool)
    requires pc.Working() && !pc.Entered? && Partway(s, l, sys, pc)
    ensures StatementAgrees(s, l, sys, pc, done)
  {}

  lemma BodyIsExecute(s: Storage, l: seq<Invalidation>, sys: System, pc: Pc, done: bool)
    requires pc.Working() && Partway(s, l, sys, pc)
    ensures StatementAgrees(s, l, sys, pc, done)
  {
    hide Partway, StatementAgrees;
    if pc.Entered? {
      FirstStatement(s, l, sys, pc, done);
    } else {
      LaterStatement(s, l, sys, pc, done);
    }
  }

  lemma OthersStay(sys: System, a: Action)
    requires Enabled(sys, a)
    ensures forall t: Thread :: t != a.thread ==> Next(sys, a).PcOf(t) == sys.PcOf(t)
  {}

  lemma NextKeepsExclusive(sys: System, a: Action)
    requires Exclusive(sys) && Enabled(sys, a)
    ensures Exclusive(Next(sys, a))
  {
    OthersStay(sys, a);
  }

  /** An operation taking effect, seen from the histories. */
  lemma EffectRecorded(sys: System, next: System, record: Record)
    requires next.history == sys.history + [record]
    ensures var (h, k) := (Steps(sys.history), Steps(next.history));
            var outcome := Execute(After(h), record.step.op, record.step.done);
            && After(k) == outcome.storage
            && ResponseAt(k, |h|) == outcome.response
            && LogOf(k) == LogOf(h) + (if outcome.invalidation.Some? then [outcome.invalidation.value] else [])
            && LockOrder(next.history)
               == LockOrder(sys.history)
                  + if RejectedEarly(record.step.op) then [] else [(record.thread, record.step.op)]
  {
    StepsAppend(sys.history, record);
    SequentialAppend(Steps(sys.history), record.step);
    assert next.history[..|sys.history|] == sys.history;
  }

  lemma StatementKeepsShared(sys: System, t: Thread, done: bool)
    requires SharedOk(sys) && Enabled(sys, Statement(t, done))
    ensures var next := Next(sys, Statement(t, done)); Sequential(next) && LockOrdered(next)
  {
    hide Work, Execute, After, LogOf, LockOrder;
    var (h, pc, next) := (Steps(sys.history), sys.PcOf(t), Next(sys, Statement(t, done)));
    assert sys.owner == Some(t);
    BodyIsExecute(After(h), LogOf(h), sys, pc, done);
    var progress := Work(sys.storage, pc, done).progress;
    if progress.Done? {
      EffectRecorded(sys, next, Record(t, Step(pc.call.op, progress.done)));
    }
  }

  lemma EarlyRejection(s: Storage, op: Operation)
    requires RejectedEarly(op)
    ensures Execute(s, op, true) == Outcome(s, InvalidKey, None)
  {}

  lemma InvokeKeepsShared(sys: System, t: Thread, op: Operation)
    requires SharedOk(sys) && Enabled(sys, Invoke(t, op))
    ensures var next := Next(sys, Invoke(t, op)); Sequential(next) && LockOrdered(next)
  {
    hide Execute, After, LogOf, LockOrder, Work;
    var next := Next(sys, Invoke(t, op));
    assert sys.owner != Some(t);
    if RejectedEarly(op) {
      EffectRecorded(sys, next, Record(t, Step(op, true)));
      EarlyRejection(After(Steps(sys.history)), op);
      assert After(Steps(next.history)) == After(Steps(sys.history));
    }
  }

  lemma LockKeepsShared(sys: System, a: Action)
    requires SharedOk(sys) && Enabled(sys, a) && (a.Acquire? || a.Release? || a.Return?)
    ensures Sequential(Next(sys, a)) && LockOrdered(Next(sys, a))
  {
    if a.Release? {
      assert sys.owner == Some(a.thread);
    }
  }

  lemma NextKeepsShared(sys: System, a: Action)
    requires SharedOk(sys) && Enabled(sys, a)
    ensures SharedOk(Next(sys, a))
  {
    NextKeepsExclusive(sys, a);
    match a
    case Invoke(t, op) => InvokeKeepsShared(sys, t, op);
    case Statement(t, done) => StatementKeepsShared(sys, t, done);
    case _ => LockKeepsShared(sys, a);
  }

  lemma PlacedGrows(history: seq<Record>, record: Record, t: Thread, call: Call, response: Response,
                    index: nat)
    requires Placed(history, t, call, response, index)
    ensures Placed(history + [record], t, call, response, index)
  {
    assert Steps(history + [record])[..index + 1] == Steps(history)[..index + 1];
  }

  lemma HistoryGrowthKeepsCalls(sys: System, record: Record)
    requires CallsOk(sys)
    ensures CallsOk(sys.(history := sys.history + [record]))
  {
    var longer := sys.(history := sys.history + [record]);
    forall t: Thread ensures PcOk(longer, t, longer.PcOf(t)) {
      var pc := sys.PcOf(t);
      assert PcOk(sys, t, pc);
      if pc.Leaving? || pc.Answered? {
        PlacedGrows(sys.history, record, t, pc.call, pc.response, pc.index);
      }
    }
    forall i | 0 <= i < |sys.delivered|
      ensures var d := sys.delivered[i]; Placed(longer.history, d.thread, d.call, d.response, d.index)
    {
      var d := sys.delivered[i];
      PlacedGrows(sys.history, record, d.thread, d.call, d.response, d.index);
    }
  }

  /** Moving one thread, with the histories unchanged. */
  lemma MoveKeepsCalls(sys: System, next: System, t: Thread)
    requires CallsOk(sys)
    requires next.history == sys.history && next.delivered == sys.delivered
    requires forall u: Thread :: u != t ==> next.PcOf(u) == sys.PcOf(u)
    requires PcOk(next, t, next.PcOf(t))
    ensures CallsOk(next)
  {
    forall u: Thread ensures PcOk(next, u, next.PcOf(u)) {
      assert PcOk(sys, u, sys.PcOf(u));
    }
  }

  /** An operation takes effect: its response is the sequential one at its position. */
  lemma EffectKeepsCalls(sys: System, next: System, record: Record, call: Call, response: Response)
    requires CallsOk(sys) && Timely(sys, call) && record.step.op == call.op
    requires next.history == sys.history + [record] && next.delivered == sys.delivered
    requires forall u: Thread :: u != record.thread ==> next.PcOf(u) == sys.PcOf(u)
    requires var pc := next.PcOf(record.thread);
             pc == Leaving(call, response, |sys.history|) || pc == Answered(call, response, |sys.history|)
    requires response == Execute(After(Steps(sys.history)), record.step.op, record.step.done).response
    ensures CallsOk(next)
  {
    HistoryGrowthKeepsCalls(sys, record);
    EffectRecorded(sys, next, record);
    MoveKeepsCalls(sys.(history := next.history), next, record.thread);
  }

  lemma ReturnKeepsCalls(sys: System, t: Thread)
    requires CallsOk(sys) && sys.PcOf(t).Answered?
    ensures CallsOk(Next(sys, Return(t)))
  {
    var (pc, next) := (sys.PcOf(t), Next(sys, Return(t)));
    assert PcOk(sys, t, pc);
    forall u: Thread ensures PcOk(next, u, next.PcOf(u)) {
      assert PcOk(sys, u, sys.PcOf(u));
    }
  }

  lemma NextKeepsCalls(sys: System, a: Action)
    requires SharedOk(sys) && CallsOk(sys) && Enabled(sys, a)
    ensures CallsOk(Next(sys, a))
  {
    var (next, t, pc) := (Next(sys, a), a.thread, sys.PcOf(a.thread));
    assert PcOk(sys, t, pc);
    OthersStay(sys, a);
    match a
    case Invoke(_, op) =>
      var call := Call(op, |sys.history|, |sys.delivered|);
      if RejectedEarly(op) {
        EffectKeepsCalls(sys, next, Record(t, Step(op, true)), call, InvalidKey);
      } else {
        MoveKeepsCalls(sys, next, t);
      }
    case Statement(_, done) =>
      assert sys.owner == Some(t);
      BodyIsExecute(After(Steps(sys.history)), LogOf(Steps(sys.history)), sys, pc, done);
      var progress := Work(sys.storage, pc, done).progress;
      if progress.Done? {
        EffectKeepsCalls(sys, next, Record(t, Step(pc.call.op, progress.done)), pc.call, progress.response);
      } else {
        MoveKeepsCalls(sys, next, t);
      }
    case Acquire(_) => MoveKeepsCalls(sys, next, t);
    case Release(_) => MoveKeepsCalls(sys, next, t);
    case Return(_) => ReturnKeepsCalls(sys, t);
  }

  lemma {:induction false} ExecKeeps(schedule: seq<Action>)
    ensures Exec(schedule).Some? ==> SharedOk(Exec(schedule).value) && CallsOk(Exec(schedule).value)
  {
    if schedule == [] {
      assert Steps(INITIAL.history) == [];
    } else if Exec(schedule).Some? {
      var before, last := schedule[..|schedule| - 1], schedule[|schedule| - 1];
      ExecKeeps(before);
      NextKeepsShared(Exec(before).value, last);
      NextKeepsCalls(Exec(before).value, last);
    }
  }

  /** Linearizability. In every reachable state of every schedule, the history of effects, replayed one
      operation at a time, answers every response that was handed back; no effect is handed back
      twice; an operation that returned before another was called comes before it; operations take
      effect in lock order; and whenever the lock is free the storage and the invalidator's log are
      exactly those of the sequential run. */
  lemma EveryScheduleIsSequential(schedule: seq<Action>)
    requires Exec(schedule).Some?
    ensures var sys := Exec(schedule).value;
            var h := Steps(sys.history);
            && DeliveriesOk(sys)
            && (sys.owner.None? ==>
                  && sys.storage == After(h)
                  && sys.log == LogOf(h)
                  && sys.acquired == LockOrder(sys.history))
            && LockOrder(sys.history) <= sys.acquired
  {
    ExecKeeps(schedule);
  }

  /** In every schedule, a response that was handed back is the one that the operations before it in the
      order of effects demand. */
  lemma DeliveredAnswersFollowLives(schedule: seq<Action>, i: nat)
    requires Exec(schedule).Some? && i < |Exec(schedule).value.delivered|
    requires Begins(Steps(Exec(schedule).value.history)) < TWO_64
    ensures var sys := Exec(schedule).value;
            var d := sys.delivered[i];
            && d.index < |sys.history|
            && var h := Steps(sys.history);
            Answers(h[..d.index], d.call.op, h[d.index].done, d.response,
                    Execute(After(h[..d.index]), d.call.op, h[d.index].done).invalidation)
  {
    ExecKeeps(schedule);
    var sys := Exec(schedule).value;
    var (d, h) := (sys.delivered[i], Steps(sys.history));
    assert Placed(sys.history, d.thread, d.call, d.response, d.index);
    assert h[..d.index + 1][..d.index] == h[..d.index];
    BeginsPrefix(h, d.index);
    AnswersFollowLives(h[..d.index], d.call.op, h[d.index].done);
  }

  lemma {:induction false} BeginsPrefix(h: seq<Step>, n: nat)
    requires n <= |h|
    ensures Begins(h[..n]) <= Begins(h)
    decreases |h| - n
  {
    if n < |h| {
      assert h[..n + 1][..n] == h[..n];
      BeginsPrefix(h, n + 1);
    } else {
      assert h[..n] == h;
    }
  }

  /** Whoever is not idle can act, unless it waits for a lock that another thread holds, and then that
      thread can. */
  lemma NeverStuck(schedule: seq<Action>, t: Thread)
    requires Exec(schedule).Some? && !Exec(schedule).value.PcOf(t).Idle?
    ensures var sys := Exec(schedule).value;
            || Enabled(sys, Acquire(t)) || Enabled(sys, Statement(t, true)) || Enabled(sys, Release(t))
            || Enabled(sys, Return(t))
            || (sys.owner.Some? && (Enabled(sys, Statement(sys.owner.value, true))
                                    || Enabled(sys, Release(sys.owner.value))))
  {
    ExecKeeps(schedule);
    hide Exec, Sequential, LockOrdered, CallsOk;
    var sys := Exec(schedule).value;
    if sys.owner.Some? {
      OwnerCanAct(sys);
    }
    hide Exclusive;
  }

  lemma OwnerCanAct(sys: System)
    requires Exclusive(sys) && sys.owner.Some?
    ensures Enabled(sys, Statement(sys.owner.value, true)) || Enabled(sys, Release(sys.owner.value))
  {
    assert sys.PcOf(sys.owner.value).Holding();
  }

  /** Mutual exclusion in every reachable state. */
  lemma OneThreadInside(schedule: seq<Action>, t: Thread, u: Thread)
    requires Exec(schedule).Some?
    requires Exec(schedule).value.PcOf(t).Holding() && Exec(schedule).value.PcOf(u).Holding()
    ensures t == u
  {
    ExecKeeps(schedule);
  }

  lemma {:induction false} TwoClaimsWon(h: seq<Step>, i: nat, j: nat, ticket: u64)
    requires i < j < |h|
    requires h[i].op.ClaimEntry? && h[i].op.claimed == ticket && ResponseAt(h, i) == Claim(true)
    requires h[j].op.ClaimEntry? && h[j].op.claimed == ticket && ResponseAt(h, j) == Claim(true)
    ensures ClaimsWon(h, ticket) >= 2
  {
    assert h[..|h|] == h;
    ClaimCounted(h, i, j, ticket);
    ClaimCounted(h, j, |h|, ticket);
  }

  /** A successful claim at i separates the counts before and after it. */
  lemma {:induction false} ClaimCounted(h: seq<Step>, i: nat, n: nat, ticket: u64)
    requires i < n <= |h|
    requires h[i].op.ClaimEntry? && h[i].op.claimed == ticket && ResponseAt(h, i) == Claim(true)
    ensures ClaimsWon(h[..i], ticket) + 1 <= ClaimsWon(h[..n], ticket)
    decreases n
  {
    assert h[..n][..n - 1] == h[..n - 1];
    if i + 1 < n {
      ClaimCounted(h, i, n - 1, ticket);
    }
  }

  /** The claim race: of all callers that were ever told they won a ticket, there is at most one. */
  lemma ClaimRaceHasOneWinner(schedule: seq<Action>, i: nat, j: nat)
    requires Exec(schedule).Some? && Begins(Steps(Exec(schedule).value.history)) < TWO_64
    requires var delivered := Exec(schedule).value.delivered;
             && i < |delivered| && j < |delivered|
             && delivered[i].call.op.ClaimEntry? && delivered[j].call.op.ClaimEntry?
             && delivered[i].response == delivered[j].response == Claim(true)
             && delivered[i].call.op.claimed == delivered[j].call.op.claimed
    ensures i == j
  {
    ExecKeeps(schedule);
    var sys := Exec(schedule).value;
    var h := Steps(sys.history);
    var (d, e) := (sys.delivered[i], sys.delivered[j]);
    var ticket := d.call.op.claimed;
    assert h[..|h|] == h;
    if d.index != e.index {
      TwoClaimsWon(h, Min(d.index, e.index), if d.index < e.index then e.index else d.index, ticket);
      AtMostOneClaim(h, ticket);
    }
  }
}
