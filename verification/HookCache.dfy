/** Translated code captures hook decisions. The registry's reader/writer lock and its
    invalidate-before-write order keep those decisions in agreement with the table, provided that no
    mutation starts while a decision at its address has been looked up and not yet published. */
module HookCache {
  import opened Words
  import opened HookKeys
  import opened NativeHooks

  type Thread = nat

  /** Mutating threads go through Wanting, Locked, Cleared, Written; translating threads through
      Asking, Reading, Knowing and Captured, after which the decision is published. */
  datatype Pc =
    | Idle
    | Wanting(op: Operation)
    | Locked(op: Operation)
    | Cleared(op: Operation)
    | Written(op: Operation)
    | Asking(key: HookKey)
    | Reading(key: HookKey)
    | Knowing(key: HookKey, decision: Option<NativeHook>)
    | Captured(key: HookKey, decision: Option<NativeHook>)
  {
    predicate Writes() {
      Locked? || Cleared? || Written?
    }

    predicate Reads() {
      Reading? || Knowing?
    }
  }

  datatype System = System(
    hooks: Hooks,
    cache: map<HookKey, Option<NativeHook>>,
    writer: Option<Thread>,
    readers: set<Thread>,
    pcs: map<Thread, Pc>,
    history: seq<Step>)
  {
    function PcOf(t: Thread): Pc {
      if t in pcs then pcs[t] else Idle
    }
  }

  const INITIAL: System := System(map[], map[], None, {}, map[], [])

  function AddressOf(op: Operation): u32 {
    match op
    case Install(key, _) => key.address
    case Remove(key) => key.address
    case _ => 0
  }

  /** The operations that reach the exclusive lock. */
  predicate Mutation(op: Operation) {
    || (op.Install? && op.installKey.IsValid() && op.hook.Callback?)
    || (op.Remove? && op.removeKey.IsValid())
  }

  /** Dropping every cached decision at an address. */
  function Drop(cache: map<HookKey, Option<NativeHook>>, address: u32): map<HookKey, Option<NativeHook>> {
    map key | key in cache && key.address != address :: cache[key]
  }

  datatype Action =
    | Mutate(thread: Thread, op: Operation)
    | Translate(thread: Thread, key: HookKey)
    | Acquire(thread: Thread)
    | Invalidate(thread: Thread, done: bool, kept: set<HookKey>)
    | Write(thread: Thread)
    | Lookup(thread: Thread)
    | Release(thread: Thread)
    | Publish(thread: Thread)
    | Forget(key: HookKey)

  /** No decision is on its way from the registry into translated code. */
  ghost predicate SafePoint(sys: System) {
    forall t: Thread :: !sys.PcOf(t).Captured?
  }

  /** What the locks allow; the safe-point rule is not part of it. */
  predicate Enabled(sys: System, a: Action) {
    match a
    case Mutate(t, op) => sys.PcOf(t).Idle? && Mutation(op)
    case Translate(t, key) => sys.PcOf(t).Idle? && key.IsValid()
    case Acquire(t) =>
      || (sys.PcOf(t).Wanting? && sys.writer.None? && sys.readers == {})
      || (sys.PcOf(t).Asking? && sys.writer.None?)
    case Invalidate(t, _, _) =>
      sys.PcOf(t).Locked? && (sys.PcOf(t).op.Remove? ==> sys.PcOf(t).op.removeKey in sys.hooks)
    case Write(t) => sys.PcOf(t).Cleared?
    case Lookup(t) => sys.PcOf(t).Reading?
    case Release(t) =>
      || sys.PcOf(t).Written?
      || sys.PcOf(t).Knowing?
      || (sys.PcOf(t).Locked? && sys.PcOf(t).op.Remove? && sys.PcOf(t).op.removeKey !in sys.hooks)
    case Publish(t) => sys.PcOf(t).Captured?
    case Forget(key) => key in sys.cache
  }

  /** A registry operation enters the history when it writes, looks up, fails, or finds nothing. */
  function Next(sys: System, a: Action): System
    requires Enabled(sys, a)
  {
    match a
    case Mutate(t, op) => sys.(pcs := sys.pcs[t := Wanting(op)])
    case Translate(t, key) => sys.(pcs := sys.pcs[t := Asking(key)])
    case Acquire(t) =>
      if sys.PcOf(t).Wanting?
      then sys.(writer := Some(t), pcs := sys.pcs[t := Locked(sys.PcOf(t).op)])
      else sys.(readers := sys.readers + {t}, pcs := sys.pcs[t := Reading(sys.PcOf(t).key)])
    case Invalidate(t, done, kept) =>
      var op := sys.PcOf(t).op;
      if done then sys.(cache := Drop(sys.cache, AddressOf(op)), pcs := sys.pcs[t := Cleared(op)])
      else sys.(cache := map key | key in sys.cache && key in kept :: sys.cache[key],
                pcs := sys.pcs[t := Written(op)], history := sys.history + [Step(op, false)])
    case Write(t) =>
      var op := sys.PcOf(t).op;
      sys.(hooks := Execute(sys.hooks, op, true).hooks,
           pcs := sys.pcs[t := Written(op)], history := sys.history + [Step(op, true)])
    case Lookup(t) =>
      var key := sys.PcOf(t).key;
      sys.(pcs := sys.pcs[t := Knowing(key, Decision(sys.hooks, key))],
           history := sys.history + [Step(Find(key), true)])
    case Release(t) =>
      if sys.PcOf(t).Knowing?
      then sys.(readers := sys.readers - {t},
                pcs := sys.pcs[t := Captured(sys.PcOf(t).key, sys.PcOf(t).decision)])
      else if sys.PcOf(t).Written? then sys.(writer := None, pcs := sys.pcs[t := Idle])
      else sys.(writer := None, pcs := sys.pcs[t := Idle], history := sys.history + [Step(sys.PcOf(t).op, true)])
    case Publish(t) =>
      sys.(cache := sys.cache[sys.PcOf(t).key := sys.PcOf(t).decision], pcs := sys.pcs[t := Idle])
    case Forget(key) => sys.(cache := sys.cache - {key})
  }

  /** A removal of an absent key neither invalidates nor writes. */
  predicate Changes(sys: System, op: Operation) {
    op.Remove? ==> op.removeKey in sys.hooks
  }

  ghost predicate NoneCapturedAt(sys: System, address: u32) {
    forall t: Thread :: sys.PcOf(t).Captured? ==> sys.PcOf(t).key.address != address
  }

  /** A decision for the mutation's own key, other than the one it leads to. */
  predicate Differs(op: Operation, key: HookKey, decision: Option<NativeHook>) {
    match op
    case Install(own, hook) => key == own && decision != Some(hook)
    case Remove(own) => key == own && decision != None
    case _ => false
  }

  ghost predicate NoneCapturedDiffers(sys: System, op: Operation) {
    forall t: Thread :: sys.PcOf(t).Captured? ==> !Differs(op, sys.PcOf(t).key, sys.PcOf(t).decision)
  }

  /** Two rules for starting a mutation, by what may not be on its way meanwhile: any decision at the
      address, or only one that the mutation makes wrong. */
  datatype Rule = NoneThere | NoneDiffers

  ghost predicate Quiet(rule: Rule, sys: System, op: Operation) {
    match rule
    case NoneThere => NoneCapturedAt(sys, AddressOf(op))
    case NoneDiffers => NoneCapturedDiffers(sys, op)
  }

  ghost predicate Obeys(rule: Rule, sys: System, a: Action) {
    a.Acquire? && sys.PcOf(a.thread).Wanting? && Changes(sys, sys.PcOf(a.thread).op) ==>
      Quiet(rule, sys, sys.PcOf(a.thread).op)
  }

  function Exec(schedule: seq<Action>): Option<System> {
    if schedule == [] then Some(INITIAL)
    else
      var last := schedule[|schedule| - 1];
      match Exec(schedule[..|schedule| - 1])
      case None => None
      case Some(sys) => if Enabled(sys, last) then Some(Next(sys, last)) else None
  }

  /** Every mutation from the n-th action on obeys the rule. */
  ghost predicate SafeFrom(rule: Rule, schedule: seq<Action>, n: nat) {
    forall i :: n <= i < |schedule| && Exec(schedule[..i]).Some? ==>
                  Obeys(rule, Exec(schedule[..i]).value, schedule[i])
  }

  ghost predicate Safe(rule: Rule, schedule: seq<Action>) {
    SafeFrom(rule, schedule, 0)
  }

  /** The rule the registry's header puts on its callers: a mutation takes place at a safe point. */
  ghost predicate AtSafePoints(schedule: seq<Action>) {
    forall i :: 0 <= i < |schedule| && Exec(schedule[..i]).Some? && schedule[i].Acquire?
                && Exec(schedule[..i]).value.PcOf(schedule[i].thread).Wanting? ==>
                  SafePoint(Exec(schedule[..i]).value)
  }

  ghost predicate LocksHeld(rule: Rule, sys: System) {
    && (forall t: Thread :: sys.PcOf(t).Writes() <==> sys.writer == Some(t))
    && (forall t: Thread :: sys.PcOf(t).Reads() <==> t in sys.readers)
    && (sys.writer.Some? ==> sys.readers == {} && Unobserved(rule, sys, sys.PcOf(sys.writer.value)))
    && (forall t: Thread :: sys.PcOf(t).Writes() || sys.PcOf(t).Wanting? ==> Mutation(sys.PcOf(t).op))
  }

  /** From a mutation's start to its write, the rule goes on holding. */
  ghost predicate Unobserved(rule: Rule, sys: System, pc: Pc) {
    (pc.Locked? && Changes(sys, pc.op)) || pc.Cleared? ==> Quiet(rule, sys, pc.op)
  }

  /** Cached decisions are the registry's. */
  predicate Coherent(sys: System) {
    forall key :: key in sys.cache ==> sys.cache[key] == Decision(sys.hooks, key)
  }

  /** From the invalidation until the write, nothing at the address is cached. */
  predicate ClearedHolds(sys: System) {
    sys.writer.Some? && sys.PcOf(sys.writer.value).Cleared? ==>
      forall key :: key in sys.cache ==> key.address != AddressOf(sys.PcOf(sys.writer.value).op)
  }

  /** Or at least nothing that the write will make wrong. */
  predicate NoneCachedDiffers(sys: System) {
    sys.writer.Some? && sys.PcOf(sys.writer.value).Cleared? ==>
      forall key :: key in sys.cache ==> !Differs(sys.PcOf(sys.writer.value).op, key, sys.cache[key])
  }

  /** What is cached between an invalidation and its write. */
  predicate Behind(rule: Rule, sys: System) {
    match rule
    case NoneThere => ClearedHolds(sys)
    case NoneDiffers => NoneCachedDiffers(sys)
  }

  /** Decisions on their way are the registry's. */
  ghost predicate InFlightCurrent(sys: System) {
    forall t: Thread :: sys.PcOf(t).Knowing? || sys.PcOf(t).Captured? ==>
                          sys.PcOf(t).decision == Decision(sys.hooks, sys.PcOf(t).key)
  }

  ghost predicate Invariant(rule: Rule, sys: System) {
    LocksHeld(rule, sys) && Coherent(sys) && Behind(rule, sys) && InFlightCurrent(sys)
  }

  lemma OthersStay(sys: System, a: Action, t: Thread)
    requires Enabled(sys, a) && (a.Forget? || t != a.thread)
    ensures Next(sys, a).PcOf(t) == sys.PcOf(t)
  {}

  lemma NextKeepsWriter(rule: Rule, sys: System, a: Action)
    requires LocksHeld(rule, sys) && Enabled(sys, a)
    ensures var next := Next(sys, a);
            forall t: Thread ::
              && (next.PcOf(t).Writes() <==> next.writer == Some(t))
              && (next.PcOf(t).Writes() || next.PcOf(t).Wanting? ==> Mutation(next.PcOf(t).op))
  {
    var next := Next(sys, a);
    forall t: Thread
      ensures next.PcOf(t).Writes() <==> next.writer == Some(t)
      ensures next.PcOf(t).Writes() || next.PcOf(t).Wanting? ==> Mutation(next.PcOf(t).op)
    {
      WriterAt(rule, sys, a, t);
    }
  }

  lemma WriterAt(rule: Rule, sys: System, a: Action, t: Thread)
    requires LocksHeld(rule, sys) && Enabled(sys, a)
    ensures var next := Next(sys, a);
            && (next.PcOf(t).Writes() <==> next.writer == Some(t))
            && (next.PcOf(t).Writes() || next.PcOf(t).Wanting? ==> Mutation(next.PcOf(t).op))
  {
    assert sys.PcOf(t).Writes() <==> sys.writer == Some(t);
    assert sys.PcOf(t).Writes() || sys.PcOf(t).Wanting? ==> Mutation(sys.PcOf(t).op);
    if !a.Forget? {
      assert sys.PcOf(a.thread).Writes() <==> sys.writer == Some(a.thread);
      hide LocksHeld, Mutation;
      if t != a.thread {
        OthersStay(sys, a, t);
      }
    }
  }

  lemma NextKeepsReaders(rule: Rule, sys: System, a: Action)
    requires LocksHeld(rule, sys) && Enabled(sys, a)
    ensures var next := Next(sys, a); forall t: Thread :: next.PcOf(t).Reads() <==> t in next.readers
  {
    forall t: Thread ensures Next(sys, a).PcOf(t).Reads() <==> t in Next(sys, a).readers {
      ReaderAt(rule, sys, a, t);
    }
  }

  lemma ReaderAt(rule: Rule, sys: System, a: Action, t: Thread)
    requires LocksHeld(rule, sys) && Enabled(sys, a)
    ensures Next(sys, a).PcOf(t).Reads() <==> t in Next(sys, a).readers
  {
    assert sys.PcOf(t).Reads() <==> t in sys.readers;
    if !a.Forget? && t != a.thread {
      hide LocksHeld;
      OthersStay(sys, a, t);
    }
  }

  /** An invalidation that goes through drops the decisions at its address, and no others. */
  lemma InvalidationDrops(sys: System, t: Thread, key: HookKey)
    requires Enabled(sys, Invalidate(t, true, {}))
    ensures var next := Next(sys, Invalidate(t, true, {}));
            && (key in next.cache <==> key in sys.cache && key.address != AddressOf(sys.PcOf(t).op))
            && (key in next.cache ==> next.cache[key] == sys.cache[key])
  {}

  /** While a thread mutates, no decision is newly captured. */
  lemma CapturedBefore(rule: Rule, sys: System, a: Action, t: Thread)
    requires LocksHeld(rule, sys) && Enabled(sys, a)
    requires Next(sys, a).writer.Some? && Next(sys, a).PcOf(t).Captured?
    ensures sys.PcOf(t) == Next(sys, a).PcOf(t)
  {
    hide Unobserved;
    assert sys.PcOf(t).Reads() <==> t in sys.readers;
  }

  lemma NextKeepsQuiet(rule: Rule, sys: System, a: Action)
    requires LocksHeld(rule, sys) && Enabled(sys, a) && Obeys(rule, sys, a)
    ensures var next := Next(sys, a);
            next.writer.Some? ==> next.readers == {} && Unobserved(rule, next, next.PcOf(next.writer.value))
  {
    var next := Next(sys, a);
    if next.writer.Some? {
      forall t: Thread | next.PcOf(t).Captured? ensures sys.PcOf(t) == next.PcOf(t) {
        CapturedBefore(rule, sys, a, t);
      }
    }
  }

  lemma NextKeepsLocks(rule: Rule, sys: System, a: Action)
    requires LocksHeld(rule, sys) && Enabled(sys, a) && Obeys(rule, sys, a)
    ensures LocksHeld(rule, Next(sys, a))
  {
    NextKeepsWriter(rule, sys, a);
    NextKeepsReaders(rule, sys, a);
    NextKeepsQuiet(rule, sys, a);
    hide Unobserved, Mutation, Next;
  }

  /** What a write does to one key. */
  lemma WriteDecides(hooks: Hooks, op: Operation, key: HookKey, decision: Option<NativeHook>)
    requires Mutation(op) && decision == Decision(hooks, key) && !Differs(op, key, decision)
    ensures decision == Decision(Execute(hooks, op, true).hooks, key)
  {}

  lemma NextKeepsCache(rule: Rule, sys: System, a: Action)
    requires Invariant(rule, sys) && Enabled(sys, a)
    ensures Coherent(Next(sys, a)) && Behind(rule, Next(sys, a))
  {
    if a.Write? {
      assert sys.writer == Some(a.thread);
      forall key | key in sys.cache ensures sys.cache[key] == Decision(Next(sys, a).hooks, key) {
        WriteDecides(sys.hooks, sys.PcOf(a.thread).op, key, sys.cache[key]);
      }
    } else if a.Invalidate? {
      assert sys.writer == Some(a.thread);
    } else if a.Publish? && sys.writer.Some? && sys.PcOf(sys.writer.value).Cleared? {
      WriterAlone(rule, sys, sys.writer.value);
    }
  }

  lemma WriterAlone(rule: Rule, sys: System, t: Thread)
    requires LocksHeld(rule, sys) && sys.PcOf(t).Cleared?
    ensures forall u: Thread :: !sys.PcOf(u).Knowing?
    ensures Quiet(rule, sys, sys.PcOf(t).op)
  {
    assert sys.writer == Some(t);
    forall u: Thread ensures !sys.PcOf(u).Knowing? {
      assert sys.PcOf(u).Reads() <==> u in sys.readers;
    }
  }

  lemma NextKeepsInFlight(rule: Rule, sys: System, a: Action)
    requires LocksHeld(rule, sys) && InFlightCurrent(sys) && Enabled(sys, a)
    ensures InFlightCurrent(Next(sys, a))
  {
    var next := Next(sys, a);
    if a.Write? {
      WriterAlone(rule, sys, a.thread);
    }
    forall t: Thread | next.PcOf(t).Knowing? || next.PcOf(t).Captured?
      ensures next.PcOf(t).decision == Decision(next.hooks, next.PcOf(t).key)
    {
      assert a.Forget? || t != a.thread ==> next.PcOf(t) == sys.PcOf(t);
      if a.Write? {
        WriteDecides(sys.hooks, sys.PcOf(a.thread).op, sys.PcOf(t).key, sys.PcOf(t).decision);
      }
    }
  }

  lemma {:induction false} ExecKeeps(rule: Rule, schedule: seq<Action>)
    requires Safe(rule, schedule) && Exec(schedule).Some?
    ensures Invariant(rule, Exec(schedule).value)
  {
    if schedule != [] {
      var n := |schedule| - 1;
      var before := schedule[..n];
      assert forall i :: 0 <= i < n ==> before[..i] == schedule[..i];
      ExecKeeps(rule, before);
      hide Next, Enabled, Obeys, LocksHeld, InFlightCurrent, Coherent, Behind;
      NextKeepsLocks(rule, Exec(before).value, schedule[n]);
      NextKeepsCache(rule, Exec(before).value, schedule[n]);
      NextKeepsInFlight(rule, Exec(before).value, schedule[n]);
    }
  }

  /** Hook/cache coherence: when every mutation obeys the rule of the address, then in every reachable
      state each cached decision is the registry's own, nothing is cached at an address between its
      invalidation and the write of the table, and at most one thread is mutating, with no reader. */
  lemma CacheAgreesWithRegistry(schedule: seq<Action>)
    requires Safe(NoneThere, schedule) && Exec(schedule).Some?
    ensures var sys := Exec(schedule).value;
            && Coherent(sys)
            && ClearedHolds(sys)
            && (forall t: Thread, u: Thread ::
                  sys.PcOf(t).Writes() ==> !sys.PcOf(u).Reads() && (sys.PcOf(u).Writes() ==> t == u))
  {
    ExecKeeps(NoneThere, schedule);
  }

  /** For the agreement alone the weaker rule is enough. */
  lemma CacheAgreesUnderEitherRule(rule: Rule, schedule: seq<Action>)
    requires Safe(rule, schedule) && Exec(schedule).Some?
    ensures Coherent(Exec(schedule).value)
  {
    ExecKeeps(rule, schedule);
  }

  lemma AddressCoversKey(rule: Rule, sys: System, op: Operation)
    requires NoneCapturedAt(sys, AddressOf(op))
    ensures Quiet(rule, sys, op)
  {}

  /** Mutating at safe points, as the header demands, is more than either rule asks for. */
  lemma SafePointsSuffice(rule: Rule, schedule: seq<Action>)
    requires AtSafePoints(schedule)
    ensures Safe(rule, schedule)
  {}

  // The registry behind the cache is the sequential one.

  /** The step that an action adds to the history, if any, is what it does to the table. */
  lemma NextRecords(sys: System, a: Action)
    requires Enabled(sys, a)
    ensures var next := Next(sys, a);
            || (next.hooks == sys.hooks && next.history == sys.history)
            || exists step: Step :: next.history == sys.history + [step]
                                    && next.hooks == Execute(sys.hooks, step.op, step.done).hooks
  {
    var next := Next(sys, a);
    match a
    case Invalidate(t, done, _) =>
      if !done {
        var step := Step(sys.PcOf(t).op, false);
        assert next.history == sys.history + [step] && Execute(sys.hooks, step.op, false).hooks == sys.hooks;
      }
    case Write(t) =>
      var step := Step(sys.PcOf(t).op, true);
      assert next.history == sys.history + [step];
    case Lookup(t) =>
      var step := Step(Find(sys.PcOf(t).key), true);
      assert next.history == sys.history + [step] && Execute(sys.hooks, step.op, true).hooks == sys.hooks;
    case Release(t) =>
      if sys.PcOf(t).Locked? {
        var step := Step(sys.PcOf(t).op, true);
        assert next.history == sys.history + [step] && Execute(sys.hooks, step.op, true).hooks == sys.hooks;
      }
    case _ =>
  }

  lemma NextKeepsHistory(sys: System, a: Action)
    requires Enabled(sys, a) && sys.hooks == After(sys.history)
    ensures Next(sys, a).hooks == After(Next(sys, a).history)
  {
    NextRecords(sys, a);
    var next := Next(sys, a);
    hide Next, Enabled;
    if step: Step :| next.history == sys.history + [step]
                     && next.hooks == Execute(sys.hooks, step.op, step.done).hooks {
      AfterAppend(sys.history, step);
    }
  }

  /** In every schedule, safe or not, the table is what the operations did, one after another. */
  lemma {:induction false} RegistryIsSequential(schedule: seq<Action>)
    requires Exec(schedule).Some?
    ensures Exec(schedule).value.hooks == After(Exec(schedule).value.history)
  {
    if schedule != [] {
      var before := schedule[..|schedule| - 1];
      RegistryIsSequential(before);
      NextKeepsHistory(Exec(before).value, schedule[|schedule| - 1]);
    }
  }

  /** So a cached decision is the key's own last successful install or removal. */
  lemma CachedByLastWrite(rule: Rule, schedule: seq<Action>, key: HookKey)
    requires Safe(rule, schedule) && Exec(schedule).Some? && key in Exec(schedule).value.cache
    ensures var sys := Exec(schedule).value;
            sys.cache[key] == match LastWrite(sys.history, key)
                              case Some(Install(_, hook)) => Some(hook)
                              case _ => None
  {
    CacheAgreesUnderEitherRule(rule, schedule);
    RegistryIsSequential(schedule);
    DecidedByLastWrite(Exec(schedule).value.history, key);
  }

  // The rules are exact.

  /** Whatever happens next, as long as later mutations obey the rule, cached decisions are the
      registry's, and under the rule of the address nothing is cached behind an invalidation. */
  ghost predicate StaysGood(rule: Rule, schedule: seq<Action>) {
    forall longer :: schedule <= longer && SafeFrom(rule, longer, |schedule|) && Exec(longer).Some? ==>
                       Coherent(Exec(longer).value) && (rule.NoneThere? ==> ClearedHolds(Exec(longer).value))
  }

  /** A mutation may start exactly when its rule holds. For agreement and cleared addresses: when no
      decision at its address is on its way. For agreement alone: when none for its own key is, other
      than the one it leads to. */
  lemma MutationSafeIff(rule: Rule, schedule: seq<Action>, t: Thread)
    requires Safe(rule, schedule) && Exec(schedule).Some?
    requires var sys := Exec(schedule).value;
             Enabled(sys, Acquire(t)) && sys.PcOf(t).Wanting? && Changes(sys, sys.PcOf(t).op)
    ensures var sys := Exec(schedule).value;
            StaysGood(rule, schedule + [Acquire(t)]) <==> Quiet(rule, sys, sys.PcOf(t).op)
  {
    var sys := Exec(schedule).value;
    var op := sys.PcOf(t).op;
    if Quiet(rule, sys, op) {
      forall longer | schedule + [Acquire(t)] <= longer && SafeFrom(rule, longer, |schedule| + 1) && Exec(longer).Some?
        ensures Coherent(Exec(longer).value) && (rule.NoneThere? ==> ClearedHolds(Exec(longer).value))
      {
        SafeExtension(rule, schedule, t, longer);
        ExecKeeps(rule, longer);
      }
    } else if rule.NoneThere? {
      var u: Thread :| sys.PcOf(u).Captured? && sys.PcOf(u).key.address == AddressOf(op);
      PublishedBehind(schedule, t, u);
    } else {
      var u: Thread :| sys.PcOf(u).Captured? && Differs(op, sys.PcOf(u).key, sys.PcOf(u).decision);
      ExecKeeps(rule, schedule);
      PublishedStale(schedule, t, u);
    }
  }

  lemma SafeExtension(rule: Rule, schedule: seq<Action>, t: Thread, longer: seq<Action>)
    requires Safe(rule, schedule) && Exec(schedule).Some? && Obeys(rule, Exec(schedule).value, Acquire(t))
    requires schedule + [Acquire(t)] <= longer && SafeFrom(rule, longer, |schedule| + 1)
    ensures Safe(rule, longer)
  {
    hide Exec, Obeys;
    var n := |schedule|;
    assert longer[n] == (schedule + [Acquire(t)])[n] && longer[..n] == schedule;
    forall i | 0 <= i < |longer| && Exec(longer[..i]).Some?
      ensures Obeys(rule, Exec(longer[..i]).value, longer[i])
    {
      if i < n {
        assert longer[..i] == schedule[..i] && longer[i] == schedule[i];
      }
    }
  }

  /** Actions that start no mutation obey every rule. */
  lemma NoStartIsSafe(rule: Rule, schedule: seq<Action>, n: nat)
    requires forall i :: n <= i < |schedule| ==> !schedule[i].Acquire?
    ensures SafeFrom(rule, schedule, n)
  {
    hide Exec;
  }

  /** Acquire, invalidate, publish: the late decision lands at the address just cleared. */
  lemma LandsBehind(sys: System, t: Thread, u: Thread)
    requires Enabled(sys, Acquire(t)) && sys.PcOf(t).Wanting? && Changes(sys, sys.PcOf(t).op)
    requires sys.PcOf(u).Captured? && sys.PcOf(u).key.address == AddressOf(sys.PcOf(t).op)
    ensures var locked := Next(sys, Acquire(t));
            && Enabled(locked, Invalidate(t, true, {}))
            && var cleared := Next(locked, Invalidate(t, true, {}));
            && Enabled(cleared, Publish(u))
            && !ClearedHolds(Next(cleared, Publish(u)))
  {
    var locked := Next(sys, Acquire(t));
    var cleared := Next(locked, Invalidate(t, true, {}));
    var published := Next(cleared, Publish(u));
    assert cleared.PcOf(u) == sys.PcOf(u);
    assert sys.PcOf(u).key in published.cache;
    assert published.writer == Some(t) && published.PcOf(t) == Cleared(sys.PcOf(t).op);
  }

  lemma PublishedBehind(schedule: seq<Action>, t: Thread, u: Thread)
    requires Exec(schedule).Some?
    requires var sys := Exec(schedule).value;
             && Enabled(sys, Acquire(t)) && sys.PcOf(t).Wanting? && Changes(sys, sys.PcOf(t).op)
             && sys.PcOf(u).Captured? && sys.PcOf(u).key.address == AddressOf(sys.PcOf(t).op)
    ensures !StaysGood(NoneThere, schedule + [Acquire(t)])
  {
    LandsBehind(Exec(schedule).value, t, u);
    hide Exec, Coherent, Enabled, Next, ClearedHolds, Changes, SafeFrom;
    ExecAppend(schedule, Acquire(t));
    ExecAppend(schedule + [Acquire(t)], Invalidate(t, true, {}));
    ExecAppend(schedule + [Acquire(t)] + [Invalidate(t, true, {})], Publish(u));
    NoStartIsSafe(NoneThere, schedule + [Acquire(t)] + [Invalidate(t, true, {})] + [Publish(u)], |schedule| + 1);
  }

  /** Acquire, invalidate, write, publish: the late decision is no longer the registry's. */
  lemma LandsStale(sys: System, t: Thread, u: Thread)
    requires Enabled(sys, Acquire(t)) && sys.PcOf(t).Wanting? && Changes(sys, sys.PcOf(t).op)
    requires Mutation(sys.PcOf(t).op)
    requires sys.PcOf(u).Captured? && Differs(sys.PcOf(t).op, sys.PcOf(u).key, sys.PcOf(u).decision)
    ensures var locked := Next(sys, Acquire(t));
            && Enabled(locked, Invalidate(t, true, {}))
            && var cleared := Next(locked, Invalidate(t, true, {}));
            && Enabled(cleared, Write(t))
            && var written := Next(cleared, Write(t));
            && Enabled(written, Publish(u))
            && !Coherent(Next(written, Publish(u)))
  {
    var (op, key) := (sys.PcOf(t).op, sys.PcOf(u).key);
    var locked := Next(sys, Acquire(t));
    var cleared := Next(locked, Invalidate(t, true, {}));
    var written := Next(cleared, Write(t));
    var published := Next(written, Publish(u));
    assert locked.hooks == cleared.hooks == sys.hooks && written.PcOf(u) == sys.PcOf(u);
    assert Decision(published.hooks, key) == if op.Install? then Some(op.hook) else None;
    assert published.cache[key] == sys.PcOf(u).decision;
  }

  lemma PublishedStale(schedule: seq<Action>, t: Thread, u: Thread)
    requires Exec(schedule).Some?
    requires var sys := Exec(schedule).value;
             && Enabled(sys, Acquire(t)) && sys.PcOf(t).Wanting? && Changes(sys, sys.PcOf(t).op)
             && Mutation(sys.PcOf(t).op)
             && sys.PcOf(u).Captured? && Differs(sys.PcOf(t).op, sys.PcOf(u).key, sys.PcOf(u).decision)
    ensures !StaysGood(NoneDiffers, schedule + [Acquire(t)])
  {
    LandsStale(Exec(schedule).value, t, u);
    hide Exec, Coherent, Enabled, Next, Changes, SafeFrom, Mutation, Differs, StaysGood;
    var locked := schedule + [Acquire(t)];
    var cleared := locked + [Invalidate(t, true, {})];
    var written := cleared + [Write(t)];
    ExecAppend(schedule, Acquire(t));
    ExecAppend(locked, Invalidate(t, true, {}));
    ExecAppend(cleared, Write(t));
    ExecAppend(written, Publish(u));
    NoStartIsSafe(NoneDiffers, written + [Publish(u)], |locked|);
    NotGood(NoneDiffers, locked, written + [Publish(u)]);
  }

  lemma NotGood(rule: Rule, schedule: seq<Action>, longer: seq<Action>)
    requires schedule <= longer && SafeFrom(rule, longer, |schedule|) && Exec(longer).Some?
    requires !Coherent(Exec(longer).value)
    ensures !StaysGood(rule, schedule)
  {
    hide Exec, SafeFrom, Coherent;
  }

  lemma ExecAppend(schedule: seq<Action>, a: Action)
    requires Exec(schedule).Some? && Enabled(Exec(schedule).value, a)
    ensures Exec(schedule + [a]) == Some(Next(Exec(schedule).value, a))
  {
    hide Next, Enabled;
    assert (schedule + [a])[..|schedule|] == schedule;
  }

  lemma ExecStep(schedule: seq<Action>, n: nat, before: System, after: System)
    requires 0 < n <= |schedule| && Exec(schedule[..n - 1]) == Some(before)
    requires Enabled(before, schedule[n - 1]) && Next(before, schedule[n - 1]) == after
    ensures Exec(schedule[..n]) == Some(after)
  {
    assert schedule[..n][..n - 1] == schedule[..n - 1];
  }

  /** A translation looked up before an install and published after it. */
  function LateTranslation(key: HookKey, hook: NativeHook): seq<Action> {
    [Translate(0, key), Acquire(0), Lookup(0), Release(0),
     Mutate(1, Install(key, hook)), Acquire(1), Invalidate(1, true, {}), Write(1), Release(1),
     Publish(0)]
  }

  lemma Asked(key: HookKey, hook: NativeHook)
    requires key.IsValid() && hook.Callback?
    ensures Exec(LateTranslation(key, hook)[..2])
            == Some(INITIAL.(readers := {0}, pcs := map[0 := Reading(key)]))
  {
    var schedule := LateTranslation(key, hook);
    assert Exec(schedule[..0]) == Some(INITIAL);
    hide Exec;
    var asking := INITIAL.(pcs := map[0 := Asking(key)]);
    ExecStep(schedule, 1, INITIAL, asking);
    ExecStep(schedule, 2, asking, INITIAL.(readers := {0}, pcs := map[0 := Reading(key)]));
  }

  lemma LookedUp(key: HookKey, hook: NativeHook)
    requires key.IsValid() && hook.Callback?
    ensures Exec(LateTranslation(key, hook)[..4])
            == Some(INITIAL.(pcs := map[0 := Captured(key, None)], history := [Step(Find(key), true)]))
  {
    hide Exec;
    Asked(key, hook);
    var schedule := LateTranslation(key, hook);
    var reading := INITIAL.(readers := {0}, pcs := map[0 := Reading(key)]);
    var found := [Step(Find(key), true)];
    var knowing := INITIAL.(readers := {0}, pcs := map[0 := Knowing(key, None)], history := found);
    ExecStep(schedule, 3, reading, knowing);
    ExecStep(schedule, 4, knowing, INITIAL.(pcs := map[0 := Captured(key, None)], history := found));
  }

  lemma ThenCleared(key: HookKey, hook: NativeHook)
    requires key.IsValid() && hook.Callback?
    ensures Exec(LateTranslation(key, hook)[..7])
            == Some(System(map[], map[], Some(1), {},
                           map[0 := Captured(key, None), 1 := Cleared(Install(key, hook))],
                           [Step(Find(key), true)]))
  {
    hide Exec;
    LookedUp(key, hook);
    var (schedule, op, late) := (LateTranslation(key, hook), Install(key, hook), Captured(key, None));
    var found := INITIAL.(pcs := map[0 := late], history := [Step(Find(key), true)]);
    var wanting := found.(pcs := map[0 := late, 1 := Wanting(op)]);
    var locked := found.(writer := Some(1), pcs := map[0 := late, 1 := Locked(op)]);
    ExecStep(schedule, 5, found, wanting);
    ExecStep(schedule, 6, wanting, locked);
    ExecStep(schedule, 7, locked, locked.(pcs := map[0 := late, 1 := Cleared(op)]));
  }

  /** The state before the late decision is published. */
  function InstalledMeanwhile(key: HookKey, hook: NativeHook): System {
    System(map[key := hook], map[], None, {}, map[0 := Captured(key, None), 1 := Idle],
           [Step(Find(key), true), Step(Install(key, hook), true)])
  }

  lemma ThenInstalled(key: HookKey, hook: NativeHook)
    requires key.IsValid() && hook.Callback?
    ensures Exec(LateTranslation(key, hook)[..9]) == Some(InstalledMeanwhile(key, hook))
  {
    hide Exec;
    ThenCleared(key, hook);
    var (schedule, op, late) := (LateTranslation(key, hook), Install(key, hook), Captured(key, None));
    var found := [Step(Find(key), true)];
    var cleared := System(map[], map[], Some(1), {}, map[0 := late, 1 := Cleared(op)], found);
    var written := InstalledMeanwhile(key, hook).(writer := Some(1), pcs := map[0 := late, 1 := Written(op)]);
    assert found + [Step(op, true)] == written.history;
    ExecStep(schedule, 8, cleared, written);
    ExecStep(schedule, 9, written, InstalledMeanwhile(key, hook));
  }

  /** The locks alone do not keep the cache coherent: a decision looked up before an install and
      published after it is stale, although every step respected the reader/writer lock. */
  lemma StaleWithoutSafePoint(key: HookKey, hook: NativeHook)
    requires key.IsValid() && hook.Callback?
    ensures Exec(LateTranslation(key, hook)).Some?
            && !Coherent(Exec(LateTranslation(key, hook)).value)
  {
    hide Exec;
    ThenInstalled(key, hook);
    var schedule := LateTranslation(key, hook);
    var s9 := InstalledMeanwhile(key, hook);
    assert schedule[..10] == schedule;
    ExecStep(schedule, 10, s9, Next(s9, Publish(0)));
    assert Next(s9, Publish(0)).cache[key] == None;
  }
}
