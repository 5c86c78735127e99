/** The native hook registry (src/native_hooks.cpp), one operation at a time. */
module NativeHooks {
  import opened Words
  import opened HookKeys

  /** A callback, which a caller may have left empty. */
  datatype NativeHook = Empty | Callback(id: nat)

  type Hooks = map<HookKey, NativeHook>

  datatype Operation =
    | Install(installKey: HookKey, hook: NativeHook)
    | Remove(removeKey: HookKey)
    | Find(findKey: HookKey)
    | Size

  datatype Response =
    | InvalidKey
    | EmptyCallback
    | InvalidatorThrew
    | Installed
    | Removed(found: bool)
    | Found(decision: Option<NativeHook>)
    | Count(hooks: nat)

  datatype Outcome = Outcome(hooks: Hooks, response: Response, invalidation: Option<Invalidation>)

  /** What the registry says about a key. */
  function Decision(hooks: Hooks, key: HookKey): Option<NativeHook> {
    if key in hooks then Some(hooks[key]) else None
  }

  /** One operation, given what the invalidator does if it is called. */
  function Execute(hooks: Hooks, op: Operation, done: bool): Outcome {
    match op
    case Install(key, hook) =>
      if !key.IsValid() then Outcome(hooks, InvalidKey, None)
      else if hook.Empty? then Outcome(hooks, EmptyCallback, None)
      else
        var call := Some(Invalidation(key.address, done));
        if done then Outcome(hooks[key := hook], Installed, call)
        else Outcome(hooks, InvalidatorThrew, call)
    case Remove(key) =>
      if !key.IsValid() then Outcome(hooks, InvalidKey, None)
      else if key !in hooks then Outcome(hooks, Removed(false), None)
      else
        var call := Some(Invalidation(key.address, done));
        if done then Outcome(hooks - {key}, Removed(true), call)
        else Outcome(hooks, InvalidatorThrew, call)
    case Find(key) =>
      if !key.IsValid() then Outcome(hooks, InvalidKey, None)
      else Outcome(hooks, Found(Decision(hooks, key)), None)
    case Size => Outcome(hooks, Count(|hooks|), None)
  }

  class NativeHookRegistry {
    const invalidator: CodeInvalidator
    var hooks: Hooks

    /** This operation, on the old table, with the invalidator's own answer and no other call on it. */
    twostate predicate Executed(op: Operation, response: Response)
      reads this, invalidator
    {
      exists done ::
        var outcome := Execute(old(hooks), op, done);
        && outcome.hooks == hooks
        && outcome.response == response
        && invalidator.log == old(invalidator.log)
                              + (if outcome.invalidation.Some? then [outcome.invalidation.value] else [])
        && (outcome.invalidation.Some? ==>
              done == invalidator.accepts(old(invalidator.log), outcome.invalidation.value.address))
    }

    constructor (invalidator: CodeInvalidator)
      ensures this.invalidator == invalidator && hooks == map[]
    {
      this.invalidator := invalidator;
      hooks := map[];
    }

    method Install(key: HookKey, hook: NativeHook) returns (response: Response)
      modifies this, invalidator
      ensures Executed(Operation.Install(key, hook), response)
      ensures response == InvalidKey <==> Malformed(key)
    {
      MalformedIff(key);
      ghost var refused := Execute(old(hooks), Operation.Install(key, hook), false);
      if !key.IsValid() {
        return InvalidKey;
      }
      if hook.Empty? {
        return EmptyCallback;
      }
      var done := invalidator.InvalidateInstruction(key.address);
      ghost var outcome := Execute(old(hooks), Operation.Install(key, hook), done);
      if !done {
        return InvalidatorThrew;
      }
      hooks := hooks[key := hook];
      return Installed;
    }

    method Remove(key: HookKey) returns (response: Response)
      modifies this, invalidator
      ensures Executed(Operation.Remove(key), response)
      ensures response == InvalidKey <==> Malformed(key)
    {
      MalformedIff(key);
      ghost var refused := Execute(old(hooks), Operation.Remove(key), false);
      if !key.IsValid() {
        return InvalidKey;
      }
      if key !in hooks {
        return Removed(false);
      }
      var done := invalidator.InvalidateInstruction(key.address);
      ghost var outcome := Execute(old(hooks), Operation.Remove(key), done);
      if !done {
        return InvalidatorThrew;
      }
      hooks := hooks - {key};
      return Removed(true);
    }

    method Find(key: HookKey) returns (response: Response)
      ensures response == if key.IsValid() then Found(Decision(hooks, key)) else InvalidKey
      ensures response == InvalidKey <==> Malformed(key)
    {
      MalformedIff(key);
      if !key.IsValid() {
        return InvalidKey;
      }
      if key !in hooks {
        return Found(None);
      }
      return Found(Some(hooks[key]));
    }

    method Size() returns (count: nat)
      ensures count == |hooks.Keys|
    {
      count := |hooks|;
    }
  }

  /** An operation and what the invalidator does if it is called. */
  datatype Step = Step(op: Operation, done: bool)

  function After(h: seq<Step>): Hooks {
    if h == [] then map[]
    else Execute(After(h[..|h| - 1]), h[|h| - 1].op, h[|h| - 1].done).hooks
  }

  function Last(h: seq<Step>): Outcome
    requires h != []
  {
    Execute(After(h[..|h| - 1]), h[|h| - 1].op, h[|h| - 1].done)
  }

  lemma AfterAppend(h: seq<Step>, step: Step)
    ensures After(h + [step]) == Execute(After(h), step.op, step.done).hooks
  {
    assert (h + [step])[..|h|] == h;
  }

  /** The last step at which this key was written, if any. */
  function LastWrite(h: seq<Step>, key: HookKey): Option<Operation> {
    if h == [] then None
    else
      var op := h[|h| - 1].op;
      if op.Install? && op.installKey == key && Last(h).response == Installed then Some(op)
      else if op.Remove? && op.removeKey == key && Last(h).response == Removed(true) then Some(op)
      else LastWrite(h[..|h| - 1], key)
  }

  /** A key is decided by its own last successful install or removal, so hooks under another image or
      module generation never answer for it. */
  lemma {:induction false} DecidedByLastWrite(h: seq<Step>, key: HookKey)
    ensures Decision(After(h), key) ==
            match LastWrite(h, key)
            case Some(Install(_, hook)) => Some(hook)
            case _ => None
  {
    if h != [] {
      DecidedByLastWrite(h[..|h| - 1], key);
    }
  }

  /** Only valid keys and nonempty callbacks are ever stored. */
  lemma {:induction false} StoredAreValid(h: seq<Step>)
    ensures forall key :: key in After(h) ==> key.IsValid() && After(h)[key].Callback?
  {
    if h != [] {
      StoredAreValid(h[..|h| - 1]);
    }
  }

  function WritesAt(h: seq<Step>, address: u32): nat {
    if h == [] then 0
    else
      var (op, response) := (h[|h| - 1].op, Last(h).response);
      WritesAt(h[..|h| - 1], address)
      + if (op.Install? && op.installKey.address == address && response == Installed)
           || (op.Remove? && op.removeKey.address == address && response == Removed(true))
        then 1 else 0
  }

  function InvalidatedAt(h: seq<Step>, address: u32): nat {
    if h == [] then 0
    else
      InvalidatedAt(h[..|h| - 1], address)
      + if Last(h).invalidation == Some(Invalidation(address, true)) then 1 else 0
  }

  /** At every address the invalidations that went through number the installs and the successful
      removals; rejected, failed and reading operations add none. */
  lemma {:induction false} InvalidationsAreWrites(h: seq<Step>, address: u32)
    ensures InvalidatedAt(h, address) == WritesAt(h, address)
  {
    if h != [] {
      InvalidationsAreWrites(h[..|h| - 1], address);
    }
  }

  /** Whether a key is installed, judged from the history. */
  predicate IsInstalled(h: seq<Step>, key: HookKey) {
    LastWrite(h, key).Some? && LastWrite(h, key).value.Install?
  }

  /** What the registry must answer, judged from the key's digest and address, the history of the key,
      and what the invalidator does; and the one invalidation it makes for that. */
  ghost predicate Answers(h: seq<Step>, op: Operation, done: bool, response: Response,
                          invalidation: Option<Invalidation>)
  {
    match op
    case Install(key, hook) =>
      if Malformed(key) then response == InvalidKey && invalidation == None
      else if hook.Empty? then response == EmptyCallback && invalidation == None
      else
        && response == (if done then Installed else InvalidatorThrew)
        && invalidation == Some(Invalidation(key.address, done))
    case Remove(key) =>
      if Malformed(key) then response == InvalidKey && invalidation == None
      else if !IsInstalled(h, key) then response == Removed(false) && invalidation == None
      else
        && response == (if done then Removed(true) else InvalidatorThrew)
        && invalidation == Some(Invalidation(key.address, done))
    case Find(key) =>
      && invalidation == None
      && if Malformed(key) then response == InvalidKey
         else response == Found(if IsInstalled(h, key) then Some(LastWrite(h, key).value.hook) else None)
    case Size =>
      && invalidation == None && response.Count?
      && exists keys: set<HookKey> ::
           response.hooks == |keys| && forall key :: key in keys <==> IsInstalled(h, key)
  }

  /** Every answer of the registry is the one that history demands: no operation is refused that it
      should perform. */
  lemma AnswersFollowHistory(h: seq<Step>, op: Operation, done: bool)
    ensures var outcome := Execute(After(h), op, done);
            Answers(h, op, done, outcome.response, outcome.invalidation)
  {
    forall key ensures key in After(h) <==> IsInstalled(h, key)
      ensures Decision(After(h), key) == if IsInstalled(h, key) then Some(LastWrite(h, key).value.hook) else None
    {
      DecidedByLastWrite(h, key);
    }
    match op
    case Install(key, _) => MalformedIff(key);
    case Remove(key) => MalformedIff(key);
    case Find(key) => MalformedIff(key);
    case Size => assert forall key :: key in After(h).Keys <==> IsInstalled(h, key);
  }
}
