/** One-shot original-call tickets (src/original_calls.cpp), one operation at a time. */
module OriginalCalls {
  import opened Words
  import opened HookKeys

  datatype TicketState = Pending | Claimed

  datatype TicketRecord = TicketRecord(key: HookKey, state: TicketState)

  /** The guarded storage. */
  datatype Storage = Storage(tickets: map<u64, TicketRecord>, nextTicket: u64)

  const EMPTY: Storage := Storage(map[], 1)

  datatype Operation =
    | Begin(beginKey: HookKey)
    | ClaimEntry(claimed: u64, claimKey: HookKey)
    | Complete(completed: u64)
    | Cancel(cancelled: u64)
    | PendingCount

  /** How an operation ends: its result, or which exception left it. */
  datatype Response =
    | Issued(ticket: u64)
    | InvalidKey
    | InvalidatorThrew
    | Claim(won: bool)
    | Retired
    | NotClaimedOnce
    | NothingToCancel
    | Count(tickets: nat)

  datatype Outcome = Outcome(storage: Storage, response: Response, invalidation: Option<Invalidation>)

  /** Retiring a ticket invalidates first; a throw leaves the ticket where it was. */
  function Retire(s: Storage, ticket: u64, done: bool): Outcome
    requires ticket in s.tickets
  {
    var call := Some(Invalidation(s.tickets[ticket].key.address, done));
    if done then Outcome(s.(tickets := s.tickets - {ticket}), Retired, call)
    else Outcome(s, InvalidatorThrew, call)
  }

  /** One operation, given what the invalidator does if it is called. The counter has advanced by the
      time the invalidator is called, and `emplace` does not overwrite. */
  function Execute(s: Storage, op: Operation, done: bool): Outcome {
    match op
    case Begin(key) =>
      if !key.IsValid() then Outcome(s, InvalidKey, None)
      else
        var ticket := s.nextTicket;
        var advanced := s.(nextTicket := Plus(ticket, 1));
        var call := Some(Invalidation(key.address, done));
        if !done then Outcome(advanced, InvalidatorThrew, call)
        else if ticket in s.tickets then Outcome(advanced, Issued(ticket), call)
        else Outcome(advanced.(tickets := s.tickets[ticket := TicketRecord(key, Pending)]), Issued(ticket), call)
    case ClaimEntry(ticket, key) =>
      if ticket !in s.tickets || s.tickets[ticket].key != key || s.tickets[ticket].state != Pending
      then Outcome(s, Claim(false), None)
      else
        Outcome(s.(tickets := s.tickets[ticket := s.tickets[ticket].(state := Claimed)]), Claim(true), None)
    case Complete(ticket) =>
      if ticket !in s.tickets || s.tickets[ticket].state != Claimed then Outcome(s, NotClaimedOnce, None)
      else Retire(s, ticket, done)
    case Cancel(ticket) =>
      if ticket !in s.tickets then Outcome(s, NothingToCancel, None)
      else Retire(s, ticket, done)
    case PendingCount => Outcome(s, Count(|s.tickets|), None)
  }

  class OriginalCallCoordinator {
    const invalidator: CodeInvalidator
    var tickets: map<u64, TicketRecord>
    var nextTicket: u64

    function Now(): Storage
      reads this
    {
      Storage(tickets, nextTicket)
    }

    /** The invalidator was called as the outcome says, or not at all. */
    twostate predicate Invalidated(call: Option<Invalidation>)
      reads invalidator
    {
      invalidator.log == if call.Some? then old(invalidator.log) + [call.value] else old(invalidator.log)
    }

    /** This operation, on the old storage, with the invalidator's own answer. */
    twostate predicate Executed(op: Operation, response: Response)
      reads this, invalidator
    {
      exists done ::
        var outcome := Execute(old(Now()), op, done);
        && outcome.storage == Now()
        && outcome.response == response
        && Invalidated(outcome.invalidation)
        && (outcome.invalidation.Some? ==>
              done == invalidator.accepts(old(invalidator.log), outcome.invalidation.value.address))
    }

    constructor (invalidator: CodeInvalidator)
      ensures this.invalidator == invalidator && Now() == EMPTY
    {
      this.invalidator := invalidator;
      tickets := map[];
      nextTicket := 1;
    }

    method Begin(key: HookKey) returns (response: Response)
      modifies this, invalidator
      ensures Executed(Operation.Begin(key), response)
      ensures response == InvalidKey <==> Malformed(key)
    {
      MalformedIff(key);
      if !key.IsValid() {
        assert Execute(old(Now()), Operation.Begin(key), true).response == InvalidKey;
        return InvalidKey;
      }
      var ticket := nextTicket;
      nextTicket := Plus(nextTicket, 1);
      var done := invalidator.InvalidateInstruction(key.address);
      ghost var outcome := Execute(old(Now()), Operation.Begin(key), done);
      if !done {
        return InvalidatorThrew;
      }
      if ticket !in tickets {
        tickets := tickets[ticket := TicketRecord(key, Pending)];
      }
      return Issued(ticket);
    }

    method ClaimEntry(ticket: u64, key: HookKey) returns (response: Response)
      modifies this
      ensures Executed(Operation.ClaimEntry(ticket, key), response)
    {
      ghost var outcome := Execute(old(Now()), Operation.ClaimEntry(ticket, key), true);
      if ticket !in tickets || tickets[ticket].key != key || tickets[ticket].state != Pending {
        return Claim(false);
      }
      tickets := tickets[ticket := tickets[ticket].(state := Claimed)];
      return Claim(true);
    }

    method Complete(ticket: u64) returns (response: Response)
      modifies this, invalidator
      ensures Executed(Operation.Complete(ticket), response)
    {
      if ticket !in tickets || tickets[ticket].state != Claimed {
        assert Execute(old(Now()), Operation.Complete(ticket), true).response == NotClaimedOnce;
        return NotClaimedOnce;
      }
      var done := invalidator.InvalidateInstruction(tickets[ticket].key.address);
      ghost var outcome := Execute(old(Now()), Operation.Complete(ticket), done);
      if !done {
        return InvalidatorThrew;
      }
      tickets := tickets - {ticket};
      return Retired;
    }

    method Cancel(ticket: u64) returns (response: Response)
      modifies this, invalidator
      ensures Executed(Operation.Cancel(ticket), response)
    {
      if ticket !in tickets {
        assert Execute(old(Now()), Operation.Cancel(ticket), true).response == NothingToCancel;
        return NothingToCancel;
      }
      var done := invalidator.InvalidateInstruction(tickets[ticket].key.address);
      ghost var outcome := Execute(old(Now()), Operation.Cancel(ticket), done);
      if !done {
        return InvalidatorThrew;
      }
      tickets := tickets - {ticket};
      return Retired;
    }

    method PendingCount() returns (response: Response)
      ensures Executed(Operation.PendingCount, response)
    {
      ghost var outcome := Execute(Now(), Operation.PendingCount, true);
      return Count(|tickets|);
    }
  }
}
