/** Whole histories of the ticket protocol: what can happen to each ticket, and what it costs. */
module TicketHistory {
  import opened Words
  import opened HookKeys
  import opened OriginalCalls

  /** An operation and what the invalidator does if it is called. */
  datatype Step = Step(op: Operation, done: bool)

  function After(h: seq<Step>): Storage {
    if h == [] then EMPTY
    else Execute(After(h[..|h| - 1]), h[|h| - 1].op, h[|h| - 1].done).storage
  }

  function Before(h: seq<Step>): Storage
    requires h != []
  {
    After(h[..|h| - 1])
  }

  /** The outcome of the last step. */
  function Last(h: seq<Step>): Outcome
    requires h != []
  {
    Execute(Before(h), h[|h| - 1].op, h[|h| - 1].done)
  }

  /** How often the ticket counter has advanced: begins with a valid key, failed or not. */
  function Begins(h: seq<Step>): nat {
    if h == [] then 0
    else
      var op := h[|h| - 1].op;
      Begins(h[..|h| - 1]) + if op.Begin? && op.beginKey.IsValid() then 1 else 0
  }

  lemma CounterStep(s: Storage, op: Operation, done: bool)
    ensures Execute(s, op, done).storage.nextTicket
            == if op.Begin? && op.beginKey.IsValid() then Plus(s.nextTicket, 1) else s.nextTicket
  {}

  /** The counter after b advances. */
  function CounterAfter(b: nat): u64 {
    Wrap(1 + b)
  }

  lemma CounterAdvances(b: nat)
    ensures Plus(CounterAfter(b), 1) == CounterAfter(b + 1)
    ensures b < TWO_64 ==> CounterAfter(b) == if b == TWO_64 - 1 then 0 else b + 1
  {
    PlusWraps(1 + b, 1);
  }

  /** The ticket counter is a function of the number of begins, wrap included. */
  lemma {:induction false} CounterIsBegins(h: seq<Step>)
    ensures After(h).nextTicket == CounterAfter(Begins(h))
  {
    if h != [] {
      CounterIsBegins(h[..|h| - 1]);
      CounterStep(Before(h), h[|h| - 1].op, h[|h| - 1].done);
      CounterAdvances(Begins(h[..|h| - 1]));
    }
  }

  /** Each issued id is the number of its begin modulo 2^64: nonzero up to the (2^64 - 1)-th begin,
      and 0 at the 2^64-th. */
  lemma IssuedIds(h: seq<Step>)
    requires h != [] && Last(h).response.Issued?
    ensures Last(h).response.ticket == Begins(h) % TWO_64
    ensures 0 < Begins(h) < TWO_64 ==> Last(h).response.ticket == Begins(h)
    ensures Begins(h) == TWO_64 ==> Last(h).response.ticket == 0
  {
    CounterIsBegins(h[..|h| - 1]);
    IssuesCounter(Before(h), h[|h| - 1].op, h[|h| - 1].done);
    hide Execute, Wrap, After;
    CounterAdvances(Begins(h[..|h| - 1]));
    WrapIsRemainder(Begins(h));
  }

  /** The ids issued, in order. */
  function IdsOf(h: seq<Step>): seq<u64> {
    if h == [] then []
    else IdsOf(h[..|h| - 1]) + if Last(h).response.Issued? then [Last(h).response.ticket] else []
  }

  /** No id is 0, and none is issued twice. */
  predicate Fresh(ids: seq<u64>) {
    && (forall i :: 0 <= i < |ids| ==> ids[i] != 0)
    && (forall i, j :: 0 <= i < j < |ids| ==> ids[i] != ids[j])
  }

  lemma IssuedBegins(h: seq<Step>)
    requires h != [] && Begins(h) < TWO_64
    ensures Begins(h[..|h| - 1]) <= Begins(h)
    ensures Last(h).response.Issued? ==>
              Begins(h) == Begins(h[..|h| - 1]) + 1 && Last(h).response.ticket == Begins(h)
  {
    if Last(h).response.Issued? {
      IssuesCounter(Before(h), h[|h| - 1].op, h[|h| - 1].done);
      hide Execute;
      IssuedIds(h);
    }
  }

  /** Below 2^64 begins the ids increase and are at most the number of begins. */
  lemma {:induction false} IssuedIncrease(h: seq<Step>)
    requires Begins(h) < TWO_64
    ensures var ids := IdsOf(h);
            && (forall i :: 0 <= i < |ids| ==> 0 < ids[i] <= Begins(h))
            && (forall i, j :: 0 <= i < j < |ids| ==> ids[i] < ids[j])
  {
    if h != [] {
      var before := h[..|h| - 1];
      IssuedIncrease(before);
      IssuedBegins(h);
      hide Execute, Begins, Last;
      if Last(h).response.Issued? {
        assert IdsOf(h) == IdsOf(before) + [Begins(h)];
      } else {
        assert IdsOf(h) == IdsOf(before);
      }
    }
  }

  /** n begins of one key, none of which fails. */
  function Beginning(key: HookKey, n: nat): seq<Step> {
    if n == 0 then [] else Beginning(key, n - 1) + [Step(Begin(key), true)]
  }

  lemma {:induction false} BeginningBegins(key: HookKey, n: nat)
    requires key.IsValid()
    ensures Begins(Beginning(key, n)) == n
    ensures n > 0 ==> Last(Beginning(key, n)).response.Issued?
  {
    if n > 0 {
      var h := Beginning(key, n);
      assert h[..|h| - 1] == Beginning(key, n - 1);
      BeginningBegins(key, n - 1);
    }
  }

  /** Ids are nonzero and never reused exactly below 2^64 begins. */
  lemma FreshIff(key: HookKey, n: nat)
    requires key.IsValid()
    ensures (forall h :: Begins(h) <= n ==> Fresh(IdsOf(h))) <==> n < TWO_64
  {
    if n < TWO_64 {
      forall h | Begins(h) <= n ensures Fresh(IdsOf(h)) {
        IssuedIncrease(h);
      }
    } else {
      var h := Beginning(key, TWO_64);
      BeginningBegins(key, TWO_64);
      IssuedIds(h);
      assert IdsOf(h)[|IdsOf(h)| - 1] == 0;
    }
  }

  lemma IssuesCounter(s: Storage, op: Operation, done: bool)
    requires Execute(s, op, done).response.Issued?
    ensures op.Begin? && op.beginKey.IsValid() && Execute(s, op, done).response.ticket == s.nextTicket
  {}

  datatype Life = Unborn | Waiting(key: HookKey) | Taken(key: HookKey) | Gone(key: HookKey, wasTaken: bool) | Broken

  /** The order in which things may happen to one ticket, judged from responses alone: begin, at most
      one successful claim with the key it was begun for, then one retirement; completion only after
      the claim. */
  function Advance(life: Life, ticket: u64, op: Operation, response: Response): Life {
    match op
    case Begin(key) =>
      if response != Issued(ticket) then life
      else if life.Unborn? then Waiting(key) else Broken
    case ClaimEntry(id, key) =>
      if id != ticket || response != Claim(true) then life
      else if life == Waiting(key) then Taken(key) else Broken
    case Complete(id) =>
      if id != ticket || response != Retired then life
      else if life.Taken? then Gone(life.key, true) else Broken
    case Cancel(id) =>
      if id != ticket || response != Retired then life
      else if life.Waiting? || life.Taken? then Gone(life.key, life.Taken?) else Broken
    case PendingCount => life
  }

  function LifeOf(h: seq<Step>, ticket: u64): Life {
    if h == [] then Unborn
    else Advance(LifeOf(h[..|h| - 1], ticket), ticket, h[|h| - 1].op, Last(h).response)
  }

  /** What the table holds for a ticket at each stage of its life. */
  predicate Holds(s: Storage, ticket: u64, life: Life) {
    match life
    case Unborn => ticket !in s.tickets
    case Waiting(key) => ticket in s.tickets && s.tickets[ticket] == TicketRecord(key, Pending)
    case Taken(key) => ticket in s.tickets && s.tickets[ticket] == TicketRecord(key, Claimed)
    case Gone(_, _) => ticket !in s.tickets
    case Broken => false
  }

  lemma HoldsStep(s: Storage, ticket: u64, life: Life, op: Operation, done: bool)
    requires Holds(s, ticket, life)
    requires ticket == s.nextTicket ==> life.Unborn?
    ensures var outcome := Execute(s, op, done);
            Holds(outcome.storage, ticket, Advance(life, ticket, op, outcome.response))
  {}

  /** Ticket life history: while the counter has not wrapped, no ticket's events ever leave the
      prescribed order, the table holds exactly the tickets that are waiting or taken, and ids not yet
      reached (and 0) are unborn. */
  lemma {:induction false} LivesInOrder(h: seq<Step>, ticket: u64)
    requires Begins(h) < TWO_64
    ensures Holds(After(h), ticket, LifeOf(h, ticket))
    ensures ticket == 0 || ticket > Begins(h) ==> LifeOf(h, ticket).Unborn?
  {
    if h != [] {
      var before := h[..|h| - 1];
      var (s, op, done) := (After(before), h[|h| - 1].op, h[|h| - 1].done);
      LivesInOrder(before, ticket);
      CounterIsBegins(before);
      CounterAdvances(Begins(before));
      HoldsStep(s, ticket, LifeOf(before, ticket), op, done);
      assert LifeOf(h, ticket) == Advance(LifeOf(before, ticket), ticket, op, Execute(s, op, done).response);
    }
  }

  /** Successful claims of one ticket. */
  function ClaimsWon(h: seq<Step>, ticket: u64): nat {
    if h == [] then 0
    else
      var op := h[|h| - 1].op;
      ClaimsWon(h[..|h| - 1], ticket)
      + if op.ClaimEntry? && op.claimed == ticket && Last(h).response == Claim(true) then 1 else 0
  }

  /** A ticket is claimed at most once, and has been claimed exactly when it is taken or was taken. */
  lemma {:induction false} AtMostOneClaim(h: seq<Step>, ticket: u64)
    requires Begins(h) < TWO_64
    ensures var life := LifeOf(h, ticket);
            ClaimsWon(h, ticket) == if life.Taken? || (life.Gone? && life.wasTaken) then 1 else 0
  {
    if h != [] {
      AtMostOneClaim(h[..|h| - 1], ticket);
      LivesInOrder(h[..|h| - 1], ticket);
      LivesInOrder(h, ticket);
    }
  }

  /** Whether the last step issued (or retired) a ticket for this address. */
  predicate IssuesAt(h: seq<Step>, address: u32)
    requires h != []
  {
    var op := h[|h| - 1].op;
    op.Begin? && op.beginKey.address == address && Last(h).response.Issued?
  }

  predicate RetiresAt(h: seq<Step>, address: u32)
    requires h != []
  {
    Last(h).response.Retired? && Last(h).invalidation == Some(Invalidation(address, true))
  }

  function IssuedAt(h: seq<Step>, address: u32): nat {
    if h == [] then 0 else IssuedAt(h[..|h| - 1], address) + if IssuesAt(h, address) then 1 else 0
  }

  function RetiredAt(h: seq<Step>, address: u32): nat {
    if h == [] then 0 else RetiredAt(h[..|h| - 1], address) + if RetiresAt(h, address) then 1 else 0
  }

  /** Invalidations of this address that went through. */
  function InvalidatedAt(h: seq<Step>, address: u32): nat {
    if h == [] then 0
    else
      InvalidatedAt(h[..|h| - 1], address)
      + if Last(h).invalidation == Some(Invalidation(address, true)) then 1 else 0
  }

  /** Live tickets for this address. */
  function LiveAt(s: Storage, address: u32): set<u64> {
    set ticket | ticket in s.tickets && s.tickets[ticket].key.address == address
  }

  /** How one step changes the live tickets of an address. */
  lemma LiveStep(h: seq<Step>, address: u32)
    requires h != [] && Begins(h) < TWO_64
    ensures |LiveAt(After(h), address)| == |LiveAt(Before(h), address)|
              + (if IssuesAt(h, address) then 1 else 0) - (if RetiresAt(h, address) then 1 else 0)
  {
    CounterIsFree(h[..|h| - 1]);
    LiveExecute(Before(h), h[|h| - 1].op, h[|h| - 1].done, address);
  }

  /** The next id is not in the table, while the counter has not wrapped. */
  lemma CounterIsFree(h: seq<Step>)
    requires Begins(h) < TWO_64
    ensures After(h).nextTicket !in After(h).tickets
  {
    CounterIsBegins(h);
    CounterAdvances(Begins(h));
    LivesInOrder(h, After(h).nextTicket);
  }

  lemma LiveExecute(s: Storage, op: Operation, done: bool, address: u32)
    requires s.nextTicket !in s.tickets || !op.Begin?
    ensures var outcome := Execute(s, op, done);
            var issues := op.Begin? && op.beginKey.address == address && outcome.response.Issued?;
            var retires := outcome.response.Retired?
                           && outcome.invalidation == Some(Invalidation(address, true));
            |LiveAt(outcome.storage, address)| == |LiveAt(s, address)|
              + (if issues then 1 else 0) - (if retires then 1 else 0)
  {
    var before, after := LiveAt(s, address), LiveAt(Execute(s, op, done).storage, address);
    match op
    case Begin(key) =>
      if key.IsValid() && done && key.address == address {
        assert after == before + {s.nextTicket};
      } else {
        assert after == before;
      }
    case ClaimEntry(_, _) => assert after == before;
    case Complete(ticket) => LiveRetire(s, ticket, op, done, address);
    case Cancel(ticket) => LiveRetire(s, ticket, op, done, address);
    case PendingCount =>
  }

  lemma LiveRetire(s: Storage, ticket: u64, op: Operation, done: bool, address: u32)
    requires op == Complete(ticket) || op == Cancel(ticket)
    ensures var outcome := Execute(s, op, done);
            var retires := outcome.response.Retired?
                           && outcome.invalidation == Some(Invalidation(address, true));
            |LiveAt(outcome.storage, address)| == |LiveAt(s, address)| - if retires then 1 else 0
  {
    var outcome := Execute(s, op, done);
    var before, after := LiveAt(s, address), LiveAt(outcome.storage, address);
    if outcome.response.Retired? && s.tickets[ticket].key.address == address {
      assert after == before - {ticket} && ticket in before;
    } else {
      assert after == before;
    }
  }

  /** Invalidation accounting: at every address, issued = retired + live and the invalidations that
      went through are 2 * retired + live. A rejected or failed operation adds to neither side. */
  lemma {:induction false} InvalidationsAccounted(h: seq<Step>, address: u32)
    requires Begins(h) < TWO_64
    ensures var live := |LiveAt(After(h), address)|;
            && IssuedAt(h, address) == RetiredAt(h, address) + live
            && InvalidatedAt(h, address) == 2 * RetiredAt(h, address) + live
  {
    if h == [] {
      assert LiveAt(EMPTY, address) == {};
    } else {
      InvalidationsAccounted(h[..|h| - 1], address);
      LiveStep(h, address);
      assert Last(h).invalidation == Some(Invalidation(address, true))
             <==> IssuesAt(h, address) || RetiresAt(h, address);
    }
  }

  function IssuedIn(h: seq<Step>): nat {
    if h == [] then 0 else IssuedIn(h[..|h| - 1]) + if Last(h).response.Issued? then 1 else 0
  }

  function RetiredIn(h: seq<Step>): nat {
    if h == [] then 0 else RetiredIn(h[..|h| - 1]) + if Last(h).response.Retired? then 1 else 0
  }

  /** The pending count is what was issued and neither completed nor effectively cancelled. */
  lemma {:induction false} PendingIsIssuedLessRetired(h: seq<Step>)
    requires Begins(h) < TWO_64
    ensures |After(h).tickets| == IssuedIn(h) - RetiredIn(h)
  {
    if h != [] {
      PendingIsIssuedLessRetired(h[..|h| - 1]);
      CounterIsFree(h[..|h| - 1]);
      PendingExecute(Before(h), h[|h| - 1].op, h[|h| - 1].done);
    }
  }

  lemma PendingExecute(s: Storage, op: Operation, done: bool)
    requires s.nextTicket !in s.tickets
    ensures var outcome := Execute(s, op, done);
            |outcome.storage.tickets| == |s.tickets| + (if outcome.response.Issued? then 1 else 0)
                                         - (if outcome.response.Retired? then 1 else 0)
  {
    if Execute(s, op, done).response.Retired? {
      var ticket := if op.Complete? then op.completed else op.cancelled;
      assert s.tickets.Keys == (s.tickets - {ticket}).Keys + {ticket};
    }
  }

  /** What the coordinator must answer, judged from the lives of the tickets and what the invalidator
      does; and the one invalidation it makes for that. */
  ghost predicate Answers(h: seq<Step>, op: Operation, done: bool, response: Response,
                          invalidation: Option<Invalidation>)
  {
    match op
    case Begin(key) =>
      if Malformed(key) then response == InvalidKey && invalidation == None
      else
        && response == (if done then Issued((Begins(h) + 1) % TWO_64) else InvalidatorThrew)
        && invalidation == Some(Invalidation(key.address, done))
    case ClaimEntry(ticket, key) =>
      response == Claim(LifeOf(h, ticket) == Waiting(key)) && invalidation == None
    case Complete(ticket) =>
      var life := LifeOf(h, ticket);
      if life.Taken? then
        && response == (if done then Retired else InvalidatorThrew)
        && invalidation == Some(Invalidation(life.key.address, done))
      else response == NotClaimedOnce && invalidation == None
    case Cancel(ticket) =>
      var life := LifeOf(h, ticket);
      if life.Taken? || life.Waiting? then
        && response == (if done then Retired else InvalidatorThrew)
        && invalidation == Some(Invalidation(life.key.address, done))
      else response == NothingToCancel && invalidation == None
    case PendingCount =>
      response.Count? && response.tickets == IssuedIn(h) - RetiredIn(h) && invalidation == None
  }

  /** Every answer is the one that history demands. A claim wins if and only if its ticket is waiting
      for that key, however many others were begun since; a ticket completes if and only if it is
      taken, and is cancelled if and only if it is waiting or taken, unless the invalidator throws. */
  lemma AnswersFollowLives(h: seq<Step>, op: Operation, done: bool)
    requires Begins(h) < TWO_64
    ensures var outcome := Execute(After(h), op, done);
            Answers(h, op, done, outcome.response, outcome.invalidation)
  {
    match op
    case Begin(key) =>
      MalformedIff(key);
      CounterIsBegins(h);
      WrapIsRemainder(Begins(h) + 1);
    case ClaimEntry(ticket, _) => LivesInOrder(h, ticket);
    case Complete(ticket) => LivesInOrder(h, ticket);
    case Cancel(ticket) => LivesInOrder(h, ticket);
    case PendingCount => PendingIsIssuedLessRetired(h);
  }

  // Beyond 2^64 begins.

  /** A begin never changes a live ticket, even one whose id it issues again. */
  lemma BeginKeepsTickets(s: Storage, key: HookKey, done: bool, ticket: u64)
    requires ticket in s.tickets
    ensures var after := Execute(s, Begin(key), done).storage.tickets;
            ticket in after && after[ticket] == s.tickets[ticket]
  {}

  lemma {:induction false} FirstStaysLive(key: HookKey, n: nat)
    requires key.IsValid() && n > 0
    ensures var tickets := After(Beginning(key, n)).tickets; 1 in tickets && tickets[1] == TicketRecord(key, Pending)
  {
    var h := Beginning(key, n);
    assert h[..|h| - 1] == Beginning(key, n - 1);
    if n > 1 {
      FirstStaysLive(key, n - 1);
      BeginKeepsTickets(After(Beginning(key, n - 1)), key, true, 1);
    }
  }

  /** After 2^64 begins of one key, a begin of another issues id 1 again; if the first ticket is still
      live, that id goes on standing for the first key. */
  lemma ReissuedIdKeepsOldKey(key: HookKey, other: HookKey)
    requires key.IsValid() && other.IsValid()
    ensures var h := Beginning(key, TWO_64);
            var outcome := Execute(After(h), Begin(other), true);
            && outcome.response == Issued(1)
            && 1 in outcome.storage.tickets && outcome.storage.tickets[1] == TicketRecord(key, Pending)
  {
    var h := Beginning(key, TWO_64);
    BeginningBegins(key, TWO_64);
    CounterIsBegins(h);
    FirstStaysLive(key, TWO_64);
    hide Beginning, After;
    BeginKeepsTickets(After(h), other, true, 1);
  }
}
