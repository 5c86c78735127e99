/** Hook storage of the Dolphin adapter (src/dolphin_adapter.cpp). The session dispatches through raw
    pointers into storage that the adapter owns, so two tables have to stay consistent through every
    single change of either. */
module DolphinAdapter {
  import opened Words
  import opened HookKeys
  import opened NativeHooks

  /** The session's own vocabulary for keys. */
  datatype SessionImage = SessionImage(sha256: Digest)
  datatype SessionIdentity = SessionIdentity(image: SessionImage, moduleGeneration: u64)
  datatype SessionKey = SessionKey(identity: SessionIdentity, address: u32)

  function ToSessionIdentity(identity: ExecutionIdentity): SessionIdentity {
    SessionIdentity(SessionImage(identity.image.sha256), identity.moduleGeneration)
  }

  function FromSessionIdentity(identity: SessionIdentity): ExecutionIdentity {
    ExecutionIdentity(ImageIdentity(identity.image.sha256), identity.moduleGeneration)
  }

  function ToSessionKey(key: HookKey): SessionKey {
    SessionKey(ToSessionIdentity(key.identity), key.address)
  }

  function FromSessionKey(k: SessionKey): HookKey {
    HookKey(FromSessionIdentity(k.identity), k.address)
  }

  /** The address of a heap cell. */
  type Pointer = nat

  /** What is stored behind a dispatched context pointer. */
  datatype Binding = Binding(hook: NativeHook, key: SessionKey)

  /** A session entry: a pointer of this adapter, or something another client installed. */
  datatype Context = Ours(pointer: Pointer) | Foreign(id: nat)

  /** Everything the storage discipline is about, including the two unique owners that exist only
      inside an operation: the binding being brought in and the one being dropped. */
  datatype State = State(
    table: map<SessionKey, Context>,
    owned: map<HookKey, Pointer>,
    live: map<Pointer, Binding>,
    nextPointer: Pointer,
    incoming: Option<(HookKey, Pointer)>,
    outgoing: Option<Pointer>)

  const NOTHING: State := State(map[], map[], map[], 0, None, None)

  // The single changes, in the vocabulary of the source: allocate a binding, point the session at it,
  // hand it to the map, destroy a binding, take a key out of the session, take a key out of the map.

  function Allocate(s: State, key: HookKey, hook: NativeHook): State {
    s.(live := s.live[s.nextPointer := Binding(hook, ToSessionKey(key))],
       incoming := Some((key, s.nextPointer)),
       nextPointer := s.nextPointer + 1)
  }

  function Point(s: State, key: HookKey, pointer: Pointer): State {
    s.(table := s.table[ToSessionKey(key) := Ours(pointer)])
  }

  function Own(s: State, key: HookKey, pointer: Pointer): State {
    s.(owned := s.owned[key := pointer],
       incoming := None,
       outgoing := if key in s.owned then Some(s.owned[key]) else None)
  }

  /** Destroying the binding that an operation still holds. */
  function Abandon(s: State): State {
    s.(live := if s.incoming.Some? then s.live - {s.incoming.value.1} else s.live, incoming := None)
  }

  function Free(s: State): State {
    s.(live := if s.outgoing.Some? then s.live - {s.outgoing.value} else s.live, outgoing := None)
  }

  function Unpoint(s: State, key: HookKey): State {
    s.(table := s.table - {ToSessionKey(key)})
  }

  function Disown(s: State, key: HookKey): State {
    s.(owned := s.owned - {key}, outgoing := if key in s.owned then Some(s.owned[key]) else None)
  }

  /** The states an installation goes through; a session that refuses throws before any table changes. */
  function InstallTrace(s: State, key: HookKey, hook: NativeHook, accepted: bool): seq<State> {
    var s1 := Allocate(s, key, hook);
    if !accepted then [s1, Abandon(s1)]
    else
      var s2 := Point(s1, key, s.nextPointer);
      var s3 := Own(s2, key, s.nextPointer);
      [s1, s2, s3, Free(s3)]
  }

  lemma InstallTraceIs(s: State, key: HookKey, hook: NativeHook, accepted: bool)
    ensures var s1 := Allocate(s, key, hook);
            var s2 := Point(s1, key, s.nextPointer);
            var s3 := Own(s2, key, s.nextPointer);
            InstallTrace(s, key, hook, accepted) == if accepted then [s1, s2, s3, Free(s3)] else [s1, Abandon(s1)]
  {}

  function RemoveTrace(s: State, key: HookKey): seq<State> {
    var s1 := Unpoint(s, key);
    var s2 := Disown(s1, key);
    [s1, s2, Free(s2)]
  }

  function Installed(s: State, key: HookKey, hook: NativeHook, accepted: bool): State {
    var states := InstallTrace(s, key, hook, accepted);
    states[|states| - 1]
  }

  function Removed(s: State, key: HookKey): State {
    RemoveTrace(s, key)[2]
  }

  /** Assumption on the session: an installation either binds the key or throws with its table
      unchanged, and a removal takes the key out and says whether it was there. */
  class RuntimeSession {
    const accepts: (map<SessionKey, Context>, SessionKey) -> bool
    var table: map<SessionKey, Context>

    method InstallNativeHook(key: SessionKey, context: Context) returns (accepted: bool)
      modifies this
      ensures accepted == accepts(old(table), key)
      ensures table == if accepted then old(table)[key := context] else old(table)
    {
      accepted := accepts(table, key);
      if accepted {
        table := table[key := context];
      }
    }

    method RemoveNativeHook(key: SessionKey) returns (removed: bool)
      modifies this
      ensures removed == (key in old(table))
      ensures table == old(table) - {key}
    {
      removed := key in table;
      table := table - {key};
    }

    constructor (accepts: (map<SessionKey, Context>, SessionKey) -> bool)
      ensures this.accepts == accepts && table == map[]
    {
      this.accepts := accepts;
      table := map[];
    }
  }

  class DolphinRuntimeAdapter {
    const session: RuntimeSession
    var bindings: map<HookKey, Pointer>
    var live: map<Pointer, Binding>
    var nextPointer: Pointer
    ghost var incoming: Option<(HookKey, Pointer)>
    ghost var outgoing: Option<Pointer>
    ghost var trace: seq<State>

    ghost function Now(): State
      reads this, session
    {
      State(session.table, bindings, live, nextPointer, incoming, outgoing)
    }

    /** Notes the state that has just been reached. */
    ghost method Mark(state: State)
      requires state == Now()
      modifies this`trace
      ensures trace == old(trace) + [state]
    {
      trace := trace + [state];
    }

    constructor (session: RuntimeSession)
      ensures this.session == session && trace == []
      ensures Now() == NOTHING.(table := session.table)
    {
      this.session := session;
      bindings, live, nextPointer := map[], map[], 0;
      incoming, outgoing, trace := None, None, [];
    }

    /** Returns whether the session accepted; otherwise its exception leaves the operation. */
    method InstallHook(key: HookKey, hook: NativeHook) returns (accepted: bool)
      requires incoming.None? && outgoing.None?
      modifies this, session
      ensures accepted == session.accepts(old(session.table), ToSessionKey(key))
      ensures if accepted then EntryPut(old(session.table), session.table, key, Ours(old(nextPointer)))
              else session.table == old(session.table)
      ensures trace == old(trace) + InstallTrace(old(Now()), key, hook, accepted)
      ensures Now() == trace[|trace| - 1]
      ensures incoming.None? && outgoing.None?
    {
      hide ToSessionKey, InstallTrace, EntryPut;
      ghost var s := Now();
      PutAtFields(session.table, key, Ours(nextPointer));
      var binding := nextPointer;
      live, nextPointer := live[binding := Binding(hook, ToSessionKey(key))], nextPointer + 1;
      incoming := Some((key, binding));
      ghost var s1 := Allocate(s, key, hook);
      Mark(s1);
      accepted := session.InstallNativeHook(ToSessionKey(key), Ours(binding));
      if !accepted {
        live := live - {binding};
        incoming := None;
        Mark(Abandon(s1));
        InstallTraceIs(s, key, hook, accepted);
        return;
      }
      ghost var s2 := Point(s1, key, binding);
      Mark(s2);
      Take(key, binding);
      InstallTraceIs(s, key, hook, accepted);
    }

    /** The owning map takes a binding; the binding that it replaces is destroyed after that. */
    method Take(key: HookKey, binding: Pointer)
      requires outgoing.None?
      modifies this`bindings, this`live, this`incoming, this`outgoing, this`trace
      ensures var owned := Own(old(Now()), key, binding);
              Now() == Free(owned) && trace == old(trace) + [owned, Free(owned)]
    {
      hide ToSessionKey;
      ghost var owned := Own(Now(), key, binding);
      var replaced := if key in bindings then Some(bindings[key]) else None;
      bindings := bindings[key := binding];
      incoming, outgoing := None, replaced;
      Mark(owned);
      if replaced.Some? {
        live := live - {replaced.value};
      }
      outgoing := None;
      Mark(Free(owned));
    }

    method RemoveHook(key: HookKey) returns (removed: bool)
      requires incoming.None? && outgoing.None?
      modifies this, session
      ensures removed == (ToSessionKey(key) in old(session.table))
      ensures removed <==> exists k :: k in old(session.table) && Names(k, key)
      ensures EntryTaken(old(session.table), session.table, key)
      ensures trace == old(trace) + RemoveTrace(old(Now()), key)
      ensures Now() == trace[|trace| - 1]
      ensures incoming.None? && outgoing.None?
    {
      hide Names, ToSessionKey, EntryTaken;
      TakenAtFields(session.table, key);
      removed := session.RemoveNativeHook(ToSessionKey(key));
      Mark(Now());
      var dropped := if key in bindings then Some(bindings[key]) else None;
      bindings := bindings - {key};
      outgoing := dropped;
      Mark(Now());
      if dropped.Some? {
        live := live - {dropped.value};
      }
      outgoing := None;
      Mark(Now());
    }

    method HookCount() returns (count: nat)
      ensures count == |bindings.Keys|
    {
      count := |bindings|;
    }

    /** The destructor's loop: every key leaves the session, in some order. */
    method DetachAll()
      requires Consistent(Now())
      modifies session, this`trace
      ensures Consistent(Now())
      ensures session.table == WithoutOwned(old(session.table), bindings.Keys)
      ensures old(trace) <= trace && forall i :: |old(trace)| <= i < |trace| ==> Safe(trace[i])
    {
      var remaining := bindings.Keys;
      ghost var gone: set<HookKey> := {};
      while remaining != {}
        invariant gone + remaining == bindings.Keys
        invariant session.table == WithoutOwned(old(session.table), gone)
        invariant Consistent(Now())
        invariant old(trace) <= trace && forall i :: |old(trace)| <= i < |trace| ==> Safe(trace[i])
        decreases remaining
      {
        var key :| key in remaining;
        UnpointKeeps(Now(), key);
        WithoutOneMore(old(session.table), gone, key);
        var _ := session.RemoveNativeHook(ToSessionKey(key));
        Mark(Now());
        remaining, gone := remaining - {key}, gone + {key};
      }
      assert gone == bindings.Keys;
    }

    /** The destruction of the map itself, one binding at a time, in some order. */
    method ReleaseAll()
      requires Consistent(Now()) && OnlyForeign(session.table)
      modifies this
      ensures Consistent(Now()) && bindings == map[] && live == map[]
      ensures old(trace) <= trace && forall i :: |old(trace)| <= i < |trace| ==> Safe(trace[i])
    {
      hide Safe, OneOwner;
      while bindings != map[]
        invariant Consistent(Now()) && session.table == old(session.table)
        invariant old(trace) <= trace && forall i :: |old(trace)| <= i < |trace| ==> Safe(trace[i])
        decreases bindings.Keys
      {
        var key :| key in bindings;
        ghost var s := Now();
        DisownKeeps(s, key);
        var dropped := bindings[key];
        bindings := bindings - {key};
        outgoing := Some(dropped);
        Mark(Now());
        live := live - {dropped};
        outgoing := None;
        Mark(Now());
      }
      NoOwnerNoneLive(Now());
    }

    /** Destruction: no pointer of this adapter stays in the session, every binding is destroyed, and at
        no micro-step could the session dispatch through a dead pointer. Other clients' entries stay
        exactly where their key is not owned: one installed over an owned key is taken out. */
    method Destroy()
      requires Consistent(Now())
      modifies this, session
      ensures bindings == map[] && live == map[]
      ensures OnlyForeign(session.table)
      ensures session.table == WithoutOwned(old(session.table), old(bindings).Keys)
      ensures forall k :: k in old(session.table) && old(session.table)[k].Foreign? ==>
                            (k in session.table <==> FromSessionKey(k) !in old(bindings))
      ensures old(trace) <= trace && forall i :: |old(trace)| <= i < |trace| ==> Safe(trace[i])
    {
      ghost var before := Now();
      forall k | k in session.table { SurvivesDestruction(before, k); }
      DetachAll();
      NothingLeft(before, Now());
      ghost var middle := trace;
      ReleaseAll();
      assert forall i :: |old(trace)| <= i < |middle| ==> trace[i] == middle[i];
    }
  }

  lemma NoOwnerNoneLive(s: State)
    requires OneOwner(s) && s.owned == map[]
    ensures s.live == map[]
  {}

  lemma WithoutOneMore(table: map<SessionKey, Context>, gone: set<HookKey>, key: HookKey)
    ensures WithoutOwned(table, gone) - {ToSessionKey(key)} == WithoutOwned(table, gone + {key})
  {
    assert key in gone + {key};
  }

  /** The session's table without the keys of these bindings. */
  ghost function WithoutOwned(table: map<SessionKey, Context>, keys: set<HookKey>): map<SessionKey, Context> {
    map k | k in table && (forall key :: key in keys ==> ToSessionKey(key) != k) :: table[k]
  }

  /** A pointer that the session may dispatch through at k: alive, carrying k, and owned under k. */
  predicate Dispatchable(s: State, k: SessionKey, pointer: Pointer) {
    var key := FromSessionKey(k);
    && pointer in s.live && s.live[pointer].key == k
    && ((key in s.owned && s.owned[key] == pointer) || s.incoming == Some((key, pointer)))
  }

  /** No dangling hook pointer. */
  predicate Safe(s: State) {
    forall k :: k in s.table && s.table[k].Ours? ==> Dispatchable(s, k, s.table[k].pointer)
  }

  /** Every live binding has exactly one owner, and pointers are not reused. */
  ghost predicate OneOwner(s: State) {
    (forall key: HookKey :: key in s.owned ==> Holds(s, key)) && (forall p :: p in s.live ==> HeldByOne(s, p))
  }

  /** An owner's binding is alive and carries the owner's key. */
  predicate Holds(s: State, key: HookKey)
    requires key in s.owned
  {
    var p := s.owned[key];
    p in s.live && s.live[p].key == ToSessionKey(key)
  }

  ghost predicate HeldByOne(s: State, p: Pointer) {
    p < s.nextPointer && exists key :: key in s.owned && s.owned[key] == p
  }

  /** Between operations. */
  ghost predicate Consistent(s: State) {
    s.incoming.None? && s.outgoing.None? && Safe(s) && OneOwner(s)
  }

  /** Key conversion loses nothing: it has an inverse, so two keys never share a session entry, and an
      identity that crosses the boundary comes back unchanged. */
  lemma ConversionIsFaithful(key: HookKey, other: HookKey, k: SessionKey)
    ensures ToSessionKey(key) == ToSessionKey(other) <==> key == other
    ensures FromSessionKey(ToSessionKey(key)) == key && ToSessionKey(FromSessionKey(k)) == k
    ensures FromSessionIdentity(ToSessionIdentity(key.identity)) == key.identity
  {}

  /** The session's key for a hook key, field by field. */
  predicate Names(k: SessionKey, key: HookKey) {
    && (forall i :: 0 <= i < 32 ==> k.identity.image.sha256[i] == key.identity.image.sha256[i])
    && k.identity.moduleGeneration == key.identity.moduleGeneration
    && k.address == key.address
  }

  /** Conversion keeps the digest, the generation and the address. */
  lemma ConversionKeepsFields(k: SessionKey, key: HookKey)
    ensures Names(k, key) <==> k == ToSessionKey(key)
    ensures Names(k, key) <==> key == FromSessionKey(k)
  {
    if Names(k, key) {
      assert k.identity.image.sha256 == key.identity.image.sha256;
    }
  }

  /** The entry under these fields is this context, and every other entry is as before. */
  ghost predicate EntryPut(before: map<SessionKey, Context>, after: map<SessionKey, Context>, key: HookKey,
                           context: Context)
  {
    && (exists k :: k in after && Names(k, key))
    && (forall k :: k in after && Names(k, key) ==> after[k] == context)
    && (forall k :: k in before && !Names(k, key) ==> k in after && after[k] == before[k])
    && (forall k :: k in after && !Names(k, key) ==> k in before)
  }

  /** There is no entry under these fields any more, and every other entry is as before. */
  ghost predicate EntryTaken(before: map<SessionKey, Context>, after: map<SessionKey, Context>, key: HookKey) {
    && (forall k :: k in after ==> k in before && !Names(k, key) && after[k] == before[k])
    && (forall k :: k in before && !Names(k, key) ==> k in after)
  }

  lemma PutAtFields(table: map<SessionKey, Context>, key: HookKey, context: Context)
    ensures EntryPut(table, table[ToSessionKey(key) := context], key, context)
  {
    forall k: SessionKey ensures Names(k, key) <==> k == ToSessionKey(key) {
      ConversionKeepsFields(k, key);
    }
    hide Names, ToSessionKey;
    assert ToSessionKey(key) in table[ToSessionKey(key) := context];
  }

  lemma TakenAtFields(table: map<SessionKey, Context>, key: HookKey)
    ensures EntryTaken(table, table - {ToSessionKey(key)}, key)
    ensures ToSessionKey(key) in table <==> exists k :: k in table && Names(k, key)
  {
    forall k: SessionKey ensures Names(k, key) <==> k == ToSessionKey(key) {
      ConversionKeepsFields(k, key);
    }
    hide Names, ToSessionKey;
  }

  /** An accepted installation leaves, under the hook's own digest, generation and address, a pointer to
      a live binding with the hook; everything else in the session is as before. */
  lemma InstalledIsBound(s: State, key: HookKey, hook: NativeHook)
    requires Consistent(s)
    ensures var t := Installed(s, key, hook, true);
            && EntryPut(s.table, t.table, key, Ours(s.nextPointer))
            && s.nextPointer in t.live && t.live[s.nextPointer].hook == hook
  {
    InstallShape(s, key, hook);
    hide Installed, Consistent, EntryPut;
    PutAtFields(s.table, key, Ours(s.nextPointer));
  }

  /** A removal takes out the entry under those fields, and no other. */
  lemma RemovedIsUnbound(s: State, key: HookKey)
    ensures EntryTaken(s.table, Removed(s, key).table, key)
  {
    hide EntryTaken;
    TakenAtFields(s.table, key);
  }

  lemma OwnedPointersDiffer(s: State, key: HookKey, other: HookKey)
    requires OneOwner(s) && key in s.owned && other in s.owned && s.owned[key] == s.owned[other]
    ensures key == other
  {
    assert Holds(s, key) && Holds(s, other);
    ConversionIsFaithful(key, other, ToSessionKey(key));
  }

  ghost predicate OnlyForeign(table: map<SessionKey, Context>) {
    forall k :: k in table ==> table[k].Foreign?
  }

  lemma AllocateKeeps(s: State, key: HookKey, hook: NativeHook)
    requires Consistent(s)
    ensures var s1 := Allocate(s, key, hook);
            Safe(s1) && Safe(Point(s1, key, s.nextPointer)) && Abandon(s1) == s.(nextPointer := s.nextPointer + 1)
  {
    var s1 := Allocate(s, key, hook);
    var s2 := Point(s1, key, s.nextPointer);
    forall k | k in s.table && s.table[k].Ours?
      ensures Dispatchable(s1, k, s.table[k].pointer) && Dispatchable(s2, k, s.table[k].pointer)
    {
      assert Dispatchable(s, k, s.table[k].pointer);
    }
  }

  lemma OwnKeeps(s: State, key: HookKey, hook: NativeHook)
    requires Consistent(s)
    ensures var s3 := Own(Point(Allocate(s, key, hook), key, s.nextPointer), key, s.nextPointer);
            Safe(s3) && Consistent(Free(s3))
  {
    OwnKeepsSafe(s, key, hook);
    OwnKeepsOwners(s, key, hook);
    hide Safe, OneOwner, ToSessionKey;
  }

  lemma OwnKeepsSafe(s: State, key: HookKey, hook: NativeHook)
    requires Consistent(s)
    ensures var s3 := Own(Point(Allocate(s, key, hook), key, s.nextPointer), key, s.nextPointer);
            Safe(s3) && Safe(Free(s3))
  {
    var s3 := Own(Point(Allocate(s, key, hook), key, s.nextPointer), key, s.nextPointer);
    var s4 := Free(s3);
    forall k | k in s3.table && s3.table[k].Ours?
      ensures Dispatchable(s3, k, s3.table[k].pointer) && Dispatchable(s4, k, s3.table[k].pointer)
    {
      ConversionIsFaithful(key, FromSessionKey(k), k);
      if k != ToSessionKey(key) {
        assert Dispatchable(s, k, s.table[k].pointer);
        if key in s.owned && s.owned[key] == s.table[k].pointer {
          OwnedPointersDiffer(s, key, FromSessionKey(k));
        }
      }
    }
  }

  lemma OwnKeepsOwners(s: State, key: HookKey, hook: NativeHook)
    requires Consistent(s)
    ensures OneOwner(Free(Own(Point(Allocate(s, key, hook), key, s.nextPointer), key, s.nextPointer)))
  {
    hide Safe, ToSessionKey;
    var t := Free(Own(Point(Allocate(s, key, hook), key, s.nextPointer), key, s.nextPointer));
    forall p | p in t.live ensures HeldByOne(t, p) {
      if p == s.nextPointer {
        assert t.owned[key] == p;
      } else {
        assert HeldByOne(s, p);
        var other :| other in s.owned && s.owned[other] == p;
        assert t.owned[other] == p;
      }
    }
    forall other | other in t.owned ensures Holds(t, other) {
      if other != key {
        assert Holds(s, other) && HeldByOne(s, s.owned[other]);
        if key in s.owned && s.owned[other] == s.owned[key] {
          OwnedPointersDiffer(s, key, other);
        }
      }
    }
  }

  /** At every micro-step of an installation or replacement, accepted or refused, every pointer the
      session can dispatch through is alive, carries its key and is owned under it; and the operation
      ends with every live binding owned exactly once. */
  lemma InstallNeverDangles(s: State, key: HookKey, hook: NativeHook, accepted: bool)
    requires Consistent(s)
    ensures var states := InstallTrace(s, key, hook, accepted);
            && (forall i :: 0 <= i < |states| ==> Safe(states[i]))
            && Consistent(Installed(s, key, hook, accepted))
  {
    AllocateKeeps(s, key, hook);
    OwnKeeps(s, key, hook);
    if !accepted {
      ConsistentLater(s, s.nextPointer + 1);
    }
  }

  lemma ConsistentLater(s: State, later: Pointer)
    requires Consistent(s) && s.nextPointer <= later
    ensures Consistent(s.(nextPointer := later))
  {
    var t := s.(nextPointer := later);
    forall k | k in t.table && t.table[k].Ours? ensures Dispatchable(t, k, t.table[k].pointer) {
      assert Dispatchable(s, k, s.table[k].pointer);
    }
  }

  lemma UnpointKeeps(s: State, key: HookKey)
    requires Consistent(s)
    ensures Consistent(Unpoint(s, key))
  {
    var t := Unpoint(s, key);
    forall k | k in t.table && t.table[k].Ours? ensures Dispatchable(t, k, t.table[k].pointer) {
      assert Dispatchable(s, k, s.table[k].pointer);
    }
  }

  /** Dropping a binding the session no longer points at. */
  lemma DisownKeeps(s: State, key: HookKey)
    requires Consistent(s)
    requires ToSessionKey(key) in s.table ==> s.table[ToSessionKey(key)].Foreign?
    ensures Safe(Disown(s, key)) && Consistent(Free(Disown(s, key)))
  {
    var s1, s2 := Disown(s, key), Free(Disown(s, key));
    forall k | k in s.table && s.table[k].Ours?
      ensures Dispatchable(s1, k, s.table[k].pointer) && Dispatchable(s2, k, s.table[k].pointer)
    {
      ConversionIsFaithful(key, FromSessionKey(k), k);
      assert Dispatchable(s, k, s.table[k].pointer);
      if key in s.owned && s.owned[key] == s.table[k].pointer {
        OwnedPointersDiffer(s, key, FromSessionKey(k));
      }
    }
    assert OneOwner(s2) by {
      forall p | p in s2.live ensures HeldByOne(s2, p) {
        assert HeldByOne(s, p);
        var other :| other in s.owned && s.owned[other] == p;
        assert s2.owned[other] == p;
      }
      forall other | other in s2.owned ensures Holds(s2, other) {
        assert Holds(s, other);
        if key in s.owned && s.owned[other] == s.owned[key] {
          OwnedPointersDiffer(s, key, other);
        }
      }
    }
  }

  /** The same for a removal, whether or not the key was installed. */
  lemma RemoveNeverDangles(s: State, key: HookKey)
    requires Consistent(s)
    ensures var states := RemoveTrace(s, key);
            && (forall i :: 0 <= i < |states| ==> Safe(states[i]))
            && Consistent(Removed(s, key))
  {
    UnpointKeeps(s, key);
    DisownKeeps(Unpoint(s, key), key);
  }

  /** Once every owned key has left the session, no pointer of this adapter remains in it. */
  lemma NothingLeft(s: State, t: State)
    requires Consistent(s) && t.table == WithoutOwned(s.table, s.owned.Keys)
    ensures OnlyForeign(t.table)
  {
    forall k | k in s.table && s.table[k].Ours? ensures k !in t.table {
      assert Dispatchable(s, k, s.table[k].pointer);
    }
  }

  /** Another client's entry survives the destructor exactly if its key is not owned. */
  lemma SurvivesDestruction(s: State, k: SessionKey)
    requires k in s.table
    ensures k in WithoutOwned(s.table, s.owned.Keys) <==> FromSessionKey(k) !in s.owned
    ensures k in WithoutOwned(s.table, s.owned.Keys) ==> WithoutOwned(s.table, s.owned.Keys)[k] == s.table[k]
  {
    ConversionIsFaithful(FromSessionKey(k), FromSessionKey(k), k);
    forall key | key in s.owned && ToSessionKey(key) == k ensures key == FromSessionKey(k) {
      ConversionIsFaithful(key, key, k);
    }
  }

  /** Any entry survives a removal exactly if its key is not the removed one, whoever put it there. */
  lemma SurvivesRemoval(s: State, key: HookKey, k: SessionKey)
    requires k in s.table
    ensures k in Removed(s, key).table <==> FromSessionKey(k) != key
    ensures k in Removed(s, key).table ==> Removed(s, key).table[k] == s.table[k]
  {
    ConversionIsFaithful(FromSessionKey(k), key, k);
  }

  /** What can happen to the two tables: operations of the adapter, and other clients of the session. */
  datatype Step =
    | Install(installKey: HookKey, hook: NativeHook, accepted: bool)
    | Remove(removeKey: HookKey)
    | ForeignInstall(installed: SessionKey, id: nat)
    | ForeignRemove(removed: SessionKey)

  function StepTrace(s: State, step: Step): seq<State> {
    match step
    case Install(key, hook, accepted) => InstallTrace(s, key, hook, accepted)
    case Remove(key) => RemoveTrace(s, key)
    case ForeignInstall(k, id) => [s.(table := s.table[k := Foreign(id)])]
    case ForeignRemove(k) => [s.(table := s.table - {k})]
  }

  function Do(s: State, step: Step): State {
    var states := StepTrace(s, step);
    states[|states| - 1]
  }

  function After(run: seq<Step>): State {
    if run == [] then NOTHING else Do(After(run[..|run| - 1]), run[|run| - 1])
  }

  lemma ForeignNeverDangles(s: State, table: map<SessionKey, Context>)
    requires Consistent(s)
    requires forall k :: k in table && table[k].Ours? ==> k in s.table && s.table[k] == table[k]
    ensures Consistent(s.(table := table))
  {
    forall k | k in table && table[k].Ours? ensures Dispatchable(s.(table := table), k, table[k].pointer) {
      assert Dispatchable(s, k, s.table[k].pointer);
    }
  }

  lemma StepNeverDangles(s: State, step: Step)
    requires Consistent(s)
    ensures var states := StepTrace(s, step);
            && (forall i :: 0 <= i < |states| ==> Safe(states[i]))
            && Consistent(Do(s, step))
  {
    match step
    case Install(key, hook, accepted) => InstallNeverDangles(s, key, hook, accepted);
    case Remove(key) => RemoveNeverDangles(s, key);
    case _ => ForeignNeverDangles(s, Do(s, step).table);
  }

  /** No dangling pointer, over every run and at every micro-step of its last operation, with other
      clients free to install over and remove any entry. */
  lemma {:induction false} NeverDangles(run: seq<Step>)
    ensures Consistent(After(run))
    ensures run != [] ==>
              forall state :: state in StepTrace(After(run[..|run| - 1]), run[|run| - 1]) ==> Safe(state)
  {
    if run != [] {
      NeverDangles(run[..|run| - 1]);
      StepNeverDangles(After(run[..|run| - 1]), run[|run| - 1]);
    }
  }

  /** An entry that another client installs over a hook of the adapter is lost to the adapter's own
      removal of that hook, and to its destruction. */
  lemma ForeignEntryLost(key: HookKey, hook: NativeHook, id: nat)
    ensures var s := After([Step.Install(key, hook, true), ForeignInstall(ToSessionKey(key), id)]);
            && Consistent(s)
            && ToSessionKey(key) in s.table && s.table[ToSessionKey(key)] == Foreign(id)
            && ToSessionKey(key) !in Removed(s, key).table
            && ToSessionKey(key) !in WithoutOwned(s.table, s.owned.Keys)
  {
    var run := [Step.Install(key, hook, true), ForeignInstall(ToSessionKey(key), id)];
    assert run[..1] == [Step.Install(key, hook, true)] && run[..1][..0] == [];
    NeverDangles(run);
    var s := After(run);
    assert After(run[..1]) == Installed(NOTHING, key, hook, true);
    ConversionIsFaithful(key, key, ToSessionKey(key));
    SurvivesRemoval(s, key, ToSessionKey(key));
    SurvivesDestruction(s, ToSessionKey(key));
  }

  /** The two tables have the same keys and agree on the pointers. */
  ghost predicate TablesAgree(s: State) {
    (forall key: HookKey :: Reachable(s, key)) && (forall k: SessionKey :: Accounted(s, k))
  }

  /** If owned, the session dispatches to it. */
  predicate Reachable(s: State, key: HookKey) {
    var k := ToSessionKey(key);
    key in s.owned ==> k in s.table && s.table[k] == Ours(s.owned[key])
  }

  /** If in the session, then owned. */
  predicate Accounted(s: State, k: SessionKey) {
    k in s.table ==> FromSessionKey(k) in s.owned
  }

  /** What the session runs at a key of this adapter. */
  function Dispatched(s: State, key: HookKey): Option<NativeHook> {
    var k := ToSessionKey(key);
    if k in s.table && s.table[k].Ours? && s.table[k].pointer in s.live
    then Some(s.live[s.table[k].pointer].hook) else None
  }

  /** The hooks a caller believes to be installed: accepted installations and removals, in order. */
  function Believe(hooks: Hooks, step: Step): Hooks {
    match step
    case Install(key, hook, accepted) => if accepted then hooks[key := hook] else hooks
    case Remove(key) => hooks - {key}
    case _ => hooks
  }

  function Believed(run: seq<Step>): Hooks {
    if run == [] then map[] else Believe(Believed(run[..|run| - 1]), run[|run| - 1])
  }

  /** The pointer tables stand for this map. */
  ghost predicate Refines(s: State, hooks: Hooks) {
    && TablesAgree(s)
    && s.owned.Keys == hooks.Keys
    && forall key :: Dispatched(s, key) == Decision(hooks, key)
  }

  predicate AdapterOnly(run: seq<Step>) {
    forall step :: step in run ==> step.Install? || step.Remove?
  }

  lemma InstallShape(s: State, key: HookKey, hook: NativeHook)
    requires Consistent(s)
    ensures var t := Installed(s, key, hook, true);
            && Consistent(t)
            && t.owned == s.owned[key := s.nextPointer]
            && t.table == s.table[ToSessionKey(key) := Ours(s.nextPointer)]
            && s.nextPointer in t.live && t.live[s.nextPointer].hook == hook
            && forall p :: p in s.live && p in t.live ==> t.live[p] == s.live[p]
  {
    InstallNeverDangles(s, key, hook, true);
    hide Safe, ToSessionKey;
  }

  lemma InstallTables(s: State, t: State, key: HookKey, p: Pointer)
    requires TablesAgree(s)
    requires t.owned == s.owned[key := p] && t.table == s.table[ToSessionKey(key) := Ours(p)]
    ensures TablesAgree(t)
  {
    hide ToSessionKey, FromSessionKey;
    forall k ensures Accounted(t, k) {
      assert Accounted(s, k);
      ConversionIsFaithful(key, FromSessionKey(k), k);
    }
    forall other ensures Reachable(t, other) {
      assert Reachable(s, other);
      ConversionIsFaithful(key, other, ToSessionKey(key));
    }
  }

  lemma InstallAgrees(s: State, key: HookKey, hook: NativeHook)
    requires Consistent(s) && TablesAgree(s)
    ensures var t := Installed(s, key, hook, true);
            && TablesAgree(t)
            && t.owned.Keys == s.owned.Keys + {key}
            && forall other :: Dispatched(t, other) ==
                               if other == key then Some(hook) else Dispatched(s, other)
  {
    hide Installed, Consistent, TablesAgree, ToSessionKey;
    var t := Installed(s, key, hook, true);
    InstallShape(s, key, hook);
    InstallTables(s, t, key, s.nextPointer);
    assert Dispatched(t, key) == Some(hook);
    hide Dispatched;
    forall other | other != key ensures Dispatched(t, other) == Dispatched(s, other) {
      DispatchedSame(s, t, other);
    }
  }

  lemma RefusedInstallAgrees(s: State, key: HookKey, hook: NativeHook)
    requires Consistent(s)
    ensures var t := Installed(s, key, hook, false); t == s.(nextPointer := t.nextPointer)
  {
    AllocateKeeps(s, key, hook);
  }

  lemma RemoveShape(s: State, key: HookKey)
    requires Consistent(s)
    ensures var t := Removed(s, key);
            && Consistent(t)
            && t.owned == s.owned - {key}
            && t.table == s.table - {ToSessionKey(key)}
            && forall p :: p in s.live && p in t.live ==> t.live[p] == s.live[p]
  {
    RemoveNeverDangles(s, key);
    hide Safe, ToSessionKey;
  }

  lemma RemoveTables(s: State, t: State, key: HookKey)
    requires TablesAgree(s)
    requires t.owned == s.owned - {key} && t.table == s.table - {ToSessionKey(key)}
    ensures TablesAgree(t)
  {
    hide ToSessionKey, FromSessionKey;
    forall k ensures Accounted(t, k) {
      assert Accounted(s, k);
      ConversionIsFaithful(key, FromSessionKey(k), k);
    }
    forall other ensures Reachable(t, other) {
      assert Reachable(s, other);
      ConversionIsFaithful(key, other, ToSessionKey(key));
    }
  }

  lemma RemoveAgrees(s: State, key: HookKey)
    requires Consistent(s) && TablesAgree(s)
    ensures var t := Removed(s, key);
            && TablesAgree(t)
            && t.owned.Keys == s.owned.Keys - {key}
            && (ToSessionKey(key) in s.table <==> key in s.owned)
            && forall other :: Dispatched(t, other) == if other == key then None else Dispatched(s, other)
  {
    hide Removed, Consistent, TablesAgree, ToSessionKey;
    var t := Removed(s, key);
    RemoveShape(s, key);
    InTableIffOwned(s, key);
    RemoveTables(s, t, key);
    assert Dispatched(t, key) == None;
    hide Dispatched;
    forall other | other != key ensures Dispatched(t, other) == Dispatched(s, other) {
      DispatchedSame(s, t, other);
    }
  }

  /** A step that leaves a key's pointer and what lies behind it leaves what the session runs there. */
  lemma DispatchedSame(s: State, t: State, key: HookKey)
    requires Consistent(s) && TablesAgree(s) && Consistent(t) && TablesAgree(t)
    requires key in s.owned <==> key in t.owned
    requires key in s.owned ==> t.owned[key] == s.owned[key]
    requires forall p :: p in s.live && p in t.live ==> t.live[p] == s.live[p]
    ensures Dispatched(t, key) == Dispatched(s, key)
  {
    hide Consistent, TablesAgree, Dispatched;
    DispatchedIfOwned(s, key);
    DispatchedIfOwned(t, key);
  }

  /** Tables in step: the session runs exactly what the adapter owns. */
  lemma DispatchedIfOwned(s: State, key: HookKey)
    requires Consistent(s) && TablesAgree(s)
    ensures key in s.owned ==> s.owned[key] in s.live
    ensures Dispatched(s, key) == if key in s.owned then Some(s.live[s.owned[key]].hook) else None
  {
    assert Reachable(s, key);
    hide Safe, Dispatchable, ToSessionKey, FromSessionKey;
    InTableIffOwned(s, key);
  }

  lemma InTableIffOwned(s: State, key: HookKey)
    requires TablesAgree(s)
    ensures ToSessionKey(key) in s.table <==> key in s.owned
  {
    assert Reachable(s, key) && Accounted(s, ToSessionKey(key));
    ConversionIsFaithful(key, key, ToSessionKey(key));
  }

  lemma StepRefines(s: State, hooks: Hooks, step: Step)
    requires Consistent(s) && Refines(s, hooks) && (step.Install? || step.Remove?)
    ensures Refines(Do(s, step), Believe(hooks, step))
    ensures step.Remove? ==> (ToSessionKey(step.removeKey) in s.table <==> step.removeKey in hooks)
  {
    hide Consistent, TablesAgree, Dispatched, ToSessionKey;
    match step
    case Install(key, hook, true) =>
      InstallAgrees(s, key, hook);
      assert Do(s, step) == Installed(s, key, hook, true);
    case Install(key, hook, false) =>
      RefusedInstallAgrees(s, key, hook);
      assert Do(s, step) == Installed(s, key, hook, false);
      LaterSame(s, Do(s, step).nextPointer);
    case Remove(key) =>
      RemoveAgrees(s, key);
      assert Do(s, step) == Removed(s, key);
  }

  lemma LaterSame(s: State, later: Pointer)
    requires TablesAgree(s)
    ensures TablesAgree(s.(nextPointer := later))
    ensures forall key :: Dispatched(s.(nextPointer := later), key) == Dispatched(s, key)
  {
    var t := s.(nextPointer := later);
    assert forall key: HookKey :: Reachable(s, key) ==> Reachable(t, key);
    assert forall k: SessionKey :: Accounted(s, k) ==> Accounted(t, k);
  }

  /** When only the adapter uses the session, the two tables stay in step and the session runs, at
      every key, exactly the hook its caller last installed there: the pointer tables refine a map. */
  lemma {:induction false} RefinesHookMap(run: seq<Step>)
    requires AdapterOnly(run)
    ensures Refines(After(run), Believed(run))
  {
    if run != [] {
      var before := run[..|run| - 1];
      assert run[|run| - 1] in run;
      RefinesHookMap(before);
      NeverDangles(before);
      hide Refines, Do, Believe, Consistent;
      StepRefines(After(before), Believed(before), run[|run| - 1]);
    }
  }
}
