/** What each registry call achieves, for whom it succeeds, and what later callers then meet. */
module RegistryEffects {

  import opened Wrappers
  import opened Codec
  import opened Registry
  import opened RegistryRuns

  /** The lease that the bytes stored under a key stand for. */
  ghost function Held(store: Store, k: Bytes): Option<Lease> {
    if k in store && ParseLease(store[k]).Ok? then Some(ParseLease(store[k]).value) else None
  }

  /** That lease, while it has not expired. */
  ghost function Live(store: Store, k: Bytes, height: nat): Option<Lease> {
    if Held(store, k).Some? && height < Held(store, k).value.expires then Held(store, k) else None
  }

  /** A well-formed name, a caller that is somebody, and a height after the first. */
  ghost predicate Proper(s: Step) {
    NameOk(s.call.name) && Somebody(s.caller) && 0 < s.height
  }

  /** Not the all-zero address. */
  ghost predicate Somebody(owner: Bytes) {
    exists i :: 0 <= i < |owner| && owner[i] != 0
  }

  lemma ZeroIsNobody(owner: Bytes)
    ensures IsZero(owner) <==> !Somebody(owner)
  {
  }

  /** Whole lease left in the store by an owner's action, or nothing if it ends the lease. */
  ghost function Changed(l: Lease, a: Action): Option<Lease>
    requires !a.Register?
  {
    match a
    case Update(record) => Some(Lease(l.name, l.owner, l.issued, l.expires, record))
    case Renew(duration) => Some(Lease(l.name, l.owner, l.issued, l.expires + duration, l.record))
    case Transfer(owner) => Some(Lease(l.name, owner, l.issued, l.expires, l.record))
    case Release => None
  }

  /** What an owner's action must satisfy. */
  ghost predicate Allowed(l: Lease, a: Action, height: nat) {
    match a
    case Update(record) => RecordOk(record)
    case Renew(duration) =>
      0 < duration && l.expires + duration <= U64_MAX && l.expires + duration <= height + 1_000_000
    case Transfer(owner) => Somebody(owner)
    case Release => true
    case Register(_, _) => false
  }

  // One call.

  /** Only the entry of the called name can change, and a refused call changes nothing. */
  lemma OthersUntouched(store: Store, s: Step, k: Bytes)
    requires StepOk(s) && (k != KeyOf(s.call.name) || Outcome(store, s).Err?)
    ensures Held(After(store, s), k) == Held(store, k) && (k in After(store, s) <==> k in store)
  {
    hide Next;
    hide ParseLease;
    hide EncodeLease;
  }

  /** The produced lease is what the store holds afterwards. */
  lemma Publishes(store: Store, s: Step)
    requires StepOk(s) && Outcome(store, s).Ok?
    ensures Held(After(store, s), KeyOf(s.call.name)) == Outcome(store, s).value
  {
    hide Next;
    hide ParseLease;
    hide EncodeLease;
    if Outcome(store, s).value.Some? {
      NextIsValid(s.call, Stored(store, KeyOf(s.call.name)), s.caller, s.height);
      LeaseBack(Outcome(store, s).value.value);
    }
  }

  /** In a reachable store the bytes under a key always decode. */
  lemma StoredDecodes(store: Store, clock: nat, k: Bytes)
    requires Inv(store, clock)
    ensures Previous(Stored(store, k)) == Ok(Held(store, k))
  {
    hide ParseLease;
    if k in store {
      assert EntryOk(k, store[k], clock);
    }
  }

  /** When `Register` is granted. */
  ghost predicate Grants(s: Step, live: Option<Lease>)
    requires s.call.action.Register?
  {
    var a := s.call.action;
    && Proper(s) && live.None? && RecordOk(a.record)
    && 0 < a.duration <= 1_000_000 && s.height + a.duration <= U64_MAX
  }

  /** When a call on a lease is granted. */
  ghost predicate Obeys(s: Step, live: Option<Lease>) {
    && Proper(s) && live.Some? && live.value.name == s.call.name && live.value.owner == s.caller
    && Allowed(live.value, s.call.action, s.height)
  }

  lemma RegisterOutcome(store: Store, clock: nat, s: Step)
    requires Inv(store, clock) && s.call.action.Register?
    ensures var a := s.call.action;
            if Grants(s, Live(store, KeyOf(s.call.name), s.height)) then
              Outcome(store, s) == Ok(Some(Lease(s.call.name, s.caller, s.height, s.height + a.duration, a.record)))
            else Outcome(store, s).Err?
  {
    hide Inv;
    hide KeyOf;
    hide Held;
    hide Previous;
    hide Stored;
    hide NameOk;
    hide RecordOk;
    hide IsZero;
    hide Somebody;
    ZeroIsNobody(s.caller);
    StoredDecodes(store, clock, KeyOf(s.call.name));
  }

  lemma OwnerOutcome(store: Store, clock: nat, s: Step)
    requires Inv(store, clock) && !s.call.action.Register?
    ensures var l := Live(store, KeyOf(s.call.name), s.height);
            if Obeys(s, l) then Outcome(store, s) == Ok(Changed(l.value, s.call.action)) else Outcome(store, s).Err?
  {
    hide Inv;
    hide KeyOf;
    hide Held;
    hide Previous;
    hide Stored;
    hide NameOk;
    hide RecordOk;
    hide IsZero;
    hide Somebody;
    ZeroIsNobody(s.caller);
    if s.call.action.Transfer? {
      ZeroIsNobody(s.call.action.owner);
    }
    StoredDecodes(store, clock, KeyOf(s.call.name));
  }

  /**
   * Anybody registers a well-formed name that is free or expired, for a permitted time, and then holds it from
   * this height for exactly that time; in every other case the call is refused and changes nothing.
   */
  lemma RegisterEffect(store: Store, clock: nat, s: Step)
    requires Inv(store, clock) && StepOk(s) && s.call.action.Register?
    ensures var (a, k) := (s.call.action, KeyOf(s.call.name));
            if Grants(s, Live(store, k, s.height)) then
              && Outcome(store, s).Ok?
              && Held(After(store, s), k)
                 == Some(Lease(s.call.name, s.caller, s.height, s.height + a.duration, a.record))
            else Outcome(store, s).Err? && After(store, s) == store
  {
    hide Inv;
    hide KeyOf;
    hide EncodeLease;
    hide Live;
    hide Held;
    hide Grants;
    hide Next;
    RegisterOutcome(store, clock, s);
    if Outcome(store, s).Ok? {
      Publishes(store, s);
    }
  }

  /**
   * The owner of a live lease, under its exact spelling, changes exactly what the action names, if it is allowed;
   * everybody else is refused and changes nothing.
   */
  lemma OwnerEffect(store: Store, clock: nat, s: Step)
    requires Inv(store, clock) && StepOk(s) && !s.call.action.Register?
    ensures var k := KeyOf(s.call.name);
            var l := Live(store, k, s.height);
            if Obeys(s, l) then Outcome(store, s).Ok? && Held(After(store, s), k) == Changed(l.value, s.call.action)
            else Outcome(store, s).Err? && After(store, s) == store
  {
    hide Inv;
    hide KeyOf;
    hide EncodeLease;
    hide Live;
    hide Held;
    hide Obeys;
    hide Next;
    OwnerOutcome(store, clock, s);
    if Outcome(store, s).Ok? {
      Publishes(store, s);
    }
  }

  /** A released name is gone from the store. */
  lemma ReleaseRemoves(store: Store, s: Step)
    requires StepOk(s) && s.call.action.Release? && Outcome(store, s).Ok?
    ensures KeyOf(s.call.name) !in After(store, s)
  {
    hide ParseLease;
    hide NameOk;
  }

  /** Why a call is refused, first reason first, in terms of the caller and the lease that is live. */
  ghost function Refusal(store: Store, s: Step): Option<RegistryError> {
    var l := Live(store, KeyOf(s.call.name), s.height);
    if !NameOk(s.call.name) then Some(Name)
    else if !Somebody(s.caller) || s.height == 0 then Some(Owner)
    else if s.call.action.Register? then
      if l.Some? then Some(Occupied)
      else if !RecordOk(s.call.action.record) then Some(Encoding)
      else if !(0 < s.call.action.duration <= 1_000_000 && s.height + s.call.action.duration <= U64_MAX) then
        Some(Duration)
      else None
    else if l.None? || l.value.name != s.call.name then Some(Expired)
    else if l.value.owner != s.caller then Some(Owner)
    else if Allowed(l.value, s.call.action, s.height) then None
    else match s.call.action case Update(_) => Some(Encoding) case Renew(_) => Some(Duration) case _ => Some(Owner)
  }

  lemma RefusedForFirstReason(store: Store, clock: nat, s: Step)
    requires Inv(store, clock) && StepOk(s)
    ensures var (r, reason) := (Outcome(store, s), Refusal(store, s));
            if reason.Some? then r == Err(reason.value) else r.Ok?
  {
    hide Inv;
    hide KeyOf;
    hide Held;
    hide Previous;
    hide Stored;
    hide NameOk;
    hide RecordOk;
    hide IsZero;
    hide Somebody;
    ZeroIsNobody(s.caller);
    if s.call.action.Transfer? {
      ZeroIsNobody(s.call.action.owner);
    }
    StoredDecodes(store, clock, KeyOf(s.call.name));
  }

  /** Stored bytes that are no lease block every proper call on them, with the reader's own error. */
  lemma CorruptEntryBlocks(store: Store, s: Step)
    requires Proper(s) && KeyOf(s.call.name) in store && ParseLease(store[KeyOf(s.call.name)]).Err?
    ensures Outcome(store, s) == Err(ParseLease(store[KeyOf(s.call.name)]).error)
  {
    hide ParseLease;
    hide NameOk;
    hide KeyOf;
    ZeroIsNobody(s.caller);
  }

  // Whole runs.

  /** A well-formed step at or after everything that happened before position `i`. */
  ghost predicate Timely(steps: seq<Step>, i: nat, s: Step)
    requires i <= |steps|
  {
    StepOk(s) && Clock(steps, i) <= s.height
  }

  /**
   * After a transfer, and for as long as neither the new owner calls nor the lease runs out, the old owner is
   * refused as not the owner, and whatever the new owner is allowed to do succeeds with exactly its effect.
   */
  lemma TransferHandsOver(steps: seq<Step>, stores: seq<Store>, i: nat, j: nat, s: Step)
    requires IsRun(steps, stores) && i < j < |stores| && Timely(steps, j, s)
    requires steps[i].call.action.Transfer? && Outcome(stores[i], steps[i]).Ok?
    requires var (name, heir) := (steps[i].call.name, steps[i].call.action.owner);
             forall n | i < n < j :: !OwnerCall(steps[n], heir, name)
    requires Live(stores[i], KeyOf(steps[i].call.name), steps[i].height).Some?
    requires var expires := Live(stores[i], KeyOf(steps[i].call.name), steps[i].height).value.expires;
             s.height < expires && forall n | i < n < j :: steps[n].height < expires
    requires s.call.name == steps[i].call.name && !s.call.action.Register? && Proper(s)
    ensures var (was, heir, k) := (steps[i].caller, steps[i].call.action.owner, KeyOf(s.call.name));
            var l := Live(stores[i], k, steps[i].height).value.(owner := heir);
            && Held(stores[j], k) == Some(l)
            && (s.caller == was != heir ==> Outcome(stores[j], s) == Err(Owner))
            && (s.caller == heir && Allowed(l, s.call.action, s.height) ==>
                  Outcome(stores[j], s).Ok? && Held(After(stores[j], s), k) == Changed(l, s.call.action))
  {
    hide ParseLease;
    hide NameOk;
    hide RecordOk;
    hide IsZero;
    hide EncodeLease;
    hide Next;
    var k := KeyOf(s.call.name);
    ReachableInv(steps, stores, i);
    ReachableInv(steps, stores, j);
    OwnerEffect(stores[i], Clock(steps, i), steps[i]);
    assert stores[i + 1] == After(stores[i], steps[i]);
    LeaseIsSafe(steps, stores, i + 1, j, k);
    OwnerEffect(stores[j], Clock(steps, j), s);
    RefusedForFirstReason(stores[j], Clock(steps, j), s);
  }

  /** Once a lease has run out or been released, anybody else may take the name, under any confusable spelling. */
  lemma FreeNamesAreTaken(steps: seq<Step>, stores: seq<Store>, i: nat, s: Step)
    requires IsRun(steps, stores) && i < |stores| && Timely(steps, i, s) && Proper(s)
    requires s.call.action.Register? && RecordOk(s.call.action.record)
    requires 0 < s.call.action.duration <= 1_000_000 && s.height + s.call.action.duration <= U64_MAX
    requires var k := KeyOf(s.call.name);
             k !in stores[i] || (Held(stores[i], k).Some? && Held(stores[i], k).value.expires <= s.height)
    ensures Held(After(stores[i], s), KeyOf(s.call.name))
         == Some(Lease(s.call.name, s.caller, s.height, s.height + s.call.action.duration, s.call.action.record))
  {
    hide ParseLease;
    hide NameOk;
    hide RecordOk;
    hide IsZero;
    hide EncodeLease;
    hide Next;
    ReachableInv(steps, stores, i);
    RegisterEffect(stores[i], Clock(steps, i), s);
  }
}
