/** Every run of registry calls at non-decreasing heights. */
module RegistryRuns {

  import opened Wrappers
  import opened Codec
  import opened Registry

  type Store = map<Bytes, Bytes>

  datatype Step = Step(call: Call, caller: Bytes, height: nat)

  ghost predicate StepOk(s: Step) {
    |s.caller| == 32 && ActionSized(s.call.action)
  }

  function Stored(store: Store, k: Bytes): Option<Bytes> {
    if k in store then Some(store[k]) else None
  }

  ghost function Outcome(store: Store, s: Step): Result<Option<Lease>, RegistryError> {
    Next(s.call, Stored(store, KeyOf(s.call.name)), s.caller, s.height)
  }

  /** Publishes what the transition returns under the called name's key; errors publish nothing. */
  ghost function After(store: Store, s: Step): Store
    requires StepOk(s)
  {
    var k := KeyOf(s.call.name);
    match Outcome(store, s)
    case Err(_) => store
    case Ok(None) => store - {k}
    case Ok(Some(lease)) =>
      NextIsValid(s.call, Stored(store, k), s.caller, s.height);
      store[k := EncodeLease(lease)]
  }

  ghost predicate IsRun(steps: seq<Step>, stores: seq<Store>) {
    && |stores| == |steps| + 1 && stores[0] == map[]
    && (forall i | 0 <= i < |steps| :: StepOk(steps[i]) && stores[i + 1] == After(stores[i], steps[i]))
    && (forall i, j | 0 <= i < j < |steps| :: steps[i].height <= steps[j].height)
  }

  /** Height of the last call before position `i`. */
  ghost function Clock(steps: seq<Step>, i: nat): nat
    requires i <= |steps|
  {
    if i == 0 then 0 else steps[i - 1].height
  }

  /** One entry: it decodes, sits under its own name's key and does not outlast the maximum duration. */
  ghost predicate EntryOk(k: Bytes, bytes: Bytes, height: nat) {
    && ParseLease(bytes).Ok?
    && var l := ParseLease(bytes).value;
       KeyOf(l.name) == k && l.issued <= height && l.expires <= height + MAX_DURATION
  }

  ghost predicate Inv(store: Store, height: nat) {
    forall k | k in store :: EntryOk(k, store[k], height)
  }

  lemma StepKeepsInv(store: Store, height: nat, s: Step)
    requires Inv(store, height) && StepOk(s) && height <= s.height
    ensures Inv(After(store, s), s.height)
  {
    hide ParseLease;
    hide NameOk;
    hide RecordOk;
    hide IsZero;
    hide EncodeLease;
    var k := KeyOf(s.call.name);
    var (previous, r) := (Stored(store, k), Outcome(store, s));
    if r.Ok? && r.value.Some? {
      NextIsValid(s.call, previous, s.caller, s.height);
      LeaseBack(r.value.value);
      if k in store {
        assert EntryOk(k, store[k], height);
      }
    }
  }

  /** In every reachable store all bytes decode, entries sit under their keys and durations are bounded. */
  lemma {:induction false} ReachableInv(steps: seq<Step>, stores: seq<Store>, i: nat)
    requires IsRun(steps, stores) && i < |stores|
    ensures Inv(stores[i], Clock(steps, i))
  {
    hide After;
    hide EntryOk;
    if i > 0 {
      ReachableInv(steps, stores, i - 1);
      StepKeepsInv(stores[i - 1], Clock(steps, i - 1), steps[i - 1]);
    }
  }

  /** A live lease never has more than the maximum duration left. */
  lemma BoundedLeases(steps: seq<Step>, stores: seq<Store>, i: nat, k: Bytes, height: nat)
    requires IsRun(steps, stores) && i < |stores| && k in stores[i] && Clock(steps, i) <= height
    ensures ParseLease(stores[i][k]).Ok?
    ensures var l := ParseLease(stores[i][k]).value;
            LeaseOk(l) && KeyOf(l.name) == k && |stores[i][k]| <= MAX_LEASE
            && (height < l.expires ==> l.expires - height <= MAX_DURATION)
  {
    hide After;
    hide ParseLease;
    ReachableInv(steps, stores, i);
    assert EntryOk(k, stores[i][k], Clock(steps, i));
    LeaseForth(stores[i][k]);
    LeaseFits(ParseLease(stores[i][k]).value);
  }

  /** Only the owner, calling with the exact name, changes or removes a live lease. */
  lemma OnlyOwnerChanges(store: Store, height: nat, s: Step, k: Bytes)
    requires Inv(store, height) && StepOk(s) && k in store
    requires s.height < ParseLease(store[k]).value.expires
    requires Stored(After(store, s), k) != Stored(store, k)
    ensures var l := ParseLease(store[k]).value;
            s.caller == l.owner && s.call.name == l.name && !s.call.action.Register?
  {
    hide ParseLease;
    hide NameOk;
    hide RecordOk;
    hide IsZero;
    hide EncodeLease;
    assert EntryOk(k, store[k], height);
    assert k == KeyOf(s.call.name);
  }

  /** Call `i` was made by `owner` under exactly this name. */
  ghost predicate OwnerCall(s: Step, owner: Bytes, name: Bytes) {
    s.caller == owner && s.call.name == name
  }

  /** While it lives, a lease without owner calls stays exactly as it was, whatever others do. */
  lemma {:induction false} LeaseIsSafe(steps: seq<Step>, stores: seq<Store>, from: nat, to: nat, k: Bytes)
    requires IsRun(steps, stores) && from <= to < |stores| && k in stores[from] && ParseLease(stores[from][k]).Ok?
    requires var l := ParseLease(stores[from][k]).value;
             forall i | from <= i < to :: !OwnerCall(steps[i], l.owner, l.name) && steps[i].height < l.expires
    ensures k in stores[to] && stores[to][k] == stores[from][k]
  {
    hide After;
    hide ParseLease;
    hide EntryOk;
    if from < to {
      LeaseIsSafe(steps, stores, from, to - 1, k);
      ReachableInv(steps, stores, to - 1);
      assert !OwnerCall(steps[to - 1], ParseLease(stores[from][k]).value.owner, ParseLease(stores[from][k]).value.name);
      if Stored(stores[to], k) != Stored(stores[to - 1], k) {
        OnlyOwnerChanges(stores[to - 1], Clock(steps, to - 1), steps[to - 1], k);
        assert false;
      }
    }
  }

  /** Names share a key exactly when they are confusable. */
  lemma KeysAreSkeletons(a: Bytes, b: Bytes)
    ensures KeyOf(a) == KeyOf(b) <==> Skeleton(a) == Skeleton(b)
  {
    assert KeyOf(a)[|KEY_PREFIX|..] == Skeleton(a) && KeyOf(b)[|KEY_PREFIX|..] == Skeleton(b);
  }

  /** Confusable names never hold two leases: such entries are one and the same. */
  lemma ConfusableNamesAreOneEntry(steps: seq<Step>, stores: seq<Store>, i: nat, k: Bytes, m: Bytes)
    requires IsRun(steps, stores) && i < |stores| && k in stores[i] && m in stores[i]
    requires ParseLease(stores[i][k]).Ok? && ParseLease(stores[i][m]).Ok?
    requires Skeleton(ParseLease(stores[i][k]).value.name) == Skeleton(ParseLease(stores[i][m]).value.name)
    ensures k == m
  {
    hide After;
    hide ParseLease;
    ReachableInv(steps, stores, i);
    assert EntryOk(k, stores[i][k], Clock(steps, i)) && EntryOk(m, stores[i][m], Clock(steps, i));
    KeysAreSkeletons(ParseLease(stores[i][k]).value.name, ParseLease(stores[i][m]).value.name);
  }
}
