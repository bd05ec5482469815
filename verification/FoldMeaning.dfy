/** What the account event lists of a payment block say about its serial execution. */
module FoldMeaning {

  import opened Wrappers
  import opened Ledger
  import opened Scheduler
  import opened Speculation
  import opened Guards

  /** Blocks that the fold handles: payments between different accounts. */
  predicate Foldable(txs: Block) {
    forall i | 0 <= i < |txs| ::
      txs[i].lane == Lane.Payments && txs[i].payload.Payment? && txs[i].sender != txs[i].payload.recipient
  }

  /** The limits, fee and amounts of one payment are representable. */
  predicate Chargeable(env: Env, tx: Transaction)
    requires tx.payload.Payment?
  {
    var (fee, cost) := (PaymentResources(tx).CheckedCost(env.prices), tx.limit.CheckedCost(env.prices));
    && PaymentResources(tx).FitsIn(tx.limit)
    && fee.Some? && tx.payload.amount + fee.value <= U64_MAX
    && cost.Some? && cost.value + tx.payload.amount <= U64_MAX
  }

  function Debit(env: Env, tx: Transaction, i: nat): Event
    requires tx.payload.Payment? && Chargeable(env, tx)
  {
    var (fee, cost) := (PaymentResources(tx).CheckedCost(env.prices), tx.limit.CheckedCost(env.prices));
    Event(i, true, Guard(-(tx.payload.amount + fee.value), cost.value + tx.payload.amount, U64_MAX))
  }

  function Credit(tx: Transaction, i: nat): Event
    requires tx.payload.Payment?
  {
    Event(i, false, Guard(tx.payload.amount, 0, U64_MAX - tx.payload.amount))
  }

  ghost predicate AllChargeable(env: Env, txs: Block, upTo: nat) {
    upTo <= |txs| && Foldable(txs) && forall i | 0 <= i < upTo :: Chargeable(env, txs[i])
  }

  /** Debits and credits of account `a` among the first `upTo` payments, in block order. */
  ghost function EventsOf(env: Env, txs: Block, a: Address, upTo: nat): seq<Event>
    requires AllChargeable(env, txs, upTo)
  {
    if upTo == 0 then []
    else
      var (before, tx, i) := (EventsOf(env, txs, a, upTo - 1), txs[upTo - 1], upTo - 1);
      if tx.sender == a then before + [Debit(env, tx, i)]
      else if tx.payload.recipient == a then before + [Credit(tx, i)]
      else before
  }

  lemma CostIsMonotone(small: Resources, large: Resources, prices: Resources)
    requires small.FitsIn(large) && large.CheckedCost(prices).Some?
    ensures small.CheckedCost(prices).Some? && small.CheckedCost(prices).value <= large.CheckedCost(prices).value
  {
    small.CostIsExact(prices);
    large.CostIsExact(prices);
    hide Resources.CheckedCost;
    MulMonotone(small.compute, large.compute, prices.compute);
    MulMonotone(small.memory, large.memory, prices.memory);
    MulMonotone(small.io, large.io, prices.io);
    MulMonotone(small.bandwidth, large.bandwidth, prices.bandwidth);
  }

  lemma MulMonotone(a: nat, b: nat, c: nat)
    requires a <= b
    ensures a * c <= b * c
  {
  }

  lemma {:induction false} EventsAreEvents(env: Env, txs: Block, a: Address, upTo: nat)
    requires AllChargeable(env, txs, upTo)
    ensures AreEvents(EventsOf(env, txs, a, upTo)) && |EventsOf(env, txs, a, upTo)| <= upTo
  {
    hide Resources.CheckedCost;
    if upTo > 0 {
      EventsAreEvents(env, txs, a, upTo - 1);
      var tx := txs[upTo - 1];
      CostIsMonotone(PaymentResources(tx), tx.limit, env.prices);
    }
  }

  ghost predicate Seeded(s: State, accounts: map<Address, Account>, txs: Block) {
    && Foldable(txs)
    && (forall a | a in accounts :: Get(s, AccountKey(a)) == Some(AccountValue(accounts[a])))
    && (forall i | 0 <= i < |txs| :: txs[i].sender in accounts && txs[i].payload.recipient in accounts)
  }

  /** The account before transaction `i`, reconstructed from its seed and earlier events. */
  ghost predicate IsInput(env: Env, txs: Block, accounts: map<Address, Account>, a: Address, i: nat, account: Account)
    requires AllChargeable(env, txs, i) && a in accounts
  {
    var events := EventsOf(env, txs, a, i);
    account.nonce == accounts[a].nonce + Outgoing(events) && account.balance == accounts[a].balance + Net(events)
  }

  ghost function AccountAt(env: Env, txs: Block, s: State, i: nat, a: Address): Option<Value>
    requires i <= |txs|
  {
    Get(SerialState(env, txs, s, i), AccountKey(a))
  }

  ghost predicate SerialAccountIs(env: Env, txs: Block, s: State, accounts: map<Address, Account>, i: nat, a: Address)
    requires AllChargeable(env, txs, i) && a in accounts
  {
    var now := AccountAt(env, txs, s, i, a);
    now.Some? && now.value.AccountValue? && IsInput(env, txs, accounts, a, i, now.value.account)
  }

  /** A payment turns the reconstructed account before it into the one after it. */
  lemma PaymentFollowsEvents(env: Env, tx: Transaction, view: State, a: Address)
    requires tx.payload.Payment? && tx.sender != tx.payload.recipient && Chargeable(env, tx)
    requires Pay(env, tx, view, ZERO).Ok? && Get(view, AccountKey(a)).Some?
             && Get(view, AccountKey(a)).value.AccountValue?
    ensures var (was, next) := (Get(view, AccountKey(a)).value.account,
                                 Get(Apply(view, Pay(env, tx, view, ZERO).value.0.diff), AccountKey(a)));
            && next.Some? && next.value.AccountValue?
            && next.value.account.balance == was.balance + (if tx.sender == a then Debit(env, tx, 0).guard.delta
                                                             else if tx.payload.recipient == a then tx.payload.amount
                                                             else 0)
            && next.value.account.nonce == was.nonce + (if tx.sender == a then 1 else 0)
  {
    hide Validate;
    hide Resources.CheckedCost;
  }

  /** While serial execution succeeds, every account is its seed plus its events so far. */
  lemma {:induction false} SerialAccounts(env: Env, txs: Block, s: State, accounts: map<Address, Account>, i: nat,
                                          a: Address)
    requires Seeded(s, accounts, txs) && AllChargeable(env, txs, i) && a in accounts
    requires forall j | 0 <= j < i :: SerialOutput(env, txs, s, j).Ok?
    ensures SerialAccountIs(env, txs, s, accounts, i, a)
  {
    hide Pay;
    hide Chargeable;
    hide Debit;
    hide SerialState;
    hide EventsOf;
    if i == 0 {
      StartsAtParent(env, txs, s);
      NoEventsYet(env, txs, a);
    } else {
      SerialAccounts(env, txs, s, accounts, i - 1, a);
      var (tx, view) := (txs[i - 1], SerialState(env, txs, s, i - 1));
      SerialStep(env, txs, s, i - 1);
      assert SerialOutput(env, txs, s, i - 1) == Ok(Pay(env, tx, view, ZERO).value.0);
      PaymentFollowsEvents(env, tx, view, a);
      OneMoreEvent(env, txs, a, i - 1);
    }
  }

  lemma NoEventsYet(env: Env, txs: Block, a: Address)
    requires Foldable(txs)
    ensures EventsOf(env, txs, a, 0) == [] && Net([]) == 0 && Outgoing([]) == 0
  {
  }

  lemma OneMoreEvent(env: Env, txs: Block, a: Address, i: nat)
    requires AllChargeable(env, txs, i + 1)
    ensures var (before, after, tx) := (EventsOf(env, txs, a, i), EventsOf(env, txs, a, i + 1), txs[i]);
            && Net(after) == Net(before) + (if tx.sender == a then Debit(env, tx, 0).guard.delta
                                            else if tx.payload.recipient == a then tx.payload.amount else 0)
            && Outgoing(after) == Outgoing(before) + (if tx.sender == a then 1 else 0)
  {
    var (before, after) := (EventsOf(env, txs, a, i), EventsOf(env, txs, a, i + 1));
    assert |after| > |before| ==> after[..|after| - 1] == before;
  }

  // Soundness: reconstructed inputs give serial outputs.

  function PairView(tx: Transaction, sender: Account, recipient: Account): State
    requires tx.payload.Payment?
  {
    map[AccountKey(tx.payload.recipient) := AccountValue(recipient), AccountKey(tx.sender) := AccountValue(sender)]
  }

  /** Output `i` is the reference result on the two reconstructed inputs of payment `i`. */
  ghost predicate FromInputs(env: Env, txs: Block, accounts: map<Address, Account>, i: nat, output: Output)
    requires i < |txs| && AllChargeable(env, txs, i) && txs[i].sender in accounts
             && txs[i].payload.recipient in accounts
  {
    exists sender, recipient ::
      && IsInput(env, txs, accounts, txs[i].sender, i, sender)
      && IsInput(env, txs, accounts, txs[i].payload.recipient, i, recipient)
      && Exec(env, txs[i], PairView(txs[i], sender, recipient)) == Ok(output)
  }

  lemma SameAccount(env: Env, txs: Block, accounts: map<Address, Account>, a: Address, i: nat, x: Account, y: Account)
    requires AllChargeable(env, txs, i) && a in accounts
    requires IsInput(env, txs, accounts, a, i, x) && IsInput(env, txs, accounts, a, i, y)
    ensures x == y
  {
  }

  /** If every payment succeeds on its reconstructed inputs, all outputs are serial. */
  lemma {:induction false} FoldIsSerial(env: Env, txs: Block, s: State, accounts: map<Address, Account>,
                                        outputs: seq<Output>, i: nat)
    requires Seeded(s, accounts, txs) && AllChargeable(env, txs, |txs|) && |outputs| == |txs| && i <= |txs|
    requires forall j | 0 <= j < |txs| :: FromInputs(env, txs, accounts, j, outputs[j])
    ensures forall j | 0 <= j < i :: SerialOutput(env, txs, s, j) == Ok(outputs[j])
  {
    hide SerialState;
    hide Pay;
    hide Chargeable;
    hide IsInput;
    hide EventsOf;
    if i > 0 {
      var n := i - 1;
      FoldIsSerial(env, txs, s, accounts, outputs, n);
      var (a, b) := (txs[n].sender, txs[n].payload.recipient);
      SerialAccounts(env, txs, s, accounts, n, a);
      SerialAccounts(env, txs, s, accounts, n, b);
      assert FromInputs(env, txs, accounts, n, outputs[n]);
      var sender, recipient :| IsInput(env, txs, accounts, a, n, sender) && IsInput(env, txs, accounts, b, n, recipient)
                               && Exec(env, txs[n], PairView(txs[n], sender, recipient)) == Ok(outputs[n]);
      var (view, pair) := (SerialState(env, txs, s, n), PairView(txs[n], sender, recipient));
      SameAccount(env, txs, accounts, a, n, sender, AccountAt(env, txs, s, n, a).value.account);
      SameAccount(env, txs, accounts, b, n, recipient, AccountAt(env, txs, s, n, b).value.account);
      PayReadsTwoAccounts(env, txs[n], view, pair, ZERO);
    }
  }

  // Completeness: a block that runs serially passes every check of the fold.

  lemma PaidIsChargeable(env: Env, tx: Transaction, view: State)
    requires tx.payload.Payment? && tx.sender != tx.payload.recipient && Pay(env, tx, view, ZERO).Ok?
    ensures Chargeable(env, tx)
    ensures ReadAccount(view, tx.sender).Ok? && ReadAccount(view, tx.sender).value.Some?
    ensures var sender := ReadAccount(view, tx.sender).value.value;
            Accepts(Debit(env, tx, 0).guard, sender.balance) && sender.nonce < U64_MAX
    ensures AccountOrNew(view, tx.payload.recipient).Ok?
    ensures Accepts(Credit(tx, 0).guard, AccountOrNew(view, tx.payload.recipient).value.balance)
  {
    hide Validate;
    hide Resources.CheckedCost;
  }

  lemma {:induction false} SerialIsChargeable(env: Env, txs: Block, s: State, upTo: nat)
    requires Foldable(txs) && upTo <= |txs| && forall j | 0 <= j < upTo :: SerialOutput(env, txs, s, j).Ok?
    ensures AllChargeable(env, txs, upTo)
  {
    hide Pay;
    hide Chargeable;
    hide SerialState;
    forall j | 0 <= j < upTo
      ensures Chargeable(env, txs[j])
    {
      assert SerialOutput(env, txs, s, j).Ok?;
      PaidIsChargeable(env, txs[j], SerialState(env, txs, s, j));
    }
  }

  /** Every account's seed walks its whole event list, and its nonce never runs out. */
  lemma {:induction false} SerialWalks(env: Env, txs: Block, s: State, accounts: map<Address, Account>, i: nat,
                                       a: Address)
    requires Seeded(s, accounts, txs) && AllChargeable(env, txs, i) && a in accounts
    requires forall j | 0 <= j < i :: SerialOutput(env, txs, s, j).Ok?
    ensures Walks(EventsOf(env, txs, a, i), accounts[a].balance)
    ensures accounts[a].nonce + Outgoing(EventsOf(env, txs, a, i)) <= U64_MAX
  {
    hide Pay;
    hide Chargeable;
    hide SerialState;
    hide Accepts;
    if i > 0 {
      var n := i - 1;
      SerialWalks(env, txs, s, accounts, n, a);
      SerialAccounts(env, txs, s, accounts, n, a);
      SerialAccounts(env, txs, s, accounts, i, a);
      var view := SerialState(env, txs, s, n);
      assert SerialOutput(env, txs, s, n).Ok?;
      PaidIsChargeable(env, txs[n], view);
      WalkStep(env, txs, a, n, accounts[a].balance);
    }
  }

  lemma WalkStep(env: Env, txs: Block, a: Address, n: nat, x: int)
    requires AllChargeable(env, txs, n + 1) && Walks(EventsOf(env, txs, a, n), x)
    requires var now := x + Net(EventsOf(env, txs, a, n));
             && (txs[n].sender == a ==> Accepts(Debit(env, txs[n], 0).guard, now))
             && (txs[n].payload.recipient == a ==> Accepts(Credit(txs[n], 0).guard, now))
    ensures Walks(EventsOf(env, txs, a, n + 1), x)
  {
    hide Chargeable;
    hide Accepts;
    var (before, after) := (EventsOf(env, txs, a, n), EventsOf(env, txs, a, n + 1));
    assert |after| > |before| ==> after[..|after| - 1] == before;
  }

  // Where an event sits.

  ghost function Party(txs: Block, i: nat, debit: bool): Address
    requires i < |txs| && Foldable(txs)
  {
    if debit then txs[i].sender else txs[i].payload.recipient
  }

  /** The event of payment `i` sits after exactly the earlier events of its account. */
  lemma {:induction false} EventPosition(env: Env, txs: Block, a: Address, upTo: nat, p: nat)
    requires AllChargeable(env, txs, upTo) && p < |EventsOf(env, txs, a, upTo)|
    ensures var (list, e) := (EventsOf(env, txs, a, upTo), EventsOf(env, txs, a, upTo)[p]);
            && e.index < upTo && Party(txs, e.index, e.debit) == a && list[..p] == EventsOf(env, txs, a, e.index)
  {
    hide Chargeable;
    var (list, before) := (EventsOf(env, txs, a, upTo), EventsOf(env, txs, a, upTo - 1));
    if p < |before| {
      EventPosition(env, txs, a, upTo - 1, p);
      assert list[..p] == before[..p];
    } else {
      assert list[..p] == before;
    }
  }

  /** Every payment has its debit and its credit in the lists. */
  lemma {:induction false} EventExists(env: Env, txs: Block, i: nat, debit: bool, upTo: nat)
    requires AllChargeable(env, txs, upTo) && i < upTo
    ensures var list := EventsOf(env, txs, Party(txs, i, debit), upTo);
            var p := |EventsOf(env, txs, Party(txs, i, debit), i)|;
            p < |list| && list[p].index == i && list[p].debit == debit
  {
    hide Chargeable;
    if i < upTo - 1 {
      EventExists(env, txs, i, debit, upTo - 1);
    }
  }

  /** On the reconstructed pair, a serially succeeding payment succeeds too. */
  lemma PairRunsAsSerial(env: Env, txs: Block, s: State, accounts: map<Address, Account>, i: nat, sender: Account,
                         recipient: Account)
    requires Seeded(s, accounts, txs) && i < |txs| && AllChargeable(env, txs, |txs|)
    requires forall j | 0 <= j < i :: SerialOutput(env, txs, s, j).Ok?
    requires IsInput(env, txs, accounts, txs[i].sender, i, sender)
    requires IsInput(env, txs, accounts, txs[i].payload.recipient, i, recipient)
    ensures Exec(env, txs[i], PairView(txs[i], sender, recipient)) == SerialOutput(env, txs, s, i)
  {
    hide SerialState;
    hide Pay;
    hide Chargeable;
    hide IsInput;
    hide EventsOf;
    var (a, b) := (txs[i].sender, txs[i].payload.recipient);
    SerialAccounts(env, txs, s, accounts, i, a);
    SerialAccounts(env, txs, s, accounts, i, b);
    SameAccount(env, txs, accounts, a, i, sender, AccountAt(env, txs, s, i, a).value.account);
    SameAccount(env, txs, accounts, b, i, recipient, AccountAt(env, txs, s, i, b).value.account);
    PayReadsTwoAccounts(env, txs[i], SerialState(env, txs, s, i), PairView(txs[i], sender, recipient), ZERO);
  }

  lemma PaymentKeepsOthers(env: Env, tx: Transaction, view: State, a: Address)
    requires tx.payload.Payment? && Pay(env, tx, view, ZERO).Ok? && tx.sender != tx.payload.recipient
    ensures a != tx.sender && a != tx.payload.recipient ==>
              Get(Apply(view, Pay(env, tx, view, ZERO).value.0.diff), AccountKey(a)) == Get(view, AccountKey(a))
    ensures a == tx.sender || a == tx.payload.recipient ==> ReadAccount(view, a).Ok?
  {
    hide Validate;
    hide Resources.CheckedCost;
  }

  /** A corrupt account stays corrupt until some payment touches it and fails. */
  lemma {:induction false} CorruptAccountFails(env: Env, txs: Block, s: State, a: Address, i: nat)
    requires Foldable(txs) && i <= |txs| && ReadAccount(s, a).Err?
    requires forall j | 0 <= j < i :: SerialOutput(env, txs, s, j).Ok?
    ensures AccountAt(env, txs, s, i, a) == Get(s, AccountKey(a))
    ensures forall j | 0 <= j < i :: txs[j].sender != a && txs[j].payload.recipient != a
  {
    hide Pay;
    if i == 0 {
      StartsAtParent(env, txs, s);
    } else {
      CorruptAccountFails(env, txs, s, a, i - 1);
      SerialStep(env, txs, s, i - 1);
      assert SerialOutput(env, txs, s, i - 1).Ok?;
      PaymentKeepsOthers(env, txs[i - 1], SerialState(env, txs, s, i - 1), a);
    }
  }
}
