/** Payment and mixed sessions, and what any list of payments conserves. */
module Payments {

  import opened Wrappers
  import opened Ledger

  function AccountDiff(accounts: map<Address, Account>): Diff {
    map k: Key | k in (set a | a in accounts :: AccountKey(a)) :: Some(AccountValue(accounts[k.address]))
  }

  /** The accounts a run of payments has changed, kept apart from the snapshot it reads. */
  class PaymentSession {
    const env: Env
    const snapshot: State
    var accounts: map<Address, Account>
    var used: Resources

    constructor (env: Env, snapshot: State)
      ensures this.env == env && this.snapshot == snapshot && View() == snapshot && used == ZERO
    {
      this.env, this.snapshot, this.accounts, this.used := env, snapshot, map[], ZERO;
      new;
      SameState(View(), snapshot);
    }

    /** What this session reads: its own accounts over the snapshot. */
    ghost function View(): State
      reads this
    {
      Apply(snapshot, AccountDiff(accounts))
    }

    method AccountOf(address: Address) returns (r: Result<Option<Account>, ExecutionError>)
      ensures r == ReadAccount(View(), address)
    {
      assert AccountKey(address) in AccountDiff(accounts) <==> address in accounts;
      if address in accounts {
        return Ok(Some(accounts[address]));
      }
      r := ReadAccount(snapshot, address);
    }

    /** Runs one payment; a rejection leaves every field as it was. */
    method Execute(tx: Transaction) returns (r: Outcome)
      modifies this
      ensures var paid := Pay(env, tx, old(View()), old(used));
              if paid.Ok? then
                r == Ok(paid.value.0) && used == paid.value.1 && View() == Apply(old(View()), r.value.diff)
              else r == Err(paid.error) && accounts == old(accounts) && used == old(used)
    {
      hide Validate;
      hide Transfer;
      hide AccountDiff;
      hide Resources.CheckedAdd;
      if !tx.payload.Payment? {
        return Err(TransactionValidation(UnsupportedPayload));
      }
      var found := AccountOf(tx.sender);
      if found.Err? {
        return Err(found.error);
      }
      if found.value.None? {
        return Err(TransactionValidation(UnknownSender));
      }
      var sender := found.value.value;
      var valid := Validate(env, tx, tx.payload.publicKey, sender);
      if valid.Err? {
        return Err(TransactionValidation(valid.error));
      }
      var resources := PaymentResources(tx);
      var total := used.CheckedAdd(resources);
      if total.None? || !resources.FitsIn(tx.limit) || !total.value.FitsIn(env.capacity) {
        return Err(ResourceLimit);
      }
      if AccountKey(tx.sender) !in tx.accessList || AccountKey(tx.payload.recipient) !in tx.accessList {
        return Err(UndeclaredStateAccess);
      }
      var next := Settle(tx, sender);
      if next.Err? {
        return Err(next.error);
      }
      var diff := AccountDiff(next.value);
      OverlayGrows(snapshot, accounts, next.value);
      accounts := accounts + next.value;
      used := total.value;
      var keys := {AccountKey(tx.sender), AccountKey(tx.payload.recipient)};
      return Ok(Output(tx.id, resources, diff, keys));
    }

    /** The new accounts of both parties, or the first balance check that fails. */
    method Settle(tx: Transaction, sender: Account) returns (r: Result<map<Address, Account>, ExecutionError>)
      requires tx.payload.Payment?
      ensures var diff := Transfer(env, tx, sender, View());
              if diff.Ok? then r.Ok? && AccountDiff(r.value) == diff.value else r == Err(diff.error)
    {
      hide Resources.CheckedCost;
      hide AccountDiff;
      var amount := tx.payload.amount;
      var cost := tx.limit.CheckedCost(env.prices);
      if cost.None? || cost.value + amount > U64_MAX || sender.balance < cost.value + amount {
        return Err(TransactionValidation(InsufficientResources));
      }
      var fee := PaymentResources(tx).CheckedCost(env.prices);
      if fee.None? {
        return Err(ResourceLimit);
      }
      if sender.nonce + 1 > U64_MAX {
        return Err(TransactionValidation(InvalidNonce));
      }
      if sender.balance < fee.value {
        return Err(TransactionValidation(InsufficientResources));
      }
      if tx.sender == tx.payload.recipient {
        var next := Account(sender.nonce + 1, sender.balance - fee.value);
        DiffOfOne(tx.sender, next);
        return Ok(map[tx.sender := next]);
      }
      if sender.balance - fee.value < amount {
        return Err(TransactionValidation(InsufficientResources));
      }
      var found := AccountOf(tx.payload.recipient);
      if found.Err? {
        return Err(found.error);
      }
      var recipient := if found.value.Some? then found.value.value else Account(0, 0);
      if recipient.balance + amount > U64_MAX {
        return Err(Trap);
      }
      var debited := Account(sender.nonce + 1, sender.balance - fee.value - amount);
      var credited := Account(recipient.nonce, recipient.balance + amount);
      DiffOfTwo(tx.sender, debited, tx.payload.recipient, credited);
      return Ok(map[tx.sender := debited, tx.payload.recipient := credited]);
    }
  }

  lemma DiffOfOne(a: Address, x: Account)
    ensures AccountDiff(map[a := x]) == map[AccountKey(a) := Some(AccountValue(x))]
  {
    assert AccountDiff(map[a := x]).Keys == {AccountKey(a)};
  }

  lemma DiffOfTwo(a: Address, x: Account, b: Address, y: Account)
    requires a != b
    ensures AccountDiff(map[a := x, b := y])
         == map[AccountKey(a) := Some(AccountValue(x)), AccountKey(b) := Some(AccountValue(y))]
  {
    assert AccountDiff(map[a := x, b := y]).Keys == {AccountKey(a), AccountKey(b)};
  }

  lemma OverlayGrows(s: State, was: map<Address, Account>, more: map<Address, Account>)
    ensures Apply(s, AccountDiff(was + more)) == Apply(Apply(s, AccountDiff(was)), AccountDiff(more))
  {
    forall k
      ensures Get(Apply(s, AccountDiff(was + more)), k) == Get(Apply(Apply(s, AccountDiff(was)), AccountDiff(more)), k)
    {
      if k.AccountKey? {
        assert k in AccountDiff(was + more) <==> k.address in was + more;
        assert k in AccountDiff(was) <==> k.address in was;
        assert k in AccountDiff(more) <==> k.address in more;
      }
    }
    SameState(Apply(s, AccountDiff(was + more)), Apply(Apply(s, AccountDiff(was)), AccountDiff(more)));
  }

  /** A fresh payment session for a single transaction. */
  method PayOnce(env: Env, tx: Transaction, view: State) returns (r: Outcome)
    requires tx.lane == Lane.Payments
    ensures r == Exec(env, tx, view)
  {
    hide Pay;
    var session := new PaymentSession(env, view);
    r := session.Execute(tx);
  }

  /** One step of a mixed session: the transaction's own meaning, then the shared capacity. */
  function SessionStep(env: Env, view: State, used: Resources, tx: Transaction)
    : Result<(Output, Resources), ExecutionError>
  {
    var output :- Exec(env, tx, view);
    var total := used.CheckedAdd(output.resources);
    if total.None? || !total.value.FitsIn(env.capacity) then Err(ResourceLimit)
    else Ok((output, total.value))
  }

  /** A mixed payment and contract session over a parent snapshot. */
  class SignedSession {
    const env: Env
    const parent: State
    var values: Diff
    var used: Resources

    constructor (env: Env, parent: State)
      ensures this.env == env && this.parent == parent && View() == parent && values == map[] && used == ZERO
    {
      this.env, this.parent, this.values, this.used := env, parent, map[], ZERO;
      new;
      SameState(View(), parent);
    }

    ghost function View(): State
      reads this
    {
      Apply(parent, values)
    }

    /** One serial step; when it fails nothing of the session changes. */
    method Execute(tx: Transaction) returns (r: Outcome)
      modifies this
      ensures var step := SessionStep(env, old(View()), old(used), tx);
              if step.Ok? then
                && r == Ok(step.value.0) && used == step.value.1
                && values == old(values) + r.value.diff && View() == Apply(old(View()), r.value.diff)
              else r == Err(step.error) && values == old(values) && used == old(used)
    {
      hide Pay;
      match tx.lane {
        case Payments =>
          r := PayOnce(env, tx, Apply(parent, values));
        case Contracts =>
          r := if env.contracts then env.engine(tx, Apply(parent, values))
          else Err(TransactionValidation(UnsupportedPayload));
        case System =>
          r := Err(TransactionValidation(UnsupportedPayload));
      }
      if r.Err? {
        return;
      }
      var total := used.CheckedAdd(r.value.resources);
      if total.None? || !total.value.FitsIn(env.capacity) {
        return Err(ResourceLimit);
      }
      ApplyTwice(parent, values, r.value.diff);
      values := values + r.value.diff;
      used := total.value;
    }
  }

  lemma ApplyTwice(s: State, a: Diff, b: Diff)
    ensures Apply(s, a + b) == Apply(Apply(s, a), b)
  {
    SameState(Apply(s, a + b), Apply(Apply(s, a), b));
  }

  // Conservation.

  function Balance(s: State, a: Address): nat {
    match Get(s, AccountKey(a))
    case Some(AccountValue(account)) => account.balance
    case _ => 0
  }

  function Nonce(s: State, a: Address): nat {
    match Get(s, AccountKey(a))
    case Some(AccountValue(account)) => account.nonce
    case _ => 0
  }

  function Fee(env: Env, tx: Transaction): nat {
    var fee := PaymentResources(tx).CheckedCost(env.prices);
    if fee.Some? then fee.value else 0
  }

  /** An accepted payment moves the amount, burns the fee and counts one use; nothing else changes. */
  lemma PaymentEffect(env: Env, tx: Transaction, view: State, used: Resources, a: Address)
    requires Pay(env, tx, view, used).Ok?
    ensures var next := Apply(view, Pay(env, tx, view, used).value.0.diff);
            && Balance(next, a) == Balance(view, a) + (if a == tx.payload.recipient then tx.payload.amount else 0)
                                   - (if a == tx.sender then tx.payload.amount + Fee(env, tx) else 0)
            && Nonce(next, a) == Nonce(view, a) + (if a == tx.sender then 1 else 0)
  {
    hide Validate;
    var next := Apply(view, Pay(env, tx, view, used).value.0.diff);
    assert Get(next, AccountKey(a)).Some? || Get(next, AccountKey(a)) == Get(view, AccountKey(a));
  }

  /** View and usage after the first `i` payments; a rejected one changes neither. */
  function After(env: Env, txs: seq<Transaction>, s: State, i: nat): (State, Resources)
    requires i <= |txs|
  {
    if i == 0 then (s, ZERO)
    else
      var (view, used) := After(env, txs, s, i - 1);
      var paid := Pay(env, txs[i - 1], view, used);
      if paid.Ok? then (Apply(view, paid.value.0.diff), paid.value.1) else (view, used)
  }

  predicate Accepted(env: Env, txs: seq<Transaction>, s: State, i: nat)
    requires i < |txs|
  {
    var (view, used) := After(env, txs, s, i);
    Pay(env, txs[i], view, used).Ok?
  }

  /** Fees of the accepted payments among the first `i`. */
  function Fees(env: Env, txs: seq<Transaction>, s: State, i: nat): nat
    requires i <= |txs|
  {
    if i == 0 then 0
    else Fees(env, txs, s, i - 1) + (if Accepted(env, txs, s, i - 1) then Fee(env, txs[i - 1]) else 0)
  }

  /** Accepted payments sent by `a` among the first `i`. */
  function Sent(env: Env, txs: seq<Transaction>, s: State, i: nat, a: Address): nat
    requires i <= |txs|
  {
    if i == 0 then 0
    else Sent(env, txs, s, i - 1, a) + (if Accepted(env, txs, s, i - 1) && txs[i - 1].sender == a then 1 else 0)
  }

  function Total(s: State, accounts: seq<Address>): nat {
    if accounts == [] then 0 else Balance(s, accounts[0]) + Total(s, accounts[1..])
  }

  ghost predicate Distinct(accounts: seq<Address>) {
    forall i, j | 0 <= i < j < |accounts| :: accounts[i] != accounts[j]
  }

  lemma {:induction false} PaymentTotal(env: Env, tx: Transaction, view: State, used: Resources, accounts: seq<Address>)
    requires Pay(env, tx, view, used).Ok? && Distinct(accounts)
    ensures Total(Apply(view, Pay(env, tx, view, used).value.0.diff), accounts)
         == Total(view, accounts) + (if tx.payload.recipient in accounts then tx.payload.amount else 0)
            - (if tx.sender in accounts then tx.payload.amount + Fee(env, tx) else 0)
  {
    hide Pay;
    hide Balance;
    hide Fee;
    if accounts != [] {
      PaymentTotal(env, tx, view, used, accounts[1..]);
      PaymentEffect(env, tx, view, used, accounts[0]);
      assert accounts[0] !in accounts[1..];
      assert accounts == [accounts[0]] + accounts[1..];
    }
  }

  /**
   * Over any list of payments, rejected ones and self-transfers included, the total over
   * every set of accounts that holds all parties falls by exactly the fees charged.
   */
  lemma {:induction false} Conservation(env: Env, txs: seq<Transaction>, s: State, accounts: seq<Address>, i: nat)
    requires i <= |txs| && Distinct(accounts)
    requires forall j | 0 <= j < i && txs[j].payload.Payment? ::
               txs[j].sender in accounts && txs[j].payload.recipient in accounts
    ensures Total(After(env, txs, s, i).0, accounts) + Fees(env, txs, s, i) == Total(s, accounts)
  {
    hide Pay;
    hide Total;
    hide Fee;
    if i > 0 {
      Conservation(env, txs, s, accounts, i - 1);
      if Accepted(env, txs, s, i - 1) {
        var (view, used) := After(env, txs, s, i - 1);
        PaymentTotal(env, txs[i - 1], view, used, accounts);
        AcceptedIsPayment(env, txs[i - 1], view, used);
      }
    }
  }

  lemma AcceptedIsPayment(env: Env, tx: Transaction, view: State, used: Resources)
    requires Pay(env, tx, view, used).Ok?
    ensures tx.payload.Payment?
  {
  }

  /** Every account's nonce has risen by exactly the number of its accepted payments. */
  lemma {:induction false} NoncesCountPayments(env: Env, txs: seq<Transaction>, s: State, a: Address, i: nat)
    requires i <= |txs|
    ensures Nonce(After(env, txs, s, i).0, a) == Nonce(s, a) + Sent(env, txs, s, i, a)
  {
    hide Pay;
    hide Nonce;
    if i > 0 {
      NoncesCountPayments(env, txs, s, a, i - 1);
      if Accepted(env, txs, s, i - 1) {
        var (view, used) := After(env, txs, s, i - 1);
        PaymentEffect(env, txs[i - 1], view, used, a);
      }
    }
  }

  // Authenticity and replay.

  /** What an accepted payment proves about its sender, its envelope and its declaration. */
  lemma AcceptedIsAuthentic(env: Env, tx: Transaction, view: State, used: Resources)
    requires Pay(env, tx, view, used).Ok?
    ensures tx.payload.Payment? && tx.sender == KeyAddress(tx.payload.publicKey)
            && tx.signer == Some(tx.payload.publicKey)
    ensures tx.chainId == env.chainId && env.nextHeight <= tx.expiresAt && tx.prices == env.prices
    ensures tx.nonce == Nonce(view, tx.sender) < U64_MAX
    ensures AccountKey(tx.sender) in tx.accessList && AccountKey(tx.payload.recipient) in tx.accessList
    ensures PaymentResources(tx).FitsIn(tx.limit) && Pay(env, tx, view, used).value.1.FitsIn(env.capacity)
  {
    hide Transfer;
    hide Resources.CheckedCost;
  }

  lemma {:induction false} SentGrows(env: Env, txs: seq<Transaction>, s: State, i: nat, j: nat, a: Address)
    requires i <= j <= |txs|
    ensures Sent(env, txs, s, i, a) <= Sent(env, txs, s, j, a)
  {
    hide Accepted;
    if i < j {
      SentGrows(env, txs, s, i, j - 1, a);
    }
  }

  /** Accepted payments of one sender carry strictly increasing nonces, so none is ever accepted twice. */
  lemma NoReplay(env: Env, txs: seq<Transaction>, s: State, i: nat, j: nat)
    requires i < j < |txs| && Accepted(env, txs, s, i) && Accepted(env, txs, s, j) && txs[i].sender == txs[j].sender
    ensures txs[i].nonce < txs[j].nonce
  {
    hide Pay;
    hide Nonce;
    var (at, later) := (After(env, txs, s, i), After(env, txs, s, j));
    AcceptedIsAuthentic(env, txs[i], at.0, at.1);
    AcceptedIsAuthentic(env, txs[j], later.0, later.1);
    NoncesCountPayments(env, txs, s, txs[i].sender, i);
    NoncesCountPayments(env, txs, s, txs[i].sender, j);
    SentGrows(env, txs, s, i + 1, j, txs[i].sender);
  }
}
