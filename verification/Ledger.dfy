/** State, transactions and the reference meaning of one transaction. */
module Ledger {

  import opened Wrappers

  /** Public-key hashing and contract-address derivation are symbolic, hence injective. */
  datatype Address =
    | KeyAddress(key: nat)
    | ContractAddress(trocto: bool, chainId: nat, creator: Address, nonce: nat)

  /** Storage keys by their domain tag; `RawKey` is any other declared byte string. */
  datatype Key =
    | AccountKey(address: Address)
    | CodeKey(trocto: bool, address: Address)
    | ContractKey(trocto: bool, address: Address, local: seq<nat>)
    | RuntimeKey
    | RawKey(bytes: seq<nat>)

  datatype Account = Account(nonce: U64, balance: U64)

  datatype Value = AccountValue(account: Account) | Bytes(bytes: seq<nat>)

  type State = map<Key, Value>

  /** Net effect per key; `None` deletes. */
  type Diff = map<Key, Option<Value>>

  function Get(s: State, k: Key): Option<Value> {
    if k in s then Some(s[k]) else None
  }

  function Apply(s: State, d: Diff): (r: State)
    ensures forall k :: Get(r, k) == if k in d then d[k] else Get(s, k)
  {
    map k | k in s.Keys + d.Keys && (k in d ==> d[k].Some?) :: if k in d then d[k].value else s[k]
  }

  lemma SameState(a: State, b: State)
    requires forall k :: Get(a, k) == Get(b, k)
    ensures a == b
  {
    assert forall k :: k in a <==> Get(a, k).Some?;
    assert forall k :: k in b <==> Get(b, k).Some?;
  }

  datatype Resources = Resources(compute: U64, memory: U64, io: U64, bandwidth: U64) {

    predicate FitsIn(other: Resources) {
      compute <= other.compute && memory <= other.memory && io <= other.io && bandwidth <= other.bandwidth
    }

    function CheckedAdd(other: Resources): Option<Resources> {
      var (c, m, i, b) := (compute + other.compute, memory + other.memory, io + other.io, bandwidth + other.bandwidth);
      if c <= U64_MAX && m <= U64_MAX && i <= U64_MAX && b <= U64_MAX then Some(Resources(c, m, i, b)) else None
    }

    /** Total charge at the given unit prices, or None on overflow of any product or sum. */
    function CheckedCost(prices: Resources): Option<U64> {
      var (c, m) := (compute * prices.compute, memory * prices.memory);
      var (i, b) := (io * prices.io, bandwidth * prices.bandwidth);
      if !(0 <= c <= U64_MAX && 0 <= m <= U64_MAX && c + m <= U64_MAX) then None
      else if !(0 <= i <= U64_MAX && c + m + i <= U64_MAX) then None
      else if !(0 <= b <= U64_MAX && c + m + i + b <= U64_MAX) then None
      else Some(c + m + i + b)
    }

    /** The checks fail exactly when the mathematical total exceeds 64 bits. */
    lemma CostIsExact(prices: Resources)
      ensures var total := compute * prices.compute + memory * prices.memory + io * prices.io
                           + bandwidth * prices.bandwidth;
              CheckedCost(prices) == if total <= U64_MAX then Some(total) else None
    {
      assert 0 <= compute * prices.compute && 0 <= memory * prices.memory;
      assert 0 <= io * prices.io && 0 <= bandwidth * prices.bandwidth;
    }
  }

  const ZERO := Resources(0, 0, 0, 0)

  datatype Lane = Payments | Contracts | System

  /** A decoded payload; `Malformed` is every byte string that neither lane can decode. */
  datatype Payload =
    | Payment(publicKey: nat, recipient: Address, amount: U64)
    | Deploy(publicKey: nat, trocto: bool, code: seq<nat>)
    | Call(publicKey: nat, trocto: bool, address: Address, input: seq<nat>, keys: seq<seq<nat>>)
    | Malformed

  /** `signer` is the key whose strict signature over this envelope verifies, if any. */
  datatype Transaction = Transaction(
    id: nat, wellShaped: bool, encodedLen: U64, chainId: nat, sender: Address, nonce: U64, expiresAt: U64,
    lane: Lane, accessList: seq<Key>, limit: Resources, prices: Resources, payload: Payload, signer: Option<nat>)

  datatype TransactionError =
    InvalidEnvelope | WrongChain | Expired | UnknownSender | InvalidNonce
    | InsufficientResources | InvalidSignature | UnsupportedPayload

  datatype ExecutionError =
    | InvalidContract | UndeclaredStateAccess | ResourceLimit | Conflict | Trap | NativeUnavailable
    | TransactionValidation(reason: TransactionError)
    | Corrupt | StaleSnapshot | CommitRefused

  datatype Output = Output(transaction: nat, resources: Resources, diff: Diff, observed: set<Key>)

  type Outcome = Result<Output, ExecutionError>

  /**
   * Everything fixed for one block: validation context, capacity, prices, contract
   * activation and the contract engine as a function of transaction and visible state.
   */
  datatype Env = Env(
    chainId: nat, nextHeight: nat, maxBytes: nat, capacity: Resources, prices: Resources, contracts: bool,
    engine: (Transaction, State) -> Outcome)

  function ReadAccount(s: State, a: Address): Result<Option<Account>, ExecutionError> {
    match Get(s, AccountKey(a))
    case None => Ok(None)
    case Some(AccountValue(account)) => Ok(Some(account))
    case Some(Bytes(_)) => Err(Corrupt)
  }

  /** Stateful admission, in the order its checks report. */
  function Validate(env: Env, tx: Transaction, publicKey: nat, account: Account): Result<(), TransactionError> {
    var cost := tx.limit.CheckedCost(env.prices);
    if !tx.wellShaped || tx.encodedLen > env.maxBytes then Err(InvalidEnvelope)
    else if tx.chainId != env.chainId then Err(WrongChain)
    else if env.nextHeight > tx.expiresAt then Err(Expired)
    else if tx.sender != KeyAddress(publicKey) then Err(UnknownSender)
    else if tx.nonce != account.nonce || tx.nonce == U64_MAX then Err(InvalidNonce)
    else if tx.prices != env.prices then Err(InsufficientResources)
    else if cost.None? then Err(InsufficientResources)
    else if !tx.limit.FitsIn(env.capacity) || cost.value > account.balance then Err(InsufficientResources)
    else if tx.signer != Some(publicKey) then Err(InvalidSignature)
    else if tx.lane == System || tx.payload.Malformed? || (tx.lane == Payments) != tx.payload.Payment?
    then Err(UnsupportedPayload)
    else if tx.payload.publicKey != publicKey then Err(UnsupportedPayload)
    else Ok(())
  }

  function PaymentResources(tx: Transaction): Resources {
    Resources(1, 32, 4, tx.encodedLen)
  }

  function AccountOrNew(s: State, a: Address): Result<Account, ExecutionError> {
    var found :- ReadAccount(s, a);
    Ok(if found.Some? then found.value else Account(0, 0))
  }

  /**
   * One payment against a visible state and the resources already used, with every
   * check in reporting order. Yields the output and the new usage.
   */
  function Pay(env: Env, tx: Transaction, view: State, used: Resources): Result<(Output, Resources), ExecutionError> {
    if !tx.payload.Payment? then Err(TransactionValidation(UnsupportedPayload))
    else
      var found :- ReadAccount(view, tx.sender);
      if found.None? then Err(TransactionValidation(UnknownSender))
      else
        var sender := found.value;
        var valid := Validate(env, tx, tx.payload.publicKey, sender);
        if valid.Err? then Err(TransactionValidation(valid.error))
        else
          var resources := PaymentResources(tx);
          var total := used.CheckedAdd(resources);
          if total.None? then Err(ResourceLimit)
          else if !resources.FitsIn(tx.limit) || !total.value.FitsIn(env.capacity) then Err(ResourceLimit)
          else if AccountKey(tx.sender) !in tx.accessList || AccountKey(tx.payload.recipient) !in tx.accessList
          then Err(UndeclaredStateAccess)
          else
            var diff :- Transfer(env, tx, sender, view);
            Ok((Output(tx.id, resources, diff, {AccountKey(tx.sender), AccountKey(tx.payload.recipient)}), total.value))
  }

  /** The balance checks and the two account writes of a payment. */
  function Transfer(env: Env, tx: Transaction, sender: Account, view: State): Result<Diff, ExecutionError>
    requires tx.payload.Payment?
  {
    var amount := tx.payload.amount;
    var cost := tx.limit.CheckedCost(env.prices);
    if cost.None? || cost.value + amount > U64_MAX || sender.balance < cost.value + amount
    then Err(TransactionValidation(InsufficientResources))
    else
      var fee := PaymentResources(tx).CheckedCost(env.prices);
      if fee.None? then Err(ResourceLimit)
      else if sender.nonce + 1 > U64_MAX then Err(TransactionValidation(InvalidNonce))
      else if sender.balance < fee.value then Err(TransactionValidation(InsufficientResources))
      else if tx.sender == tx.payload.recipient then
        Ok(map[AccountKey(tx.sender) := Some(AccountValue(Account(sender.nonce + 1, sender.balance - fee.value)))])
      else if sender.balance - fee.value < amount then Err(TransactionValidation(InsufficientResources))
      else
        var recipient :- AccountOrNew(view, tx.payload.recipient);
        if recipient.balance + amount > U64_MAX then Err(Trap)
        else
          Ok(map[AccountKey(tx.sender) :=
                   Some(AccountValue(Account(sender.nonce + 1, sender.balance - fee.value - amount))),
                 AccountKey(tx.payload.recipient) :=
                   Some(AccountValue(Account(recipient.nonce, recipient.balance + amount)))])
  }

  /** One transaction in a session that has used nothing yet. */
  function Exec(env: Env, tx: Transaction, view: State): Outcome {
    match tx.lane
    case Payments =>
      var paid :- Pay(env, tx, view, ZERO);
      Ok(paid.0)
    case Contracts => if env.contracts then env.engine(tx, view) else Err(TransactionValidation(UnsupportedPayload))
    case System => Err(TransactionValidation(UnsupportedPayload))
  }

  // Declared access.

  /** The immutable code key that a contract call only reads. */
  function ReadOnlyCode(tx: Transaction): Option<Key> {
    if tx.lane == Contracts && tx.payload.Call? then Some(CodeKey(tx.payload.trocto, tx.payload.address)) else None
  }

  predicate Touches(tx: Transaction, k: Key) {
    k in tx.accessList
  }

  /** Declared in write mode. */
  predicate Writes(tx: Transaction, k: Key) {
    k in tx.accessList && ReadOnlyCode(tx) != Some(k)
  }

  function RequiredKeys(tx: Transaction): Result<seq<Key>, ExecutionError> {
    match tx.lane
    case Payments =>
      if !tx.payload.Payment? then Err(TransactionValidation(UnsupportedPayload))
      else Ok([AccountKey(tx.sender), AccountKey(tx.payload.recipient)])
    case Contracts =>
      if tx.payload.Deploy? then
        var created := ContractAddress(tx.payload.trocto, tx.chainId, tx.sender, tx.nonce);
        Ok([AccountKey(tx.sender), CodeKey(tx.payload.trocto, created)])
      else if tx.payload.Call? then
        var local := seq(|tx.payload.keys|, i requires 0 <= i < |tx.payload.keys| =>
          ContractKey(tx.payload.trocto, tx.payload.address, tx.payload.keys[i]));
        Ok([AccountKey(tx.sender), CodeKey(tx.payload.trocto, tx.payload.address)] + local)
      else Err(TransactionValidation(UnsupportedPayload))
    case System => Err(TransactionValidation(UnsupportedPayload))
  }

  /** The declaration covers every key the transaction can reach. */
  predicate Covered(tx: Transaction) {
    RequiredKeys(tx).Ok? && forall k | k in RequiredKeys(tx).value :: k in tx.accessList
  }

  /** What must be declared: a payment's two accounts; a contract's code, and for a call the entries it names. */
  lemma CoverageRules(tx: Transaction)
    ensures Covered(tx) <==>
            var p := tx.payload;
            && AccountKey(tx.sender) in tx.accessList
            && match tx.lane
               case Payments => p.Payment? && AccountKey(p.recipient) in tx.accessList
               case Contracts =>
                 || (p.Deploy? && CodeKey(p.trocto, ContractAddress(p.trocto, tx.chainId, tx.sender, tx.nonce))
                                  in tx.accessList)
                 || (p.Call? && CodeKey(p.trocto, p.address) in tx.accessList
                     && forall i | 0 <= i < |p.keys| :: ContractKey(p.trocto, p.address, p.keys[i]) in tx.accessList)
               case System => false
  {
    var keys := RequiredKeys(tx);
    if keys.Ok? {
      assert forall i | 0 <= i < |keys.value| :: keys.value[i] in keys.value;
      if tx.payload.Call? {
        CallCoverage(tx, keys.value);
      } else {
        assert |keys.value| == 2 && keys.value == [keys.value[0], keys.value[1]];
      }
    }
  }

  lemma CallCoverage(tx: Transaction, keys: seq<Key>)
    requires tx.lane == Contracts && tx.payload.Call? && RequiredKeys(tx) == Ok(keys)
    ensures var p := tx.payload;
            (forall k | k in keys :: k in tx.accessList) <==>
            && AccountKey(tx.sender) in tx.accessList && CodeKey(p.trocto, p.address) in tx.accessList
            && forall i | 0 <= i < |p.keys| :: ContractKey(p.trocto, p.address, p.keys[i]) in tx.accessList
  {
    var p := tx.payload;
    assert keys[0] == AccountKey(tx.sender) && keys[1] == CodeKey(p.trocto, p.address);
    assert forall i | 0 <= i < |p.keys| :: keys[2 + i] == ContractKey(p.trocto, p.address, p.keys[i]);
    if forall k | k in keys :: k in tx.accessList {
      forall i | 0 <= i < |p.keys|
        ensures ContractKey(p.trocto, p.address, p.keys[i]) in tx.accessList
      {
        assert keys[2 + i] in keys;
      }
    }
  }

  /** Keys a covered transaction may depend on: its declaration and the fixed runtime profile. */
  ghost predicate MayRead(tx: Transaction, k: Key) {
    k in tx.accessList || k == RuntimeKey
  }

  /** Keys a covered transaction may change. */
  ghost predicate MayWrite(tx: Transaction, k: Key) {
    Writes(tx, k) && k != RuntimeKey
  }

  ghost predicate SameInputs(tx: Transaction, a: State, b: State) {
    forall k | MayRead(tx, k) :: Get(a, k) == Get(b, k)
  }

  /** What the executor relies on from the contract engine. */
  ghost predicate EngineConfined(env: Env) {
    && (forall tx, a, b | Covered(tx) && SameInputs(tx, a, b) :: env.engine(tx, a) == env.engine(tx, b))
    && (forall tx, a, k | Covered(tx) && env.engine(tx, a).Ok? && k in env.engine(tx, a).value.diff :: MayWrite(tx, k))
  }

  lemma TransferReadsRecipient(env: Env, tx: Transaction, sender: Account, a: State, b: State)
    requires tx.payload.Payment? && Get(a, AccountKey(tx.payload.recipient)) == Get(b, AccountKey(tx.payload.recipient))
    ensures Transfer(env, tx, sender, a) == Transfer(env, tx, sender, b)
  {
  }

  /** A payment sees its two accounts and nothing else. */
  lemma PayReadsTwoAccounts(env: Env, tx: Transaction, a: State, b: State, used: Resources)
    requires Get(a, AccountKey(tx.sender)) == Get(b, AccountKey(tx.sender))
    requires tx.payload.Payment? ==>
               Get(a, AccountKey(tx.payload.recipient)) == Get(b, AccountKey(tx.payload.recipient))
    ensures Pay(env, tx, a, used) == Pay(env, tx, b, used)
  {
    hide Transfer;
    hide Validate;
    if tx.payload.Payment? && ReadAccount(a, tx.sender).Ok? && ReadAccount(a, tx.sender).value.Some? {
      TransferReadsRecipient(env, tx, ReadAccount(a, tx.sender).value.value, a, b);
    }
  }

  /** A covered transaction depends only on what it declares. */
  lemma ExecReadsDeclared(env: Env, tx: Transaction, a: State, b: State)
    requires EngineConfined(env) && Covered(tx) && SameInputs(tx, a, b)
    ensures Exec(env, tx, a) == Exec(env, tx, b)
  {
    hide Pay;
    if tx.lane == Payments {
      var keys := RequiredKeys(tx).value;
      assert keys[0] in tx.accessList && keys[1] in tx.accessList;
      assert MayRead(tx, AccountKey(tx.sender)) && MayRead(tx, AccountKey(tx.payload.recipient));
      PayReadsTwoAccounts(env, tx, a, b, ZERO);
    }
  }

  /** A covered transaction changes only what it declares in write mode. */
  lemma ExecWritesDeclared(env: Env, tx: Transaction, a: State, k: Key)
    requires EngineConfined(env) && Covered(tx) && Exec(env, tx, a).Ok? && k in Exec(env, tx, a).value.diff
    ensures MayWrite(tx, k)
  {
    if tx.lane == Payments {
      var keys := RequiredKeys(tx).value;
      assert keys[0] in tx.accessList && keys[1] in tx.accessList;
    }
  }
}
