/** Which payments are accepted, why the others are refused, and exactly what an accepted one writes. */
module Acceptance {

  import opened Wrappers
  import opened Ledger
  import opened Payments

  /** The charge as a plain sum of products. */
  ghost function Charge(units: Resources, prices: Resources): int {
    units.compute * prices.compute + units.memory * prices.memory + units.io * prices.io
    + units.bandwidth * prices.bandwidth
  }

  /** The account stored under an address, if an account is what is stored there. */
  ghost function Held(view: State, a: Address): Option<Account> {
    match Get(view, AccountKey(a))
    case Some(AccountValue(account)) => Some(account)
    case _ => None
  }

  /** Envelope, chain, height, key, signature, lane and prices are those the block and the payer agree on. */
  ghost predicate Authentic(env: Env, tx: Transaction)
    requires tx.payload.Payment?
  {
    && tx.wellShaped && tx.encodedLen <= env.maxBytes && tx.lane == Lane.Payments
    && tx.chainId == env.chainId && env.nextHeight <= tx.expiresAt && tx.prices == env.prices
    && tx.sender == KeyAddress(tx.payload.publicKey) && tx.signer == Some(tx.payload.publicKey)
  }

  /** A payment uses one unit of compute, 32 of memory, 4 of io and its encoded length; limit and block have room. */
  ghost predicate Fits(env: Env, tx: Transaction, used: Resources) {
    && 1 <= tx.limit.compute <= env.capacity.compute && used.compute + 1 <= env.capacity.compute
    && 32 <= tx.limit.memory <= env.capacity.memory && used.memory + 32 <= env.capacity.memory
    && 4 <= tx.limit.io <= env.capacity.io && used.io + 4 <= env.capacity.io
    && tx.encodedLen <= tx.limit.bandwidth <= env.capacity.bandwidth
    && used.bandwidth + tx.encodedLen <= env.capacity.bandwidth
  }

  /** Nothing but an account is stored for the recipient, and it can take the amount. */
  ghost predicate CanReceive(view: State, tx: Transaction)
    requires tx.payload.Payment?
  {
    || tx.payload.recipient == tx.sender
    || Get(view, AccountKey(tx.payload.recipient)).None?
    || (var account := Held(view, tx.payload.recipient);
        account.Some? && account.value.balance + tx.payload.amount <= U64_MAX)
  }

  ghost predicate Acceptable(env: Env, tx: Transaction, view: State, used: Resources) {
    && tx.payload.Payment? && Authentic(env, tx) && Fits(env, tx, used)
    && AccountKey(tx.sender) in tx.accessList && AccountKey(tx.payload.recipient) in tx.accessList
    && CanReceive(view, tx)
    && Held(view, tx.sender).Some?
    && var sender := Held(view, tx.sender).value;
       tx.nonce == sender.nonce < U64_MAX && Charge(tx.limit, env.prices) + tx.payload.amount <= sender.balance
  }

  lemma Product(a: int, b: int, c: int)
    requires 0 <= a <= b && 0 <= c
    ensures 0 <= a * c <= b * c
  {
  }

  lemma ChargeGrows(a: Resources, b: Resources, prices: Resources)
    requires a.FitsIn(b)
    ensures 0 <= Charge(a, prices) <= Charge(b, prices)
  {
    Product(a.compute, b.compute, prices.compute);
    Product(a.memory, b.memory, prices.memory);
    Product(a.io, b.io, prices.io);
    Product(a.bandwidth, b.bandwidth, prices.bandwidth);
  }

  lemma ChargeIsCost(a: Resources, prices: Resources)
    ensures a.CheckedCost(prices) == if Charge(a, prices) <= U64_MAX then Some(Charge(a, prices)) else None
  {
    a.CostIsExact(prices);
  }

  /** A payment is accepted exactly when it is acceptable. */
  lemma AcceptedIffAcceptable(env: Env, tx: Transaction, view: State, used: Resources)
    ensures Pay(env, tx, view, used).Ok? <==> Acceptable(env, tx, view, used)
  {
    ChargeIsCost(tx.limit, env.prices);
    ChargeIsCost(PaymentResources(tx), env.prices);
    if PaymentResources(tx).FitsIn(tx.limit) {
      ChargeGrows(PaymentResources(tx), tx.limit, env.prices);
    }
    hide Charge;
    hide Resources.CheckedCost;
  }

  // Why a payment is refused.

  /** The first fault in reporting order, if there is one. */
  ghost function Fault(env: Env, tx: Transaction, view: State, used: Resources): Option<ExecutionError> {
    var stored := Get(view, AccountKey(tx.sender));
    if !tx.payload.Payment? then Some(TransactionValidation(UnsupportedPayload))
    else if stored.None? then Some(TransactionValidation(UnknownSender))
    else if stored.value.Bytes? then Some(Corrupt)
    else if AdmissionFault(env, tx, stored.value.account).Some? then
      Some(TransactionValidation(AdmissionFault(env, tx, stored.value.account).value))
    else if !Fits(env, tx, used) then Some(ResourceLimit)
    else if AccountKey(tx.sender) !in tx.accessList || AccountKey(tx.payload.recipient) !in tx.accessList then
      Some(UndeclaredStateAccess)
    else if stored.value.account.balance < Charge(tx.limit, env.prices) + tx.payload.amount then
      Some(TransactionValidation(InsufficientResources))
    else if CanReceive(view, tx) then None
    else if Held(view, tx.payload.recipient).None? then Some(Corrupt)
    else Some(Trap)
  }

  /** Faults of envelope and payer. The limit must already be affordable before the signature is looked at. */
  ghost function AdmissionFault(env: Env, tx: Transaction, payer: Account): Option<TransactionError>
    requires tx.payload.Payment?
  {
    if !tx.wellShaped || env.maxBytes < tx.encodedLen then Some(InvalidEnvelope)
    else if tx.chainId != env.chainId then Some(WrongChain)
    else if tx.expiresAt < env.nextHeight then Some(Expired)
    else if tx.sender != KeyAddress(tx.payload.publicKey) then Some(UnknownSender)
    else if tx.nonce != payer.nonce || payer.nonce == U64_MAX then Some(InvalidNonce)
    else if tx.prices != env.prices || payer.balance < Charge(tx.limit, env.prices)
            || !tx.limit.FitsIn(env.capacity) then Some(InsufficientResources)
    else if tx.signer != Some(tx.payload.publicKey) then Some(InvalidSignature)
    else if tx.lane != Lane.Payments then Some(UnsupportedPayload)
    else None
  }

  /** Without a fault the payment is accepted; otherwise the first one is what is reported. */
  lemma RefusedForFirstFault(env: Env, tx: Transaction, view: State, used: Resources)
    ensures var (paid, fault) := (Pay(env, tx, view, used), Fault(env, tx, view, used));
            if fault.Some? then paid == Err(fault.value) else paid.Ok?
  {
    ChargeIsCost(tx.limit, env.prices);
    ChargeIsCost(PaymentResources(tx), env.prices);
    if PaymentResources(tx).FitsIn(tx.limit) {
      ChargeGrows(PaymentResources(tx), tx.limit, env.prices);
    }
    hide Charge;
    hide Resources.CheckedCost;
  }

  // What an accepted payment writes.

  /** Both accounts and nothing else, a missing recipient starting from zero; the receipt names what was used. */
  lemma AcceptedWrites(env: Env, tx: Transaction, view: State, used: Resources)
    requires Pay(env, tx, view, used).Ok?
    ensures tx.payload.Payment?
    ensures var (output, total) := Pay(env, tx, view, used).value;
            var (from, to) := (AccountKey(tx.sender), AccountKey(tx.payload.recipient));
            && output.transaction == tx.id && output.resources == Resources(1, 32, 4, tx.encodedLen)
            && output.observed == output.diff.Keys == {from, to}
            && total.compute == used.compute + 1 && total.memory == used.memory + 32 && total.io == used.io + 4
            && total.bandwidth == used.bandwidth + tx.encodedLen
    ensures var diff := Pay(env, tx, view, used).value.0.diff;
            forall k | k in diff :: diff[k].Some? && diff[k].value.AccountValue?
    ensures var next := Apply(view, Pay(env, tx, view, used).value.0.diff);
            var (payer, payee) := (Held(next, tx.sender), Held(next, tx.payload.recipient));
            var fee := Charge(Resources(1, 32, 4, tx.encodedLen), env.prices);
            var was := Held(view, tx.sender).value;
            && payer.Some? && payee.Some? && payer.value.nonce == was.nonce + 1
            && payer.value.balance == was.balance - fee
                                      - (if tx.sender == tx.payload.recipient then 0 else tx.payload.amount)
            && (tx.sender != tx.payload.recipient ==>
                  var had := Held(view, tx.payload.recipient);
                  payee.value == if had.None? then Account(0, tx.payload.amount)
                                 else Account(had.value.nonce, had.value.balance + tx.payload.amount))
  {
    AcceptedIffAcceptable(env, tx, view, used);
    ChargeIsCost(PaymentResources(tx), env.prices);
    hide Charge;
    hide Resources.CheckedCost;
    hide Validate;
    hide Acceptable;
  }

  // Other lanes.

  /** Contracts before activation and the system lane are always refused, and never run the engine. */
  lemma InactiveLanesAreRefused(env: Env, tx: Transaction, view: State)
    requires tx.lane == System || (tx.lane == Contracts && !env.contracts)
    ensures Exec(env, tx, view) == Err(TransactionValidation(UnsupportedPayload))
  {
  }
}
