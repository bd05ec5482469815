/** Segmented account prefixes: summaries, a prefix scan, reconstructed inputs and reference execution. */
module Fold {

  import opened Wrappers
  import opened Ledger
  import opened Payments
  import opened Scheduler
  import opened Speculation
  import opened Jobs
  import opened ReadyDag
  import opened Guards
  import opened FoldMeaning

  const MAX_TRANSACTIONS := 8192
  const MIN_TRANSACTIONS := 64
  const MAX_INPUT_BYTES := 8 * 1024 * 1024
  const SEGMENT_EVENTS := 128

  type Events = map<Address, seq<Event>>

  /** The seeds and complete event lists of a block. */
  ghost predicate EventsOk(env: Env, txs: Block, accounts: map<Address, Account>, events: Events) {
    && AllChargeable(env, txs, |txs|) && events.Keys == accounts.Keys
    && (forall i | 0 <= i < |txs| :: txs[i].sender in accounts && txs[i].payload.recipient in accounts)
    && (forall a | a in events :: events[a] == EventsOf(env, txs, a, |txs|))
  }

  /** One debit and one credit event per payment, appended to its two accounts. */
  method Collect(env: Env, txs: Block, accounts: map<Address, Account>) returns (r: Result<Events, ExecutionError>)
    requires Foldable(txs)
    requires forall i | 0 <= i < |txs| :: txs[i].sender in accounts && txs[i].payload.recipient in accounts
    ensures r.Ok? ==> EventsOk(env, txs, accounts, r.value)
    ensures r.Err? ==> !AllChargeable(env, txs, |txs|) && r.error != NativeUnavailable
  {
    hide Chargeable;
    hide EventsOf;
    var events: Events := map a | a in accounts :: [];
    NoEvents(env, txs);
    for i := 0 to |txs|
      invariant AllChargeable(env, txs, i) && events.Keys == accounts.Keys
      invariant forall a | a in events :: events[a] == EventsOf(env, txs, a, i)
    {
      var charged := Charge(env, txs[i]);
      if charged.Err? {
        return Err(charged.error);
      }
      var (sender, recipient) := (txs[i].sender, txs[i].payload.recipient);
      NextEvents(env, txs, i);
      events := events[sender := events[sender] + [Debit(env, txs[i], i)]];
      events := events[recipient := events[recipient] + [Credit(txs[i], i)]];
    }
    return Ok(events);
  }

  /** The representability checks of one payment. */
  method Charge(env: Env, tx: Transaction) returns (r: Result<(), ExecutionError>)
    requires tx.payload.Payment?
    ensures r.Ok? <==> Chargeable(env, tx)
    ensures r.Err? ==> r.error != NativeUnavailable
  {
    hide Resources.CheckedCost;
    var resources := PaymentResources(tx);
    if !resources.FitsIn(tx.limit) {
      return Err(ResourceLimit);
    }
    var fee := resources.CheckedCost(env.prices);
    if fee.None? {
      return Err(ResourceLimit);
    }
    if tx.payload.amount + fee.value > U64_MAX {
      return Err(Conflict);
    }
    var cost := tx.limit.CheckedCost(env.prices);
    if cost.None? || cost.value + tx.payload.amount > U64_MAX {
      return Err(Conflict);
    }
    return Ok(());
  }

  lemma NoEvents(env: Env, txs: Block)
    requires Foldable(txs)
    ensures forall a :: EventsOf(env, txs, a, 0) == []
  {
  }

  lemma NextEvents(env: Env, txs: Block, i: nat)
    requires AllChargeable(env, txs, i + 1)
    ensures forall a :: EventsOf(env, txs, a, i + 1) ==
              if txs[i].sender == a then EventsOf(env, txs, a, i) + [Debit(env, txs[i], i)]
              else if txs[i].payload.recipient == a then EventsOf(env, txs, a, i) + [Credit(txs[i], i)]
              else EventsOf(env, txs, a, i)
  {
    hide Chargeable;
  }

  // Segments.

  /** Positions `from` to `to` of one account's events. */
  datatype Segment = Segment(address: Address, from: nat, to: nat)

  ghost predicate Inside(events: Events, g: Segment) {
    g.address in events && g.from < g.to <= |events[g.address]|
  }

  ghost predicate Holds(g: Segment, a: Address, p: nat) {
    g.address == a && g.from <= p < g.to
  }

  /** Where the segment at `g` must start: where the previous one of its account ended. */
  function StartOf(segments: seq<Segment>, g: nat): nat
    requires g < |segments|
  {
    if g > 0 && segments[g - 1].address == segments[g].address then segments[g - 1].to else 0
  }

  ghost predicate StartsRight(segments: seq<Segment>, g: nat) {
    g < |segments| && segments[g].from == StartOf(segments, g)
  }

  /** Segments in order: each starts where the previous one of its account ended, and none overlaps. */
  ghost predicate Ordered(events: Events, segments: seq<Segment>) {
    && (forall g | 0 <= g < |segments| :: Inside(events, segments[g]))
    && (forall g: nat | g < |segments| :: StartsRight(segments, g))
    && (forall g, h | 0 <= g < h < |segments| && segments[g].address == segments[h].address ::
          segments[g].to <= segments[h].from)
  }

  /** All positions of the accounts in `done` are covered. */
  ghost predicate CoversAll(events: Events, segments: seq<Segment>, done: set<Address>) {
    forall a, p: nat | a in done && a in events && p < |events[a]| :: Covers(segments, a, p)
  }

  /** The segments tile every account's list. */
  ghost predicate SegmentsOk(events: Events, segments: seq<Segment>) {
    Ordered(events, segments) && CoversAll(events, segments, events.Keys)
  }

  ghost predicate Covers(segments: seq<Segment>, a: Address, p: nat) {
    exists g :: 0 <= g < |segments| && Holds(segments[g], a, p)
  }

  /** No segment belongs to an account in `left`. */
  ghost predicate NoneOf(segments: seq<Segment>, left: set<Address>) {
    forall g | 0 <= g < |segments| :: segments[g].address !in left
  }

  /** Cuts every account's list into pieces of at most `size` events, account by account. */
  method Cut(events: Events, size: nat) returns (segments: seq<Segment>)
    requires 0 < size
    ensures SegmentsOk(events, segments)
  {
    segments := [];
    var left := events.Keys;
    while left != {}
      invariant left <= events.Keys
      invariant Ordered(events, segments) && NoneOf(segments, left) && CoversAll(events, segments, events.Keys - left)
      decreases left
    {
      var address :| address in left;
      segments := CutAccount(events, segments, address, size, left);
      left := left - {address};
      assert events.Keys - left == events.Keys - (left + {address}) + {address};
    }
  }

  /** Where the next segment of `address` must start. */
  function NextStart(segments: seq<Segment>, address: Address): nat {
    if segments != [] && segments[|segments| - 1].address == address then segments[|segments| - 1].to else 0
  }

  method CutAccount(events: Events, before: seq<Segment>, address: Address, size: nat, ghost left: set<Address>)
    returns (segments: seq<Segment>)
    requires 0 < size && address in left && left <= events.Keys
    requires Ordered(events, before) && NoneOf(before, left) && CoversAll(events, before, events.Keys - left)
    ensures Ordered(events, segments) && NoneOf(segments, left - {address})
    ensures CoversAll(events, segments, events.Keys - left + {address})
  {
    hide Ordered;
    hide CoversAll;
    hide Covers;
    segments := before;
    var from: nat := 0;
    while from < |events[address]|
      invariant from <= |events[address]| && from == NextStart(segments, address)
      invariant Ordered(events, segments) && NoneOf(segments, left - {address})
      invariant EndsBy(segments, address, from)
      invariant CoversAll(events, segments, events.Keys - left)
      invariant forall p: nat | p < from :: Covers(segments, address, p)
      decreases |events[address]| - from
    {
      var to := Min(from + size, |events[address]|);
      SegmentAdded(events, segments, address, from, to, events.Keys - left);
      segments := segments + [Segment(address, from, to)];
      from := to;
    }
    AccountCovered(events, segments, address, events.Keys - left);
  }

  /** No segment of `address` reaches beyond `upTo`. */
  ghost predicate EndsBy(segments: seq<Segment>, address: Address, upTo: nat) {
    forall g | 0 <= g < |segments| && segments[g].address == address :: segments[g].to <= upTo
  }

  lemma SegmentAdded(events: Events, segments: seq<Segment>, address: Address, from: nat, to: nat, done: set<Address>)
    requires Ordered(events, segments) && EndsBy(segments, address, from) && from == NextStart(segments, address)
    requires address in events && from < to <= |events[address]| && CoversAll(events, segments, done)
    requires forall p: nat | p < from :: Covers(segments, address, p)
    ensures var more := segments + [Segment(address, from, to)];
            && Ordered(events, more) && EndsBy(more, address, to) && CoversAll(events, more, done)
            && forall p: nat | p < to :: Covers(more, address, p)
  {
    var next := Segment(address, from, to);
    OrderGrows(events, segments, next);
    hide Ordered;
    forall a, p: nat | Covers(segments, a, p) || Holds(next, a, p)
      ensures Covers(segments + [next], a, p)
    {
      StillCovers(segments, next, a, p);
    }
    hide Covers;
    forall p: nat | p < to
      ensures Covers(segments + [next], address, p)
    {
      assert p < from || Holds(next, address, p);
    }
  }

  lemma OrderGrows(events: Events, segments: seq<Segment>, next: Segment)
    requires Ordered(events, segments) && Inside(events, next) && EndsBy(segments, next.address, next.from)
    requires next.from == NextStart(segments, next.address)
    ensures Ordered(events, segments + [next])
  {
    var more := segments + [next];
    forall g: nat | g < |more|
      ensures StartsRight(more, g)
    {
      if g < |segments| {
        assert StartsRight(segments, g);
      }
    }
  }

  lemma AccountCovered(events: Events, segments: seq<Segment>, address: Address, done: set<Address>)
    requires CoversAll(events, segments, done) && address in events
    requires forall p: nat | p < |events[address]| :: Covers(segments, address, p)
    ensures CoversAll(events, segments, done + {address})
  {
    hide Covers;
  }

  lemma StillCovers(segments: seq<Segment>, next: Segment, a: Address, p: nat)
    requires Covers(segments, a, p) || Holds(next, a, p)
    ensures Covers(segments + [next], a, p)
  {
    var longer := segments + [next];
    if Covers(segments, a, p) {
      var g :| 0 <= g < |segments| && Holds(segments[g], a, p);
      assert Holds(longer[g], a, p);
    } else {
      assert Holds(longer[|segments|], a, p);
    }
  }

  // Phase one: summaries, in any order.

  datatype Prefix = Prefix(guard: Guard, outgoing: nat)

  ghost predicate SumsUp(prefix: Prefix, events: seq<Event>) {
    Summarizes(prefix.guard, events) && prefix.outgoing == Outgoing(events)
  }

  method Summarize(events: seq<Event>) returns (r: Result<Prefix, ExecutionError>)
    requires AreEvents(events) && |events| <= BATCH
    ensures r.Ok? ==> SumsUp(r.value, events)
    ensures r.Err? ==> r.error == Conflict && forall x :: !Walks(events, x)
  {
    hide Summarizes;
    hide Walks;
    var summary := Prefix(IDENTITY, 0);
    IdentitySummarizesNothing();
    for p := 0 to |events|
      invariant SumsUp(summary, events[..p])
    {
      assert events[..p + 1] == events[..p] + [events[p]];
      assert events[..p + 1][..p] == events[..p];
      AddEvent(summary.guard, events[..p], events[p]);
      var next := Then(summary.guard, events[p].guard);
      if next.Err? {
        NoneWalksLonger(events, p + 1);
        return Err(next.error);
      }
      summary := Prefix(next.value, summary.outgoing + if events[p].debit then 1 else 0);
    }
    assert events[..|events|] == events;
    return Ok(summary);
  }

  lemma NoneWalksLonger(events: seq<Event>, n: nat)
    requires AreEvents(events) && n <= |events| && forall x :: !Walks(events[..n], x)
    ensures forall x :: !Walks(events, x)
  {
    hide Walks;
    forall x
      ensures !Walks(events, x)
    {
      assert events == events[..n] + events[n..];
      WalkSplits(events[..n], events[n..], x);
    }
  }

  ghost predicate ListsOk(accounts: map<Address, Account>, events: Events) {
    && events.Keys == accounts.Keys
    && forall a | a in events :: AreEvents(events[a]) && |events[a]| <= MAX_TRANSACTIONS
  }

  /** Every seed can walk its account's list and its nonce does not run out. */
  ghost predicate Healthy(accounts: map<Address, Account>, events: Events)
    requires events.Keys == accounts.Keys
  {
    forall a | a in events ::
      Walks(events[a], accounts[a].balance) && accounts[a].nonce + Outgoing(events[a]) <= U64_MAX
  }

  function Slice(events: Events, g: Segment): seq<Event>
    requires g.address in events && g.from < g.to <= |events[g.address]|
  {
    events[g.address][g.from..g.to]
  }

  lemma SliceWalks(events: seq<Event>, from: nat, to: nat, x: int)
    requires AreEvents(events) && from <= to <= |events| && Walks(events, x)
    ensures Walks(events[from..to], x + Net(events[..from]))
    ensures Walks(events[..to], x)
  {
    hide Walks;
    assert events == events[..to] + events[to..];
    WalkSplits(events[..to], events[to..], x);
    assert events[..to] == events[..from] + events[from..to];
    WalkSplits(events[..from], events[from..to], x);
  }

  method SummarizeSegment(ghost accounts: map<Address, Account>, events: Events, segments: seq<Segment>, g: nat)
    returns (r: Result<Prefix, ExecutionError>)
    requires ListsOk(accounts, events) && g < |segments| && Inside(events, segments[g])
    ensures r.Ok? ==> SummaryAt(events, segments, g, r.value)
    ensures r.Err? ==> !Healthy(accounts, events) && r.error == Conflict
  {
    hide Walks;
    hide SumsUp;
    var segment := segments[g];
    r := Summarize(Slice(events, segment));
    if r.Err? && Healthy(accounts, events) {
      SliceWalks(events[segment.address], segment.from, segment.to, accounts[segment.address].balance);
      assert false;
    }
  }

  /** Workers fill one write-once slot per segment, in any order. */
  method SummarizeAll(accounts: map<Address, Account>, events: Events, segments: seq<Segment>)
    returns (r: Result<seq<Prefix>, ExecutionError>)
    requires ListsOk(accounts, events) && SegmentsOk(events, segments)
    ensures r.Ok? ==>
              && |r.value| == |segments|
              && forall g | 0 <= g < |segments| :: SumsUp(r.value[g], Slice(events, segments[g]))
    ensures r.Err? ==> !Healthy(accounts, events) && r.error == Conflict
  {
    hide ListsOk;
    hide Healthy;
    hide SummaryAt;
    AllInside(events, segments);
    hide SegmentsOk;
    var slots: map<nat, Prefix> := map[];
    var todo := set g | 0 <= g < |segments| && segments[g] in segments;
    while todo != {}
      invariant forall g | g in todo :: 0 <= g < |segments|
      invariant forall g: nat | g < |segments| :: g in slots <==> g !in todo
      invariant forall g | g in slots :: SummaryAt(events, segments, g, slots[g])
      decreases todo
    {
      var g :| g in todo;
      var summary := SummarizeSegment(accounts, events, segments, g);
      if summary.Err? {
        return Err(summary.error);
      }
      slots := slots[g := summary.value];
      todo := todo - {g};
    }
    var r' := seq(|segments|, g requires 0 <= g < |segments| && g in slots => slots[g]);
    SummariesMeaning(events, segments, r');
    return Ok(r');
  }

  /** `p` summarizes the events of segment `g`. */
  ghost predicate SummaryAt(events: Events, segments: seq<Segment>, g: nat, p: Prefix) {
    g < |segments| && Inside(events, segments[g]) && SumsUp(p, Slice(events, segments[g]))
  }

  lemma AllInside(events: Events, segments: seq<Segment>)
    requires SegmentsOk(events, segments)
    ensures forall g | 0 <= g < |segments| :: Inside(events, segments[g])
  {
  }

  lemma SummariesMeaning(events: Events, segments: seq<Segment>, summaries: seq<Prefix>)
    requires |summaries| == |segments| && forall g | 0 <= g < |segments| :: SummaryAt(events, segments, g, summaries[g])
    ensures forall g | 0 <= g < |segments| ::
              Inside(events, segments[g]) && SumsUp(summaries[g], Slice(events, segments[g]))
  {
    hide SumsUp;
    forall g | 0 <= g < |segments|
      ensures Inside(events, segments[g]) && SumsUp(summaries[g], Slice(events, segments[g]))
    {
      assert SummaryAt(events, segments, g, summaries[g]);
    }
  }

  // The sequential scan over segment summaries.

  /** Prefix of every segment: the summary of all earlier events of its account. */
  method Scan(accounts: map<Address, Account>, events: Events, segments: seq<Segment>, summaries: seq<Prefix>)
    returns (r: Result<seq<Prefix>, ExecutionError>)
    requires ListsOk(accounts, events) && SegmentsOk(events, segments) && |summaries| == |segments|
    requires forall g | 0 <= g < |segments| :: SumsUp(summaries[g], Slice(events, segments[g]))
    ensures r.Ok? ==> |r.value| == |segments| && forall g | 0 <= g < |segments| ::
                        SumsUp(r.value[g], events[segments[g].address][..segments[g].from])
    ensures r.Err? ==> !Healthy(accounts, events) && r.error == Conflict
  {
    hide Walks;
    hide Summarizes;
    hide Then;
    var prefixes: seq<Prefix> := [];
    var prefix := Prefix(IDENTITY, 0);
    IdentitySummarizesNothing();
    for g := 0 to |segments|
      invariant |prefixes| == g
      invariant g > 0 ==> SumsUp(prefix, events[segments[g - 1].address][..segments[g - 1].to])
      invariant forall h | 0 <= h < g :: SumsUp(prefixes[h], events[segments[h].address][..segments[h].from])
    {
      var segment := segments[g];
      assert Inside(events, segment) && StartsRight(segments, g);
      if g == 0 || segments[g - 1].address != segment.address {
        prefix := Prefix(IDENTITY, 0);
        assert events[segment.address][..0] == [];
      }
      prefixes := prefixes + [prefix];
      var seed := accounts[segment.address];
      var next := Advance(seed, events[segment.address], segment, prefix, summaries[g]);
      if next.Err? {
        return Err(next.error);
      }
      prefix := next.value;
    }
    return Ok(prefixes);
  }

  /** One scan step with its balance and nonce checks; it fails only when the seed cannot walk this far. */
  method Advance(seed: Account, list: seq<Event>, g: Segment, prefix: Prefix, summary: Prefix)
    returns (r: Result<Prefix, ExecutionError>)
    requires AreEvents(list) && |list| <= MAX_TRANSACTIONS && g.from < g.to <= |list|
    requires SumsUp(prefix, list[..g.from]) && SumsUp(summary, list[g.from..g.to])
    ensures r.Ok? ==> SumsUp(r.value, list[..g.to])
    ensures r.Err? ==> r.error == Conflict && (!Walks(list, seed.balance) || seed.nonce + Outgoing(list) > U64_MAX)
  {
    hide Walks;
    ghost var (left, right) := (list[..g.from], list[g.from..g.to]);
    assert list[..g.to] == left + right;
    JoinSummaries(prefix.guard, left, summary.guard, right);
    Concatenation(left, right);
    OutgoingBounds(list, g.to);
    WalkPrefix(list, g.to, seed.balance);
    var joined := Then(prefix.guard, summary.guard);
    if joined.Err? {
      return Err(joined.error);
    }
    // The count of outgoing payments is bounded by the batch, so its addition cannot overflow.
    assert prefix.outgoing + summary.outgoing <= U64_MAX;
    var next := Prefix(joined.value, prefix.outgoing + summary.outgoing);
    if !Accepts(next.guard, seed.balance) || seed.nonce + next.outgoing > U64_MAX {
      assert SameVerdict(next.guard, list[..g.to], seed.balance);
      return Err(Conflict);
    }
    return Ok(next);
  }

  lemma WalkPrefix(list: seq<Event>, n: nat, x: int)
    requires AreEvents(list) && n <= |list|
    ensures Walks(list, x) ==> Walks(list[..n], x)
  {
    hide Walks;
    if Walks(list, x) {
      SliceWalks(list, 0, n, x);
    }
  }

  lemma OutgoingBounds(list: seq<Event>, n: nat)
    requires n <= |list|
    ensures Outgoing(list[..n]) <= Outgoing(list) <= |list| && Outgoing(list[..n]) <= n
  {
    assert list == list[..n] + list[n..];
    Concatenation(list[..n], list[n..]);
    OutgoingAtMost(list[..n]);
    OutgoingAtMost(list);
  }

  lemma {:induction false} OutgoingAtMost(list: seq<Event>)
    ensures Outgoing(list) <= |list|
  {
    if list != [] {
      OutgoingAtMost(list[..|list| - 1]);
    }
  }

  // Phase two: reconstructed inputs, in any order.

  /** Input slots by payment and side. */
  type Slots = map<(nat, bool), Account>

  function SlotOf(e: Event): (nat, bool) {
    (e.index, e.debit)
  }

  /** The account that the event at position `p` meets. */
  ghost predicate MeetsAt(seed: Account, list: seq<Event>, p: nat, account: Account)
    requires p <= |list|
  {
    account.nonce == seed.nonce + Outgoing(list[..p]) && account.balance == seed.balance + Net(list[..p])
  }

  ghost predicate FilledAt(accounts: map<Address, Account>, events: Events, slots: Slots, a: Address, p: nat)
    requires a in events && a in accounts && p < |events[a]|
  {
    SlotOf(events[a][p]) in slots && MeetsAt(accounts[a], events[a], p, slots[SlotOf(events[a][p])])
  }

  /** Different positions have different slots. */
  ghost predicate SlotsDistinct(events: Events) {
    forall a, p: nat, b, q: nat | At(events, a, p) && At(events, b, q)
                                  && SlotOf(events[a][p]) == SlotOf(events[b][q]) ::
      a == b && p == q
  }

  ghost predicate At(events: Events, a: Address, p: nat) {
    a in events && p < |events[a]|
  }

  /** `slot` belongs to a position of a finished segment, or to one of the first `upTo` positions of `a`'s open one. */
  ghost predicate Written(events: Events, segments: seq<Segment>, todo: set<nat>, slot: (nat, bool), open: Segment,
                          upTo: nat) {
    exists a, p: nat :: At(events, a, p) && SlotOf(events[a][p]) == slot
      && (Finished(segments, todo, a, p) || (a == open.address && open.from <= p < upTo))
  }

  ghost predicate Finished(segments: seq<Segment>, todo: set<nat>, a: Address, p: nat) {
    exists g: nat :: g < |segments| && g !in todo && Holds(segments[g], a, p)
  }

  /** No write-once slot of an open segment is already set. */
  lemma SlotIsFree(events: Events, segments: seq<Segment>, todo: set<nat>, g: nat, q: nat, slots: Slots)
    requires SegmentsOk(events, segments) && SlotsDistinct(events) && g < |segments| && g in todo
    requires segments[g].from <= q < segments[g].to
    requires forall slot | slot in slots :: Written(events, segments, todo, slot, segments[g], q)
    ensures SlotOf(events[segments[g].address][q]) !in slots
  {
    var a := segments[g].address;
    assert Inside(events, segments[g]) && At(events, a, q);
    StillOpen(events, segments, todo, g, q);
    forall slot | slot in slots
      ensures slot != SlotOf(events[a][q])
    {
      var b, p: nat :| At(events, b, p) && SlotOf(events[b][p]) == slot
                       && (Finished(segments, todo, b, p) || (b == a && segments[g].from <= p < q));
      assert b != a || p != q;
    }
  }

  lemma StillOpen(events: Events, segments: seq<Segment>, todo: set<nat>, g: nat, q: nat)
    requires Ordered(events, segments) && g < |segments| && g in todo && segments[g].from <= q < segments[g].to
    ensures !Finished(segments, todo, segments[g].address, q)
  {
    forall h: nat | h < |segments| && h !in todo
      ensures !Holds(segments[h], segments[g].address, q)
    {
      assert h < g || g < h;
    }
  }

  /** Writes the inputs of one segment. */
  method ReconstructOne(accounts: map<Address, Account>, events: Events, ghost segments: seq<Segment>,
                        ghost todo: set<nat>, ghost g: nat, segment: Segment, prefix: Prefix, before: Slots)
    returns (r: Result<Slots, ExecutionError>)
    requires ListsOk(accounts, events) && SegmentsOk(events, segments) && SlotsDistinct(events)
    requires g < |segments| && g in todo && segment == segments[g] && Inside(events, segment)
    requires SumsUp(prefix, events[segment.address][..segment.from])
    requires forall slot | slot in before :: Written(events, segments, todo, slot, segment, segment.from)
    ensures r.Ok? ==> && (forall slot | slot in before :: slot in r.value && r.value[slot] == before[slot])
                      && (forall slot | slot in r.value :: Written(events, segments, todo, slot, segment, segment.to))
                      && (forall p: nat | segment.from <= p < segment.to ::
                            FilledAt(accounts, events, r.value, segment.address, p))
    ensures r.Err? ==> !Healthy(accounts, events) && r.error == Conflict
  {
    hide Walks;
    hide SegmentsOk;
    hide SlotsDistinct;
    hide Summarizes;
    hide FilledAt;
    hide Written;
    ghost var a := segment.address;
    var (seed, list) := (accounts[segment.address], events[segment.address]);
    PrefixMeaning(prefix, list[..segment.from]);
    var balance: int := seed.balance + prefix.guard.delta;
    var nonce: int := seed.nonce + prefix.outgoing;
    var slots := before;
    for p := segment.from to segment.to
      invariant balance == seed.balance + Net(list[..p]) && nonce == seed.nonce + Outgoing(list[..p])
      invariant forall slot | slot in before :: slot in slots && slots[slot] == before[slot]
      invariant forall slot | slot in slots :: Written(events, segments, todo, slot, segment, p)
      invariant forall q: nat | segment.from <= q < p :: FilledAt(accounts, events, slots, a, q)
    {
      if balance < 0 || balance > U64_MAX || nonce > U64_MAX {
        OutOfRangeIsUnhealthy(accounts, events, a, p);
        return Err(Conflict);
      }
      var slot := SlotOf(list[p]);
      SlotIsFree(events, segments, todo, g, p, slots);
      ghost var was := slots;
      slots := slots[slot := Account(nonce, balance)];
      WrittenGrows(events, segments, todo, segment, p, was, slots);
      FilledGrows(accounts, events, was, slots, a, segment.from, p);
      assert list[..p + 1][..p] == list[..p];
      balance := balance + list[p].guard.delta;
      nonce := nonce + if list[p].debit then 1 else 0;
    }
    return Ok(slots);
  }

  lemma PrefixMeaning(prefix: Prefix, events: seq<Event>)
    requires SumsUp(prefix, events)
    ensures prefix.guard.delta == Net(events) && prefix.outgoing == Outgoing(events)
  {
  }

  lemma FilledGrows(accounts: map<Address, Account>, events: Events, was: Slots, now: Slots, a: Address, from: nat,
                    p: nat)
    requires At(events, a, p) && a in accounts && from <= p && SlotOf(events[a][p]) !in was
    requires forall q: nat | from <= q < p :: FilledAt(accounts, events, was, a, q)
    requires SlotOf(events[a][p]) in now && now == was[SlotOf(events[a][p]) := now[SlotOf(events[a][p])]]
    requires MeetsAt(accounts[a], events[a], p, now[SlotOf(events[a][p])])
    ensures forall q: nat | from <= q < p + 1 :: FilledAt(accounts, events, now, a, q)
  {
    hide MeetsAt;
    forall q: nat | from <= q < p + 1
      ensures FilledAt(accounts, events, now, a, q)
    {
      if q < p {
        assert FilledAt(accounts, events, was, a, q);
      }
    }
  }

  lemma WrittenGrows(events: Events, segments: seq<Segment>, todo: set<nat>, open: Segment, p: nat, was: Slots,
                     now: Slots)
    requires At(events, open.address, p) && open.from <= p
    requires forall slot | slot in was :: Written(events, segments, todo, slot, open, p)
    requires now.Keys == was.Keys + {SlotOf(events[open.address][p])}
    ensures forall slot | slot in now :: Written(events, segments, todo, slot, open, p + 1)
  {
    forall slot | slot in now
      ensures Written(events, segments, todo, slot, open, p + 1)
    {
      if slot in was {
        var a, q: nat :| At(events, a, q) && SlotOf(events[a][q]) == slot
                         && (Finished(segments, todo, a, q) || (a == open.address && open.from <= q < p));
      } else {
        assert At(events, open.address, p) && SlotOf(events[open.address][p]) == slot;
      }
    }
  }

  lemma OutOfRangeIsUnhealthy(accounts: map<Address, Account>, events: Events, a: Address, p: nat)
    requires ListsOk(accounts, events) && At(events, a, p)
    requires var balance := accounts[a].balance + Net(events[a][..p]);
             var nonce := accounts[a].nonce + Outgoing(events[a][..p]);
             balance < 0 || balance > U64_MAX || nonce > U64_MAX
    ensures !Healthy(accounts, events)
  {
    hide Walks;
    if Healthy(accounts, events) {
      WalkPrefix(events[a], p, accounts[a].balance);
      WalkStaysInRange(events[a][..p], accounts[a].balance);
      OutgoingBounds(events[a], p);
      assert false;
    }
  }

  /** All segments in any order; every slot is written exactly once. */
  method Reconstruct(accounts: map<Address, Account>, events: Events, segments: seq<Segment>, prefixes: seq<Prefix>)
    returns (r: Result<Slots, ExecutionError>)
    requires ListsOk(accounts, events) && SegmentsOk(events, segments) && SlotsDistinct(events)
    requires |prefixes| == |segments|
    requires forall g | 0 <= g < |segments| :: SumsUp(prefixes[g], events[segments[g].address][..segments[g].from])
    ensures r.Ok? ==> forall a, p: nat | At(events, a, p) :: FilledAt(accounts, events, r.value, a, p)
    ensures r.Err? ==> !Healthy(accounts, events) && r.error == Conflict
  {
    hide SumsUp;
    hide SlotsDistinct;
    hide Healthy;
    hide MeetsAt;
    var slots: Slots := map[];
    var todo := set g | 0 <= g < |segments| && segments[g] in segments;
    while todo != {}
      invariant forall g | g in todo :: 0 <= g < |segments|
      invariant forall slot | slot in slots :: WrittenDone(events, segments, todo, slot)
      invariant forall a, p: nat | At(events, a, p) && Finished(segments, todo, a, p) ::
                  FilledAt(accounts, events, slots, a, p)
      decreases todo
    {
      var g :| g in todo;
      assert Inside(events, segments[g]);
      forall slot | slot in slots
        ensures Written(events, segments, todo, slot, segments[g], segments[g].from)
      {
        assert WrittenDone(events, segments, todo, slot);
      }
      var filled := ReconstructOne(accounts, events, segments, todo, g, segments[g], prefixes[g], slots);
      if filled.Err? {
        return Err(filled.error);
      }
      SegmentFinished(accounts, events, segments, todo, g, slots, filled.value);
      slots := filled.value;
      todo := todo - {g};
    }
    forall a, p: nat | At(events, a, p)
      ensures FilledAt(accounts, events, slots, a, p)
    {
      assert Covers(segments, a, p);
      var g: nat :| g < |segments| && Holds(segments[g], a, p);
      assert Finished(segments, todo, a, p);
    }
    return Ok(slots);
  }

  ghost predicate WrittenDone(events: Events, segments: seq<Segment>, todo: set<nat>, slot: (nat, bool)) {
    exists a, p: nat :: At(events, a, p) && SlotOf(events[a][p]) == slot && Finished(segments, todo, a, p)
  }

  lemma SegmentFinished(accounts: map<Address, Account>, events: Events, segments: seq<Segment>, todo: set<nat>, g: nat,
                        was: Slots, now: Slots)
    requires events.Keys == accounts.Keys && g < |segments| && Inside(events, segments[g])
    requires forall slot | slot in was :: slot in now && now[slot] == was[slot]
    requires forall slot | slot in now :: Written(events, segments, todo, slot, segments[g], segments[g].to)
    requires forall p: nat | segments[g].from <= p < segments[g].to ::
               FilledAt(accounts, events, now, segments[g].address, p)
    requires forall a, p: nat | At(events, a, p) && Finished(segments, todo, a, p) ::
               FilledAt(accounts, events, was, a, p)
    ensures forall slot | slot in now :: WrittenDone(events, segments, todo - {g}, slot)
    ensures forall a, p: nat | At(events, a, p) && Finished(segments, todo - {g}, a, p) ::
              FilledAt(accounts, events, now, a, p)
  {
    hide MeetsAt;
    var rest := todo - {g};
    forall slot | slot in now
      ensures WrittenDone(events, segments, rest, slot)
    {
      var a, p: nat :| At(events, a, p) && SlotOf(events[a][p]) == slot
                       && (|| Finished(segments, todo, a, p)
                           || (a == segments[g].address && segments[g].from <= p < segments[g].to));
      assert Finished(segments, rest, a, p) by {
        if !Finished(segments, todo, a, p) {
          assert Holds(segments[g], a, p);
        }
      }
    }
    forall a, p: nat | At(events, a, p) && Finished(segments, rest, a, p)
      ensures FilledAt(accounts, events, now, a, p)
    {
      var h: nat :| h < |segments| && h !in rest && Holds(segments[h], a, p);
      if h != g {
        assert Finished(segments, todo, a, p);
        assert FilledAt(accounts, events, was, a, p);
      }
    }
  }

  lemma SlotsAreDistinct(env: Env, txs: Block, accounts: map<Address, Account>, events: Events)
    requires EventsOk(env, txs, accounts, events)
    ensures SlotsDistinct(events)
  {
    hide Chargeable;
    hide EventsOf;
    forall a, p: nat, b, q: nat | At(events, a, p) && At(events, b, q) && SlotOf(events[a][p]) == SlotOf(events[b][q])
      ensures a == b && p == q
    {
      EventPosition(env, txs, a, |txs|, p);
      EventPosition(env, txs, b, |txs|, q);
      assert |events[a][..p]| == p && |events[b][..q]| == q;
    }
  }

  /** The two inputs of every payment, as the reference execution needs them. */
  lemma InputsOf(env: Env, txs: Block, accounts: map<Address, Account>, events: Events, slots: Slots, i: nat,
                 debit: bool)
    requires EventsOk(env, txs, accounts, events) && i < |txs|
    requires forall a, p: nat | At(events, a, p) :: FilledAt(accounts, events, slots, a, p)
    ensures (i, debit) in slots && IsInput(env, txs, accounts, Party(txs, i, debit), i, slots[(i, debit)])
  {
    hide Chargeable;
    hide EventsOf;
    var a := Party(txs, i, debit);
    var p := |EventsOf(env, txs, a, i)|;
    EventExists(env, txs, i, debit, |txs|);
    EventPosition(env, txs, a, |txs|, p);
    assert FilledAt(accounts, events, slots, a, p);
  }

  // Phase three: reference execution on reconstructed pairs, in any order.

  method ExecuteAll(env: Env, txs: Block, slots: Slots, ghost accounts: map<Address, Account>, ghost events: Events)
    returns (r: Result<seq<Output>, ExecutionError>, ghost failed: nat)
    requires EventsOk(env, txs, accounts, events)
    requires forall a, p: nat | At(events, a, p) :: FilledAt(accounts, events, slots, a, p)
    ensures r.Ok? ==> |r.value| == |txs| && forall i | 0 <= i < |txs| :: FromInputs(env, txs, accounts, i, r.value[i])
    ensures r.Err? ==>
              && r.error != NativeUnavailable
              && failed < |txs| && (failed, true) in slots && (failed, false) in slots
              && var view := PairView(txs[failed], slots[(failed, true)], slots[(failed, false)]);
                 Exec(env, txs[failed], view).Err?
  {
    hide Exec;
    hide Chargeable;
    hide EventsOf;
    hide IsInput;
    hide FilledAt;
    var outputs: map<nat, Output> := map[];
    var todo := set i | 0 <= i < |txs| && txs[i] in txs;
    while todo != {}
      invariant forall i | i in todo :: 0 <= i < |txs|
      invariant forall i: nat | i < |txs| :: i in outputs <==> i !in todo
      invariant forall i | i in outputs :: i < |txs| && FromInputs(env, txs, accounts, i, outputs[i])
      decreases todo
    {
      var i :| i in todo;
      InputsOf(env, txs, accounts, events, slots, i, true);
      InputsOf(env, txs, accounts, events, slots, i, false);
      var output := PayOnce(env, txs[i], PairView(txs[i], slots[(i, true)], slots[(i, false)]));
      if output.Err? {
        PaymentsAreNeverNative(env, txs[i], PairView(txs[i], slots[(i, true)], slots[(i, false)]));
        return Err(output.error), i;
      }
      outputs := outputs[i := output.value];
      todo := todo - {i};
    }
    return Ok(seq(|txs|, i requires 0 <= i < |txs| && i in outputs => outputs[i])), 0;
  }

  lemma PaymentsAreNeverNative(env: Env, tx: Transaction, view: State)
    requires tx.lane == Lane.Payments
    ensures Exec(env, tx, view) != Err(NativeUnavailable)
  {
    hide Validate;
    hide Resources.CheckedCost;
  }

  lemma ListsAreOk(env: Env, txs: Block, accounts: map<Address, Account>, events: Events)
    requires EventsOk(env, txs, accounts, events) && |txs| <= MAX_TRANSACTIONS
    ensures ListsOk(accounts, events)
  {
    hide Chargeable;
    hide EventsOf;
    forall a | a in events
      ensures AreEvents(events[a]) && |events[a]| <= MAX_TRANSACTIONS
    {
      EventsAreEvents(env, txs, a, |txs|);
    }
  }

  /** A block that runs serially passes every fold check. */
  lemma SerialIsHealthy(env: Env, txs: Block, s: State, accounts: map<Address, Account>, events: Events)
    requires Seeded(s, accounts, txs) && EventsOk(env, txs, accounts, events) && SerialSucceeds(env, txs, s)
    ensures Healthy(accounts, events)
  {
    hide Chargeable;
    hide EventsOf;
    hide SerialOutput;
    hide Walks;
    forall a | a in events
      ensures Walks(events[a], accounts[a].balance) && accounts[a].nonce + Outgoing(events[a]) <= U64_MAX
    {
      SerialWalks(env, txs, s, accounts, |txs|, a);
    }
  }

  /**
   * The three phases and the scan, for any segment size. Success means serial outputs,
   * and a block that runs serially never fails here once the pool has started.
   */
  method Run(env: Env, txs: Block, ghost parent: State, accounts: map<Address, Account>, size: nat, spawned: bool)
    returns (r: Result<seq<Output>, ExecutionError>)
    requires Seeded(parent, accounts, txs) && |txs| <= MAX_TRANSACTIONS && 0 < size
    ensures r.Ok? ==> IsSerialResult(env, txs, parent, r.value)
    ensures SerialSucceeds(env, txs, parent) && spawned ==> r.Ok?
    ensures r.Err? ==> r.error != NativeUnavailable
  {
    hide *;
    SeededMeaning(parent, accounts, txs);
    ghost var serial := SerialSucceeds(env, txs, parent);
    if serial {
      SucceedsMeaning(env, txs, parent);
      SerialIsChargeable(env, txs, parent, |txs|);
    }
    var collected := Collect(env, txs, accounts);
    if collected.Err? {
      return Err(collected.error);
    }
    var events := collected.value;
    ListsAreOk(env, txs, accounts, events);
    SlotsAreDistinct(env, txs, accounts, events);
    if serial {
      SerialIsHealthy(env, txs, parent, accounts, events);
    }
    var segments := Cut(events, size);
    if !spawned {
      return Err(ResourceLimit);
    }
    var summaries := SummarizeAll(accounts, events, segments);
    if summaries.Err? {
      return Err(summaries.error);
    }
    var prefixes := Scan(accounts, events, segments, summaries.value);
    if prefixes.Err? {
      return Err(prefixes.error);
    }
    var slots := Reconstruct(accounts, events, segments, prefixes.value);
    if slots.Err? {
      return Err(slots.error);
    }
    ghost var failed;
    r, failed := ExecuteAll(env, txs, slots.value, accounts, events);
    if r.Ok? {
      FoldOutputsAreSerial(env, txs, parent, accounts, events, r.value);
    } else if serial {
      FailureIsSerial(env, txs, parent, accounts, events, slots.value, failed);
    }
  }

  lemma SeededMeaning(s: State, accounts: map<Address, Account>, txs: Block)
    requires Seeded(s, accounts, txs)
    ensures Foldable(txs)
    ensures forall i | 0 <= i < |txs| :: txs[i].sender in accounts && txs[i].payload.recipient in accounts
  {
  }

  lemma SucceedsMeaning(env: Env, txs: Block, s: State)
    requires SerialSucceeds(env, txs, s)
    ensures forall i | 0 <= i < |txs| :: SerialOutput(env, txs, s, i).Ok?
  {
    hide SerialOutput;
  }

  lemma FoldOutputsAreSerial(env: Env, txs: Block, s: State, accounts: map<Address, Account>, events: Events,
                             outputs: seq<Output>)
    requires Seeded(s, accounts, txs) && EventsOk(env, txs, accounts, events)
    requires |outputs| == |txs| && forall i | 0 <= i < |txs| :: FromInputs(env, txs, accounts, i, outputs[i])
    ensures IsSerialResult(env, txs, s, outputs)
  {
    hide SerialOutput;
    hide FromInputs;
    hide Chargeable;
    FoldIsSerial(env, txs, s, accounts, outputs, |txs|);
  }

  lemma FailureIsSerial(env: Env, txs: Block, s: State, accounts: map<Address, Account>, events: Events, slots: Slots,
                        i: nat)
    requires Seeded(s, accounts, txs) && EventsOk(env, txs, accounts, events) && i < |txs|
    requires forall a, p: nat | At(events, a, p) :: FilledAt(accounts, events, slots, a, p)
    requires (i, true) in slots && (i, false) in slots
    requires Exec(env, txs[i], PairView(txs[i], slots[(i, true)], slots[(i, false)])).Err?
    ensures !SerialSucceeds(env, txs, s)
  {
    hide SerialOutput;
    hide Exec;
    hide FilledAt;
    hide IsInput;
    hide EventsOf;
    hide Chargeable;
    if SerialSucceeds(env, txs, s) {
      InputsOf(env, txs, accounts, events, slots, i, true);
      InputsOf(env, txs, accounts, events, slots, i, false);
      PairRunsAsSerial(env, txs, s, accounts, i, slots[(i, true)], slots[(i, false)]);
      assert false;
    }
  }

  /** Seeds of every party; None when some party has no account yet. */
  method ReadSeeds(txs: Block, parent: State, ghost env: Env)
    returns (r: Option<Result<map<Address, Account>, ExecutionError>>)
    requires Foldable(txs)
    ensures r.Some? && r.value.Ok? ==> Seeded(parent, r.value.value, txs)
    ensures r.None? ==> exists i | 0 <= i < |txs| ::
              !IsAccount(parent, txs[i].sender) || !IsAccount(parent, txs[i].payload.recipient)
    ensures r.Some? && r.value.Err? ==> !SerialSucceeds(env, txs, parent) && r.value.error != NativeUnavailable
  {
    hide SerialOutput;
    var accounts: map<Address, Account> := map[];
    for i := 0 to |txs|
      invariant forall a | a in accounts :: Get(parent, AccountKey(a)) == Some(AccountValue(accounts[a]))
      invariant forall j | 0 <= j < i :: txs[j].sender in accounts && txs[j].payload.recipient in accounts
    {
      var parties := [txs[i].sender, txs[i].payload.recipient];
      for p := 0 to 2
        invariant forall a | a in accounts :: Get(parent, AccountKey(a)) == Some(AccountValue(accounts[a]))
        invariant forall j | 0 <= j < i :: txs[j].sender in accounts && txs[j].payload.recipient in accounts
        invariant forall q | 0 <= q < p :: parties[q] in accounts
      {
        if parties[p] !in accounts {
          var found := ReadAccount(parent, parties[p]);
          if found.Err? {
            if SerialSucceeds(env, txs, parent) {
              CorruptAccountFails(env, txs, parent, parties[p], |txs|);
              assert false;
            }
            return Some(Err(found.error));
          }
          if found.value.None? {
            return None;
          }
          accounts := accounts[parties[p] := found.value.value];
        }
      }
      assert parties[0] in accounts && parties[1] in accounts;
    }
    return Some(Ok(accounts));
  }

  ghost function TotalBytes(txs: Block, n: nat): nat
    requires n <= |txs|
  {
    if n == 0 then 0 else TotalBytes(txs, n - 1) + txs[n - 1].encodedLen
  }

  lemma {:induction false} BytesGrow(txs: Block, n: nat)
    requires n <= |txs|
    ensures TotalBytes(txs, n) <= TotalBytes(txs, |txs|)
    decreases |txs| - n
  {
    if n < |txs| {
      BytesGrow(txs, n + 1);
    }
  }

  /** Encoded size of the block, or None above the limit. */
  method InputBytes(txs: Block) returns (r: Option<nat>)
    ensures var total := TotalBytes(txs, |txs|); r == if total <= MAX_INPUT_BYTES then Some(total) else None
  {
    var sum := 0;
    for i := 0 to |txs|
      invariant sum == TotalBytes(txs, i) <= MAX_INPUT_BYTES
    {
      sum := sum + txs[i].encodedLen;
      if sum > MAX_INPUT_BYTES {
        BytesGrow(txs, i + 1);
        return None;
      }
    }
    return Some(sum);
  }

  /** Between 64 and 8192 payments of at most 8 MiB, none to its own sender, all between existing accounts. */
  ghost predicate Suited(txs: Block, parent: State) {
    && 64 <= |txs| <= 8192 && TotalBytes(txs, |txs|) <= 0x80_0000 && Foldable(txs)
    && forall i | 0 <= i < |txs| :: IsAccount(parent, txs[i].sender) && IsAccount(parent, txs[i].payload.recipient)
  }

  ghost predicate IsAccount(s: State, a: Address) {
    Get(s, AccountKey(a)).Some? && Get(s, AccountKey(a)).value.AccountValue?
  }

  /** Fold execution of a block, or None when the ordinary executors must take it. */
  method Speculate(env: Env, txs: Block, parent: State, spawned: bool)
    returns (r: Option<Result<seq<Output>, ExecutionError>>)
    ensures Suited(txs, parent) ==> r.Some?
    ensures r.Some? && r.value.Ok? ==> Suited(txs, parent) && IsSerialResult(env, txs, parent, r.value.value)
    ensures r.Some? && r.value.Err? ==>
              !(SerialSucceeds(env, txs, parent) && spawned) && r.value.error != NativeUnavailable
  {
    hide SerialOutput;
    hide IsSerialResult;
    if || |txs| < MIN_TRANSACTIONS || |txs| > MAX_TRANSACTIONS
       || exists i | 0 <= i < |txs| :: txs[i].lane != Lane.Payments
    {
      return None;
    }
    var bytes := InputBytes(txs);
    if bytes.None? {
      return None;
    }
    if exists i | 0 <= i < |txs| :: !txs[i].payload.Payment? {
      ghost var i :| 0 <= i < |txs| && !txs[i].payload.Payment?;
      UndecodableFails(env, txs, parent, i);
      return Some(Err(TransactionValidation(UnsupportedPayload)));
    }
    if exists i | 0 <= i < |txs| :: txs[i].sender == txs[i].payload.recipient {
      return None;
    }
    var seeds := ReadSeeds(txs, parent, env);
    if seeds.None? {
      return None;
    }
    if seeds.value.Err? {
      return Some(Err(seeds.value.error));
    }
    var outputs := Run(env, txs, parent, seeds.value.value, SEGMENT_EVENTS, spawned);
    return Some(outputs);
  }

  lemma UndecodableFails(env: Env, txs: Block, s: State, i: nat)
    requires i < |txs| && txs[i].lane == Lane.Payments && !txs[i].payload.Payment?
    ensures !SerialSucceeds(env, txs, s)
  {
    hide SerialState;
    assert SerialOutput(env, txs, s, i).Err?;
  }
}
