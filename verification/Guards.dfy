/** Guarded balance translations and the event lists they summarize. */
module Guards {

  import opened Wrappers
  import opened Ledger

  /** A balance change that is admitted only from balances between two bounds. */
  datatype Guard = Guard(delta: int, low: int, high: int)

  const IDENTITY := Guard(0, 0, U64_MAX)

  predicate InI128(x: int) {
    I128_MIN <= x <= I128_MAX
  }

  predicate Accepts(g: Guard, balance: int) {
    g.low <= balance <= g.high
  }

  /** One guard after the other, in checked 128-bit arithmetic. */
  function Then(a: Guard, b: Guard): Result<Guard, ExecutionError> {
    if !InI128(a.delta + b.delta) || !InI128(b.low - a.delta) || !InI128(b.high - a.delta) then Err(Conflict)
    else
      var joined := Join(a, b);
      if joined.low > joined.high then Err(Conflict) else Ok(joined)
  }

  function Join(a: Guard, b: Guard): Guard {
    Guard(a.delta + b.delta, Max(a.low, b.low - a.delta), Min(a.high, b.high - a.delta))
  }

  const BATCH := 16384

  /** Bounds that hold of a guard composed of `n` event guards. */
  predicate Bounded(g: Guard, n: nat) {
    && 0 - n * U64_MAX <= g.delta <= n * U64_MAX
    && 0 <= g.low <= (n + 1) * U64_MAX
    && 0 - (n + 1) * U64_MAX <= g.high <= U64_MAX
  }

  predicate IsEmpty(g: Guard) {
    g.low > g.high
  }

  /** No balance passes both steps from `x`. */
  predicate Excludes(a: Guard, b: Guard, x: int) {
    !(Accepts(a, x) && Accepts(b, x + a.delta))
  }

  /** Within the batch limits no checked operation overflows, so failure means an empty range. */
  lemma NoOverflow(a: Guard, n: nat, b: Guard, m: nat)
    requires Bounded(a, n) && Bounded(b, m) && n + m <= BATCH
    ensures InI128(a.delta + b.delta) && InI128(b.low - a.delta) && InI128(b.high - a.delta)
    ensures Then(a, b) == if IsEmpty(Join(a, b)) then Err(Conflict) else Ok(Join(a, b))
    ensures Then(a, b).Ok? ==> Bounded(Then(a, b).value, n + m)
    ensures Then(a, b).Err? ==> forall x :: Excludes(a, b, x)
  {
    assert (n + m + 1) * U64_MAX == n * U64_MAX + m * U64_MAX + U64_MAX <= (BATCH + 1) * U64_MAX;
    assert 0 <= n * U64_MAX && 0 <= m * U64_MAX;
  }

  /** The composition admits exactly what both steps admit. */
  lemma ThenAccepts(a: Guard, b: Guard, x: int)
    requires Then(a, b).Ok?
    ensures Accepts(Then(a, b).value, x) <==> Accepts(a, x) && Accepts(b, x + a.delta)
  {
  }

  /** Grouping does not matter, empty results included. */
  lemma ThenIsAssociative(a: Guard, n: nat, b: Guard, m: nat, c: Guard, k: nat)
    requires Bounded(a, n) && Bounded(b, m) && Bounded(c, k) && n + m + k <= BATCH
    ensures (if Then(a, b).Ok? then Then(Then(a, b).value, c) else Then(a, b))
         == (if Then(b, c).Ok? then Then(a, Then(b, c).value) else Then(b, c))
  {
    hide Bounded;
    hide Then;
    hide Join;
    NoOverflow(a, n, b, m);
    NoOverflow(b, m, c, k);
    if Then(a, b).Ok? {
      NoOverflow(Then(a, b).value, n + m, c, k);
    }
    if Then(b, c).Ok? {
      NoOverflow(a, n, Then(b, c).value, m + k);
    }
    JoinIsAssociative(a, b, c);
  }

  lemma JoinIsAssociative(a: Guard, b: Guard, c: Guard)
    ensures Join(Join(a, b), c) == Join(a, Join(b, c))
    ensures IsEmpty(Join(a, b)) || IsEmpty(Join(b, c)) ==> IsEmpty(Join(a, Join(b, c)))
  {
  }

  // Event lists.

  datatype Event = Event(index: nat, debit: bool, guard: Guard)

  /** An event guard of the fold: bounded, and it keeps balances in 64 bits. */
  predicate IsEvent(e: Event) {
    && Bounded(e.guard, 1) && e.guard.low <= U64_MAX && 0 <= e.guard.high
    && 0 <= e.guard.low + e.guard.delta && e.guard.high + e.guard.delta <= U64_MAX
  }

  ghost predicate AreEvents(events: seq<Event>) {
    forall p | 0 <= p < |events| :: IsEvent(events[p])
  }

  function Net(events: seq<Event>): int {
    if events == [] then 0 else Net(events[..|events| - 1]) + events[|events| - 1].guard.delta
  }

  function Outgoing(events: seq<Event>): nat {
    if events == [] then 0
    else Outgoing(events[..|events| - 1]) + (if events[|events| - 1].debit then 1 else 0)
  }

  /** Every event in turn admits the balance it meets, starting from `x`. */
  predicate Walks(events: seq<Event>, x: int) {
    if events == [] then 0 <= x <= U64_MAX
    else
      var (before, last) := (events[..|events| - 1], events[|events| - 1]);
      Walks(before, x) && Accepts(last.guard, x + Net(before))
  }

  lemma {:induction false} WalkStaysInRange(events: seq<Event>, x: int)
    requires AreEvents(events) && Walks(events, x)
    ensures 0 <= x + Net(events) <= U64_MAX
  {
    if events != [] {
      WalkStaysInRange(events[..|events| - 1], x);
    }
  }

  lemma {:induction false} Concatenation(a: seq<Event>, b: seq<Event>)
    ensures Net(a + b) == Net(a) + Net(b) && Outgoing(a + b) == Outgoing(a) + Outgoing(b)
  {
    var n := |b| - 1;
    if b == [] {
      assert a + b == a;
    } else {
      assert (a + b)[..|a + b| - 1] == a + b[..n];
      Concatenation(a, b[..n]);
    }
  }

  lemma {:induction false} WalkSplits(a: seq<Event>, b: seq<Event>, x: int)
    requires AreEvents(a)
    ensures Walks(a + b, x) <==> Walks(a, x) && Walks(b, x + Net(a))
  {
    if b == [] {
      assert a + b == a;
      if Walks(a, x) {
        WalkStaysInRange(a, x);
      }
    } else {
      var n := |b| - 1;
      assert (a + b)[..|a + b| - 1] == a + b[..n];
      WalkSplits(a, b[..n], x);
      Concatenation(a, b[..n]);
    }
  }

  /** `g` summarizes the list: its total change, and exactly the balances that can walk it. */
  ghost predicate Summarizes(g: Guard, events: seq<Event>) {
    g.delta == Net(events) && Bounded(g, |events|) && forall x :: SameVerdict(g, events, x)
  }

  ghost predicate SameVerdict(g: Guard, events: seq<Event>, x: int) {
    Accepts(g, x) <==> Walks(events, x)
  }

  /** Composing the summaries of two stretches summarizes both; it fails only if no balance can walk them. */
  lemma JoinSummaries(a: Guard, left: seq<Event>, b: Guard, right: seq<Event>)
    requires AreEvents(left) && Summarizes(a, left) && Summarizes(b, right) && |left| + |right| <= BATCH
    ensures Then(a, b).Ok? ==> Summarizes(Then(a, b).value, left + right)
    ensures Then(a, b).Err? ==> forall x :: !Walks(left + right, x)
  {
    hide Bounded;
    hide Walks;
    hide Then;
    hide Net;
    hide Outgoing;
    hide Accepts;
    NoOverflow(a, |left|, b, |right|);
    Concatenation(left, right);
    forall x
      ensures Then(a, b).Ok? ==> SameVerdict(Then(a, b).value, left + right, x)
      ensures Then(a, b).Err? ==> !Walks(left + right, x)
    {
      assert SameVerdict(a, left, x) && SameVerdict(b, right, x + a.delta);
      WalkSplits(left, right, x);
      if Then(a, b).Ok? {
        ThenAccepts(a, b, x);
      } else {
        assert Excludes(a, b, x);
      }
    }
  }

  /** The same for one event guard. */
  lemma AddEvent(a: Guard, events: seq<Event>, e: Event)
    requires Summarizes(a, events) && IsEvent(e) && |events| < BATCH
    ensures Then(a, e.guard).Ok? ==> Summarizes(Then(a, e.guard).value, events + [e])
    ensures Then(a, e.guard).Err? ==> forall x :: !Walks(events + [e], x)
  {
    hide Bounded;
    hide Walks;
    hide Then;
    hide Net;
    hide Accepts;
    assert Bounded(e.guard, 1);
    NoOverflow(a, |events|, e.guard, 1);
    NetOfOneMore(events, e);
    forall x
      ensures Then(a, e.guard).Ok? ==> SameVerdict(Then(a, e.guard).value, events + [e], x)
      ensures Then(a, e.guard).Err? ==> !Walks(events + [e], x)
    {
      assert SameVerdict(a, events, x);
      WalkOfOneMore(events, e, x);
      if Then(a, e.guard).Ok? {
        ThenAccepts(a, e.guard, x);
      } else {
        assert Excludes(a, e.guard, x);
      }
    }
  }

  lemma NetOfOneMore(events: seq<Event>, e: Event)
    ensures Net(events + [e]) == Net(events) + e.guard.delta
  {
    assert (events + [e])[..|events|] == events;
  }

  lemma WalkOfOneMore(events: seq<Event>, e: Event, x: int)
    ensures Walks(events + [e], x) <==> Walks(events, x) && Accepts(e.guard, x + Net(events))
  {
    assert (events + [e])[..|events|] == events;
  }

  lemma IdentitySummarizesNothing()
    ensures Summarizes(IDENTITY, [])
  {
  }
}
