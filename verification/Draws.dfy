/** Rejection sampling, weighted draws without replacement, and committee rotation. */
module Draws {

  import opened Wrappers
  import opened Weights
  import opened Committee
  import opened Certificates

  type U128 = x: int | 0 <= x <= U128_MAX

  const RANGE: int := U128_MAX + 1
  const ATTEMPTS := 256

  /** Hash output per seat and attempt. */
  type Entropy = (nat, nat) -> U128

  /** Values below this are rejected: the wrapped negation of the total, modulo the total. */
  function Threshold(total: U128): nat
    requires 0 < total
  {
    (RANGE - total) % total
  }

  // Fairness of the accepted range.

  lemma ModStep(a: int, m: int)
    requires 0 < m
    ensures (a - m) % m == a % m
  {
    assert a == m * (a / m) + a % m;
    DivModUnique(a - m, m, a / m - 1, a % m);
  }

  lemma DivModUnique(a: int, m: int, q: int, r: int)
    requires 0 < m && a == m * q + r && 0 <= r < m
    ensures a / m == q && a % m == r
  {
    var (q', r') := (a / m, a % m);
    assert m * (q - q') == r' - r;
    SmallMultiple(m, q - q');
  }

  lemma Distributes(m: int, p: int, q: int)
    ensures m * p - m * q == m * (p - q)
  {
  }

  lemma SmallMultiple(m: int, k: int)
    requires 0 < m && -m < m * k < m
    ensures k == 0
  {
  }

  /** The rejected prefix has size two to the 128 modulo the total, which is less than half of all values. */
  lemma RejectsLessThanHalf(total: U128)
    requires 0 < total
    ensures Threshold(total) == RANGE % total && 2 * Threshold(total) < RANGE
    ensures (RANGE - Threshold(total)) % total == 0
  {
    ModStep(RANGE, total);
    var (q, r) := (RANGE / total, RANGE % total);
    assert RANGE == total * q + r;
    DivModUnique(RANGE - r, total, q, 0);
    if 2 * total > RANGE {
      DivModUnique(RANGE - total, total, 0, RANGE - total);
    }
  }

  ghost predicate Yields(total: int, ticket: int, value: int)
    requires 0 < total
  {
    value % total == ticket
  }

  /** Values of a stretch that give this ticket. */
  ghost function Giving(total: int, ticket: int, low: int, high: int): set<int>
    requires 0 < total
  {
    set v | low <= v < high && Yields(total, ticket, v)
  }

  lemma CloseResidues(total: int, u: int, v: int)
    requires 0 < total && -total < u - v < total && u % total == v % total
    ensures u == v
  {
    var (p, q, t) := (u / total, v / total, u % total);
    assert u == total * p + t && v == total * q + t;
    Distributes(total, p, q);
    SmallMultiple(total, p - q);
  }

  lemma SomeInEachBlock(total: int, ticket: int, low: int) returns (v: int)
    requires 0 <= ticket < total
    ensures low <= v < low + total && Yields(total, ticket, v)
  {
    var (q, r) := (low / total, low % total);
    assert low == total * q + r;
    if ticket >= r {
      v := total * q + ticket;
      DivModUnique(v, total, q, ticket);
    } else {
      v := total * (q + 1) + ticket;
      DivModUnique(v, total, q + 1, ticket);
      assert total * (q + 1) == total * q + total;
    }
  }

  /** One more block adds exactly one value that gives the ticket. */
  lemma OneMoreBlock(total: int, ticket: int, low: int, mid: int)
    requires 0 <= ticket < total && low <= mid
    ensures |Giving(total, ticket, low, mid + total)| == |Giving(total, ticket, low, mid)| + 1
  {
    var v := SomeInEachBlock(total, ticket, mid);
    forall u | mid <= u < mid + total && Yields(total, ticket, u)
      ensures u == v
    {
      CloseResidues(total, u, v);
    }
    hide Yields;
    assert Giving(total, ticket, low, mid + total) == Giving(total, ticket, low, mid) + {v};
  }

  lemma {:induction false} EqualShare(total: int, ticket: int, low: int, blocks: nat)
    requires 0 <= ticket < total
    ensures |Giving(total, ticket, low, low + blocks * total)| == blocks
  {
    hide Giving;
    if blocks == 0 {
      NothingGiven(total, ticket, low);
    } else {
      var n := blocks - 1;
      EqualShare(total, ticket, low, n);
      assert 0 <= n * total && low + n * total + total == low + blocks * total;
      OneMoreBlock(total, ticket, low, low + n * total);
    }
  }

  lemma NothingGiven(total: int, ticket: int, low: int)
    requires 0 < total
    ensures Giving(total, ticket, low, low) == {}
  {
  }

  /** How many accepted values give each ticket. */
  ghost function Share(total: U128): nat
    requires 0 < total
  {
    RejectsLessThanHalf(total);
    (RANGE - Threshold(total)) / total
  }

  /** Every ticket below the total comes from the same number of accepted values. */
  lemma TicketsAreFair(total: U128, ticket: nat)
    requires ticket < total
    ensures |Giving(total, ticket, Threshold(total), RANGE)| == Share(total)
  {
    hide Giving;
    RejectsLessThanHalf(total);
    var low := Threshold(total);
    var blocks := (RANGE - low) / total;
    assert RANGE - low == total * blocks + (RANGE - low) % total;
    assert low + blocks * total == RANGE;
    EqualShare(total, ticket, low, blocks);
  }

  /** Values of a stretch whose ticket lies from `first` below `last`. */
  ghost function GivingBetween(total: int, first: int, last: int, low: int, high: int): set<int>
    requires 0 < total
  {
    set v | low <= v < high && GivesBetween(total, first, last, v)
  }

  ghost predicate GivesBetween(total: int, first: int, last: int, value: int)
    requires 0 < total
  {
    first <= value % total < last
  }

  lemma {:induction false} SharesAdd(total: U128, first: nat, last: nat)
    requires first <= last <= total && 0 < total
    ensures |GivingBetween(total, first, last, Threshold(total), RANGE)| == (last - first) * Share(total)
    decreases last
  {
    var (low, share) := (Threshold(total), Share(total));
    hide Threshold;
    hide Share;
    if first == last {
      NoTicketBetween(total, first, low);
    } else {
      SharesAdd(total, first, last - 1);
      TicketsAreFair(total, last - 1);
      OneMoreTicket(total, first, last, low);
      assert (last - first) * share == (last - 1 - first) * share + share;
    }
  }

  lemma NoTicketBetween(total: int, first: int, low: int)
    requires 0 < total
    ensures GivingBetween(total, first, first, low, RANGE) == {}
  {
  }

  lemma OneMoreTicket(total: int, first: int, last: int, low: int)
    requires 0 < total && first < last
    ensures |GivingBetween(total, first, last, low, RANGE)|
         == |GivingBetween(total, first, last - 1, low, RANGE)| + |Giving(total, last - 1, low, RANGE)|
  {
    var (shorter, one) := (GivingBetween(total, first, last - 1, low, RANGE), Giving(total, last - 1, low, RANGE));
    forall v | low <= v < RANGE
      ensures GivesBetween(total, first, last, v) <==>
              GivesBetween(total, first, last - 1, v) || Yields(total, last - 1, v)
      ensures !(GivesBetween(total, first, last - 1, v) && Yields(total, last - 1, v))
    {
    }
    hide GivesBetween;
    hide Yields;
    assert GivingBetween(total, first, last, low, RANGE) == shorter + one;
    assert shorter !! one;
  }

  // One ticket.

  /** The first accepted value from this attempt on, reduced; every attempt rejected is an error. */
  function TicketFrom(entropy: Entropy, seat: nat, total: U128, attempt: nat): Result<nat, ConsensusError>
    requires 0 < total
    decreases ATTEMPTS - attempt
  {
    if attempt >= ATTEMPTS then Err(InvalidProof)
    else if entropy(seat, attempt) >= Threshold(total) then Ok(entropy(seat, attempt) % total)
    else TicketFrom(entropy, seat, total, attempt + 1)
  }

  /** Attempt `k` is the first whose value is not among the lowest 2^128 modulo `total`. */
  ghost predicate FirstAccepted(entropy: Entropy, seat: nat, total: U128, k: nat)
    requires 0 < total
  {
    entropy(seat, k) >= RANGE % total && forall j: nat | j < k :: entropy(seat, j) < RANGE % total
  }

  /** The ticket is the value of the first accepted of 256 attempts, modulo the total. */
  ghost predicate IsTicket(entropy: Entropy, seat: nat, total: U128, ticket: int)
    requires 0 < total
  {
    exists k: nat :: k < 256 && FirstAccepted(entropy, seat, total, k) && ticket == entropy(seat, k) % total
  }

  lemma {:induction false} TicketAt(entropy: Entropy, seat: nat, total: U128, i: nat, k: nat)
    requires 0 < total && i <= k < ATTEMPTS && FirstAccepted(entropy, seat, total, k)
    ensures TicketFrom(entropy, seat, total, i) == Ok(entropy(seat, k) % total)
    decreases k - i
  {
    RejectsLessThanHalf(total);
    hide Threshold;
    if i < k {
      TicketAt(entropy, seat, total, i + 1, k);
      assert entropy(seat, i) < RANGE % total;
    }
  }

  /** A draw yields a ticket exactly when it is one, and fails exactly when all 256 values are rejected. */
  lemma TicketMeaning(entropy: Entropy, seat: nat, total: U128)
    requires 0 < total
    ensures forall t: nat :: TicketFrom(entropy, seat, total, 0) == Ok(t) <==> IsTicket(entropy, seat, total, t)
    ensures TicketFrom(entropy, seat, total, 0).Err? <==> forall a: nat | a < 256 :: entropy(seat, a) < RANGE % total
  {
    RejectsLessThanHalf(total);
    TicketErrors(entropy, seat, total, 0);
    hide TicketFrom;
    hide Threshold;
    if k: nat :| k < ATTEMPTS && entropy(seat, k) >= RANGE % total {
      var first := 0;
      while entropy(seat, first) < RANGE % total
        invariant first <= k && forall j: nat | j < first :: entropy(seat, j) < RANGE % total
        decreases k - first
      {
        first := first + 1;
      }
      TicketAt(entropy, seat, total, 0, first);
      forall t: nat | IsTicket(entropy, seat, total, t)
        ensures t == entropy(seat, first) % total
      {
        var k: nat :| k < 256 && FirstAccepted(entropy, seat, total, k) && t == entropy(seat, k) % total;
        assert k == first;
      }
    }
  }

  method DrawTicket(entropy: Entropy, seat: nat, total: U128) returns (r: Result<nat, ConsensusError>)
    ensures r == if total == 0 then Err(InvalidCommittee) else TicketFrom(entropy, seat, total, 0)
    ensures r.Ok? ==> r.value < total && IsTicket(entropy, seat, total, r.value)
    ensures r == Err(InvalidProof) <==> 0 < total && forall a: nat | a < 256 :: entropy(seat, a) < RANGE % total
  {
    if total == 0 {
      return Err(InvalidCommittee);
    }
    TicketMeaning(entropy, seat, total);
    TicketErrors(entropy, seat, total, 0);
    var threshold := Threshold(total);
    for attempt := 0 to ATTEMPTS
      invariant TicketFrom(entropy, seat, total, 0) == TicketFrom(entropy, seat, total, attempt)
    {
      var value := entropy(seat, attempt);
      if value >= threshold {
        return Ok(value % total);
      }
    }
    return Err(InvalidProof);
  }

  // One seat.

  /** The ticket falls into member `i`'s stretch of the line. */
  ghost predicate Owns(pool: seq<Member>, i: nat, ticket: int) {
    i < |pool| && Upper(pool, i) <= ticket < Upper(pool, i + 1)
  }

  lemma OwnerIsUnique(pool: seq<Member>, i: nat, j: nat, ticket: int)
    requires Owns(pool, i, ticket) && Owns(pool, j, ticket)
    ensures i == j
  {
    if i < j {
      UpperGrows(pool, i + 1, j);
    } else if j < i {
      UpperGrows(pool, j + 1, i);
    }
  }

  lemma {:induction false} StretchSize(low: int, n: nat, p: int -> bool)
    requires forall v | low <= v < low + n :: p(v)
    ensures |set v | low <= v < low + n && p(v)| == n
  {
    if n == 0 {
      assert (set v | low <= v < low + n && p(v)) == {};
    } else {
      StretchSize(low, n - 1, p);
      assert (set v | low <= v < low + n && p(v)) == (set v | low <= v < low + (n - 1) && p(v)) + {low + n - 1};
    }
  }

  /** Exactly a member's power in tickets selects that member. */
  lemma TicketsFollowPower(pool: seq<Member>, i: nat)
    requires i < |pool|
    ensures |set t | 0 <= t < Sum(pool) && Owns(pool, i, t)| == pool[i].power
  {
    var low := Upper(pool, i);
    UpperGrows(pool, i + 1, |pool|);
    var owned: int -> bool := t => Owns(pool, i, t);
    StretchSize(low, pool[i].power, owned);
    assert (set t | 0 <= t < Sum(pool) && Owns(pool, i, t)) == (set t | low <= t < low + pool[i].power && owned(t));
  }

  /**
   * The draw itself is fair: the accepted 128-bit values that seat member `i` number
   * its power times the share of one ticket.
   */
  lemma ValuesFollowPower(pool: seq<Member>, i: nat)
    requires i < |pool| && 0 < Sum(pool) <= U128_MAX
    ensures var total := Sum(pool);
            |set v | Threshold(total) <= v < RANGE && Owns(pool, i, v % total)| == pool[i].power * Share(total)
  {
    var total: U128 := Sum(pool);
    var (low, first, last) := (Threshold(total), Upper(pool, i), Upper(pool, i + 1));
    assert last - first == pool[i].power;
    UpperGrows(pool, i, i + 1);
    UpperGrows(pool, i + 1, |pool|);
    SharesAdd(total, first, last);
    hide Upper;
    hide Threshold;
    hide Share;
    assert forall v :: Owns(pool, i, v % total) <==> GivesBetween(total, first, last, v);
    hide Owns;
    hide GivesBetween;
    assert (set v | low <= v < RANGE && Owns(pool, i, v % total)) == GivingBetween(total, first, last, low, RANGE);
  }

  method Position(pool: seq<Member>, ticket: nat) returns (index: nat)
    requires ticket < Sum(pool)
    ensures Owns(pool, index, ticket)
  {
    index := 0;
    var upper := pool[0].power;
    while upper <= ticket
      invariant index < |pool| && upper == Upper(pool, index + 1) && Upper(pool, index) <= ticket
      decreases |pool| - index
    {
      index := index + 1;
      upper := upper + pool[index].power;
    }
  }

  // Drawing without replacement.

  function Removed(pool: seq<Member>, i: nat): seq<Member>
    requires i < |pool|
  {
    pool[..i] + pool[i + 1..]
  }

  ghost predicate Drawable(pool: seq<Member>) {
    && DistinctIds(pool) && Sum(pool) <= U128_MAX
    && forall i | 0 <= i < |pool| :: 0 < pool[i].power
  }

  /** Seat `seat` went to the owner of its ticket among the members left. */
  ghost predicate IsSeat(entropy: Entropy, seat: nat, pool: seq<Member>, member: Member, rest: seq<Member>) {
    && 0 < Sum(pool) <= U128_MAX
    && var ticket := TicketFrom(entropy, seat, Sum(pool), 0);
       ticket.Ok? && exists i: nat :: Owns(pool, i, ticket.value) && member == pool[i] && rest == Removed(pool, i)
  }

  /** The same randomness, except that the first attempt for `seat` yields `v`. */
  function With(entropy: Entropy, seat: nat, v: U128): Entropy {
    (s: nat, a: nat) => if s == seat && a == 0 then v else entropy(s, a)
  }

  /** When the first attempt for `seat` yields `v`, the seat goes to member `i`. */
  ghost predicate SeatedBy(entropy: Entropy, seat: nat, pool: seq<Member>, i: nat, v: int)
    requires i < |pool|
  {
    0 <= v < RANGE && exists rest :: IsSeat(With(entropy, seat, v), seat, pool, pool[i], rest)
  }

  lemma AcceptedValueSeats(entropy: Entropy, seat: nat, pool: seq<Member>, i: nat, v: int)
    requires i < |pool| && DistinctIds(pool) && 0 < Sum(pool) <= U128_MAX && Threshold(Sum(pool)) <= v < RANGE
    ensures SeatedBy(entropy, seat, pool, i, v) <==> Owns(pool, i, v % Sum(pool))
  {
    var (total: U128, e) := (Sum(pool), With(entropy, seat, v));
    assert TicketFrom(e, seat, total, 0) == Ok(v % total);
    hide Sum;
    hide TicketFrom;
    hide Owns;
    if Owns(pool, i, v % total) {
      assert IsSeat(e, seat, pool, pool[i], Removed(pool, i));
    }
  }

  /**
   * Seats follow power: of the values that the first attempt accepts, exactly `power` times the share of
   * one ticket give the seat to member `i`.
   */
  lemma SeatFollowsPower(entropy: Entropy, seat: nat, pool: seq<Member>, i: nat)
    requires i < |pool| && DistinctIds(pool) && 0 < Sum(pool) <= U128_MAX
    ensures var total := Sum(pool);
            |set v | Threshold(total) <= v < RANGE && SeatedBy(entropy, seat, pool, i, v)|
            == pool[i].power * Share(total)
  {
    var total: U128 := Sum(pool);
    ValuesFollowPower(pool, i);
    forall v | Threshold(total) <= v < RANGE
      ensures SeatedBy(entropy, seat, pool, i, v) <==> Owns(pool, i, v % total)
    {
      AcceptedValueSeats(entropy, seat, pool, i, v);
    }
    hide SeatedBy;
    hide Owns;
    assert (set v | Threshold(total) <= v < RANGE && SeatedBy(entropy, seat, pool, i, v))
        == (set v | Threshold(total) <= v < RANGE && Owns(pool, i, v % total));
  }

  /** In a whole draw, that is what decides who holds a seat. */
  lemma DrawnSeat(entropy: Entropy, pools: seq<seq<Member>>, selected: seq<Member>, s: nat, i: nat, v: U128)
    requires IsDraw(With(entropy, s, v), pools, selected) && s < |selected|
    requires i < |pools[s]| && DistinctIds(pools[s])
    ensures selected[s] == pools[s][i] <==> SeatedBy(entropy, s, pools[s], i, v)
  {
    var (e, pool) := (With(entropy, s, v), pools[s]);
    assert IsSeat(e, s, pool, selected[s], pools[s + 1]);
    if SeatedBy(entropy, s, pool, i, v) {
      var rest :| IsSeat(e, s, pool, pool[i], rest);
      OneHolder(e, s, pool, selected[s], pools[s + 1], pool[i], rest);
    }
  }

  lemma OneHolder(entropy: Entropy, seat: nat, pool: seq<Member>, a: Member, restA: seq<Member>,
                  b: Member, restB: seq<Member>)
    requires IsSeat(entropy, seat, pool, a, restA) && IsSeat(entropy, seat, pool, b, restB)
    ensures a == b && restA == restB
  {
    hide TicketFrom;
    hide Sum;
    var ticket := TicketFrom(entropy, seat, Sum(pool), 0).value;
    var i: nat :| Owns(pool, i, ticket) && a == pool[i] && restA == Removed(pool, i);
    var j: nat :| Owns(pool, j, ticket) && b == pool[j] && restB == Removed(pool, j);
    OwnerIsUnique(pool, i, j, ticket);
  }

  /** The whole draw: each seat in turn, from what earlier seats left. */
  ghost predicate IsDraw(entropy: Entropy, pools: seq<seq<Member>>, selected: seq<Member>) {
    |pools| == |selected| + 1
    && forall s | 0 <= s < |selected| :: IsSeat(entropy, s, pools[s], selected[s], pools[s + 1])
  }

  /** Some seat had all its attempts rejected. */
  ghost predicate Exhausted(entropy: Entropy, pool: seq<Member>, count: nat) {
    exists pools, selected, total: U128 ::
      && IsDraw(entropy, pools, selected) && pools[0] == pool && |selected| < count
      && 0 < total == Sum(pools[|selected|]) && TicketFrom(entropy, |selected|, total, 0).Err?
  }

  lemma {:induction false} UpperAfterRemoval(pool: seq<Member>, i: nat, j: nat)
    requires i < |pool| && j < |pool|
    ensures Upper(Removed(pool, i), j) == if j <= i then Upper(pool, j) else Upper(pool, j + 1) - pool[i].power
  {
    if j > 0 {
      UpperAfterRemoval(pool, i, j - 1);
    }
  }

  lemma RemovalStaysDrawable(pool: seq<Member>, i: nat)
    requires Drawable(pool) && i < |pool|
    ensures Drawable(Removed(pool, i)) && pool[i] !in Removed(pool, i) && Ids([pool[i]]) !! Ids(Removed(pool, i))
  {
    hide Upper;
    hide DistinctIds;
    UpperAfterRemoval(pool, i, |pool| - 1);
    UpperGrows(pool, |pool| - 1, |pool|);
    OthersRemain(pool, i);
    var rest := Removed(pool, i);
    assert forall k | 0 <= k < |rest| :: rest[k] in pool;
  }

  lemma OthersRemain(pool: seq<Member>, i: nat)
    requires DistinctIds(pool) && i < |pool|
    ensures DistinctIds(Removed(pool, i))
    ensures forall m | m in Removed(pool, i) :: m in pool && m.id != pool[i].id
  {
    var rest := Removed(pool, i);
    assert forall k | 0 <= k < |rest| :: rest[k] == pool[if k < i then k else k + 1];
  }

  lemma NothingDrawn(entropy: Entropy, members: seq<Member>)
    ensures IsDraw(entropy, [members], [])
  {
  }

  lemma DrawableMeaning(pool: seq<Member>)
    requires Drawable(pool)
    ensures Sum(pool) <= U128_MAX
  {
  }

  lemma PoolHasPower(pool: seq<Member>)
    requires Drawable(pool) && pool != []
    ensures 0 < Sum(pool) <= U128_MAX
  {
    UpperGrows(pool, 1, |pool|);
  }

  lemma RanOut(entropy: Entropy, pools: seq<seq<Member>>, selected: seq<Member>, total: U128, count: nat)
    requires IsDraw(entropy, pools, selected) && |selected| < count && 0 < total == Sum(pools[|selected|])
    requires TicketFrom(entropy, |selected|, total, 0).Err?
    ensures Exhausted(entropy, pools[0], count) && TicketFrom(entropy, |selected|, total, 0).error == InvalidProof
  {
    TicketErrors(entropy, |selected|, total, 0);
  }

  lemma {:induction false} TicketErrors(entropy: Entropy, seat: nat, total: U128, attempt: nat)
    requires 0 < total
    ensures var r := TicketFrom(entropy, seat, total, attempt);
            && (r.Err? ==> r.error == InvalidProof)
            && (r.Err? <==> forall a: nat | attempt <= a < ATTEMPTS :: entropy(seat, a) < Threshold(total))
    decreases ATTEMPTS - attempt
  {
    if attempt < ATTEMPTS && entropy(seat, attempt) < Threshold(total) {
      TicketErrors(entropy, seat, total, attempt + 1);
    }
  }

  lemma SeatTaken(entropy: Entropy, pools: seq<seq<Member>>, selected: seq<Member>, i: nat, ticket: nat)
    requires IsDraw(entropy, pools, selected)
    requires var pool := pools[|selected|];
             && 0 < Sum(pool) <= U128_MAX && TicketFrom(entropy, |selected|, Sum(pool), 0) == Ok(ticket)
             && Owns(pool, i, ticket)
    ensures var pool := pools[|selected|]; IsDraw(entropy, pools + [Removed(pool, i)], selected + [pool[i]])
  {
    hide TicketFrom;
    hide Sum;
    var (pool, n) := (pools[|selected|], |selected|);
    assert IsSeat(entropy, n, pool, pool[i], Removed(pool, i));
    hide IsSeat;
    var (pools', selected') := (pools + [Removed(pool, i)], selected + [pool[i]]);
    forall s | 0 <= s < |selected'|
      ensures IsSeat(entropy, s, pools'[s], selected'[s], pools'[s + 1])
    {
      if s < n {
        assert IsSeat(entropy, s, pools[s], selected[s], pools[s + 1]);
      }
    }
  }

  method Draw(entropy: Entropy, members: seq<Member>, count: nat)
    returns (r: Result<seq<Member>, ConsensusError>, ghost pools: seq<seq<Member>>)
    requires Drawable(members)
    ensures count > |members| ==> r == Err(InvalidCommittee)
    ensures r.Ok? ==> |r.value| == count && IsDraw(entropy, pools, r.value) && pools[0] == members
    ensures count <= |members| && r.Err? ==> r.error == InvalidProof && Exhausted(entropy, members, count)
  {
    hide TicketFrom;
    hide Drawable;
    hide IsDraw;
    hide Sum;
    pools := [members];
    NothingDrawn(entropy, members);
    DrawableMeaning(members);
    if count > |members| {
      return Err(InvalidCommittee), pools;
    }
    var (pool, selected) := (members, []);
    for seat := 0 to count
      invariant |selected| == seat && |pool| == |members| - seat && Drawable(pool)
      invariant |pools| == seat + 1 && IsDraw(entropy, pools, selected) && pools[0] == members && pools[seat] == pool
    {
      PoolHasPower(pool);
      var total: U128 := Sum(pool);
      var ticket := DrawTicket(entropy, seat, total);
      if ticket.Err? {
        RanOut(entropy, pools, selected, total, count);
        return Err(ticket.error), pools;
      }
      var index := Position(pool, ticket.value);
      RemovalStaysDrawable(pool, index);
      SeatTaken(entropy, pools, selected, index, ticket.value);
      pools := pools + [Removed(pool, index)];
      selected := selected + [pool[index]];
      pool := Removed(pool, index);
    }
    return Ok(selected), pools;
  }

  lemma MoveKeepsDistinct(taken: seq<Member>, pool: seq<Member>, i: nat)
    requires DistinctIds(taken + pool) && i < |pool|
    ensures DistinctIds(taken + [pool[i]] + Removed(pool, i))
    ensures forall m | m in taken + [pool[i]] + Removed(pool, i) :: m in taken + pool
  {
    var (was, now, n) := (taken + pool, taken + [pool[i]] + Removed(pool, i), |taken|);
    forall k | 0 <= k < |now|
      ensures now[k] == was[Moved(n, i, k)]
    {
      if k > n {
        assert now[k] == Removed(pool, i)[k - n - 1];
      }
    }
  }

  /** Old position of what stands at `k` after member `i` of the pool moved behind `n` taken ones. */
  function Moved(n: nat, i: nat, k: nat): nat {
    if k < n then k else if k == n then n + i else if k - n - 1 < i then k - 1 else k
  }

  /** Selected members and those left are, together, always the original pool without repetition. */
  lemma {:induction false} DrawConserves(entropy: Entropy, pools: seq<seq<Member>>, selected: seq<Member>, s: nat)
    requires IsDraw(entropy, pools, selected) && Drawable(pools[0]) && s <= |selected|
    ensures DistinctIds(selected[..s] + pools[s]) && |selected[..s] + pools[s]| == |pools[0]|
    ensures forall m | m in selected[..s] + pools[s] :: m in pools[0]
  {
    hide TicketFrom;
    if s == 0 {
      assert selected[..0] + pools[0] == pools[0];
    } else {
      DrawConserves(entropy, pools, selected, s - 1);
      var (pool, taken) := (pools[s - 1], selected[..s - 1]);
      assert IsSeat(entropy, s - 1, pool, selected[s - 1], pools[s]);
      var i: nat :| i < |pool| && selected[s - 1] == pool[i] && pools[s] == Removed(pool, i);
      MoveKeepsDistinct(taken, pool, i);
      assert selected[..s] == taken + [pool[i]];
    }
  }

  // Committees.

  datatype Role = CommitteeRole | ProducerRole

  datatype Seats = Seats(height: nat, members: seq<Member>)

  /** A verified batch: its role and height, the eligible members and the batch randomness. */
  datatype Sampler = Sampler(role: Role, height: nat, members: seq<Member>, entropy: Entropy) {

    ghost predicate Valid() {
      0 < |members| && Drawable(members)
    }
  }

  /** `members` holds distinct eligible members, each with its verified weight. */
  ghost predicate Eligible(sampler: Sampler, members: seq<Member>) {
    DistinctIds(members) && forall m | m in members :: m in sampler.members
  }

  method Select(sampler: Sampler, size: nat) returns (r: Result<Seats, ConsensusError>, ghost pools: seq<seq<Member>>)
    requires sampler.Valid()
    ensures r.Ok? ==>
              && sampler.role == CommitteeRole && 0 < size <= |sampler.members| && r.value.height == sampler.height
              && |r.value.members| == size && Eligible(sampler, r.value.members)
              && IsDraw(sampler.entropy, pools, r.value.members) && pools[0] == sampler.members
    ensures r.Err? ==>
              if sampler.role == CommitteeRole && 0 < size <= |sampler.members| then
                r.error == InvalidProof && Exhausted(sampler.entropy, sampler.members, size)
              else r.error == InvalidCommittee
  {
    hide IsDraw;
    hide Exhausted;
    pools := [];
    if sampler.role != CommitteeRole || size == 0 || size > |sampler.members| {
      return Err(InvalidCommittee), pools;
    }
    var drawn;
    drawn, pools := Draw(sampler.entropy, sampler.members, size);
    if drawn.Err? {
      return Err(drawn.error), pools;
    }
    DrawnAreDistinct(sampler.entropy, pools, drawn.value);
    return Ok(Seats(sampler.height, drawn.value)), pools;
  }

  /** A draw yields distinct members of its pool. */
  lemma DrawnAreDistinct(entropy: Entropy, pools: seq<seq<Member>>, selected: seq<Member>)
    requires IsDraw(entropy, pools, selected) && Drawable(pools[0])
    ensures DistinctIds(selected) && forall m | m in selected :: m in pools[0]
  {
    DrawConserves(entropy, pools, selected, |selected|);
    PrefixDistinct(selected, pools[|selected|]);
  }

  lemma PrefixDistinct(a: seq<Member>, b: seq<Member>)
    requires DistinctIds(a[..|a|] + b)
    ensures DistinctIds(a) && forall m | m in a :: m in a[..|a|] + b
  {
    assert a[..|a|] == a;
    assert forall i | 0 <= i < |a| :: (a + b)[i] == a[i];
  }

  /** The eligible member with this identity, if any. */
  function Lookup(members: seq<Member>, id: ValidatorId): (r: Option<Member>)
    ensures r.Some? ==> r.value in members && r.value.id == id
    ensures r.None? ==> forall m | m in members :: m.id != id
  {
    if members == [] then None
    else if members[|members| - 1].id == id then Some(members[|members| - 1])
    else Lookup(members[..|members| - 1], id)
  }

  /** The seats still eligible, in their order, with their verified weights. */
  function Kept(members: seq<Member>, seats: seq<Member>): (r: seq<Member>)
    ensures |r| <= |seats|
  {
    if seats == [] then []
    else
      var before := Kept(members, seats[..|seats| - 1]);
      var found := Lookup(members, seats[|seats| - 1].id);
      if found.Some? then before + [found.value] else before
  }

  /** The eligible members outside `kept`, in roster order. */
  function Remaining(members: seq<Member>, kept: seq<Member>): seq<Member> {
    if members == [] then []
    else
      var (before, m) := (Remaining(members[..|members| - 1], kept), members[|members| - 1]);
      if Lookup(kept, m.id).Some? then before else before + [m]
  }

  lemma {:induction false} KeptIsEligible(members: seq<Member>, seats: seq<Member>)
    requires DistinctIds(seats)
    ensures DistinctIds(Kept(members, seats))
    ensures Ids(Kept(members, seats)) == Ids(seats) * Ids(members)
    ensures forall m | m in Kept(members, seats) :: m in members
  {
    if seats != [] {
      var n := |seats| - 1;
      var (before, seat) := (seats[..n], seats[n]);
      KeptIsEligible(members, before);
      assert seats == before + [seat];
      IdsOfOneMore(before, seat);
      NewIdentity(before, seat);
      var found := Lookup(members, seat.id);
      if found.Some? {
        IdsOfOneMore(Kept(members, before), found.value);
        MemberId(members, found.value);
      } else {
        NotAnIdentity(members, seat.id);
      }
    }
  }

  /** Whoever comes earlier in `a` comes earlier in `b`. */
  ghost predicate SameOrder(a: seq<Member>, b: seq<Member>) {
    forall p, q, i, j | 0 <= p < q < |a| && 0 <= i < |b| && 0 <= j < |b| && b[i].id == a[p].id && b[j].id == a[q].id ::
      i < j
  }

  lemma OrderGrows(a: seq<Member>, b: seq<Member>, x: Member, m: Member)
    requires SameOrder(a, b) && DistinctIds(b + [m]) && Ids(a) <= Ids(b) && x.id == m.id
    ensures SameOrder(a, b + [m]) && SameOrder(a + [x], b + [m])
  {
    var (a', b') := (a + [x], b + [m]);
    NewIdentity(b, m);
    forall p, q, i, j | 0 <= p < q < |a'| && 0 <= i < |b'| && 0 <= j < |b'|
                        && b'[i].id == a'[p].id && b'[j].id == a'[q].id
      ensures i < j
    {
      assert a'[p].id in Ids(a);
      if q < |a| {
        assert a'[q].id in Ids(a);
      }
    }
  }

  /** Retained seats keep their order. */
  lemma {:induction false} KeptInOrder(members: seq<Member>, seats: seq<Member>)
    requires DistinctIds(seats)
    ensures SameOrder(Kept(members, seats), seats)
  {
    if seats != [] {
      var n := |seats| - 1;
      var (before, seat) := (seats[..n], seats[n]);
      KeptInOrder(members, before);
      KeptIsEligible(members, before);
      assert seats == before + [seat];
      hide SameOrder;
      OrderGrows(Kept(members, before), before, seat, seat);
      var found := Lookup(members, seat.id);
      if found.Some? {
        OrderGrows(Kept(members, before), before, found.value, seat);
      }
    }
  }

  /** The pool for the other seats is in roster order. */
  lemma {:induction false} RemainingInOrder(members: seq<Member>, kept: seq<Member>)
    requires Drawable(members)
    ensures SameOrder(Remaining(members, kept), members)
  {
    if members != [] {
      var n := |members| - 1;
      var (before, m) := (members[..n], members[n]);
      assert members == before + [m];
      SumOfOneMore(before, m);
      hide Sum;
      assert Drawable(before);
      RemainingInOrder(before, kept);
      RemainingIsDrawable(before, kept);
      hide SameOrder;
      OrderGrows(Remaining(before, kept), before, m, m);
    }
  }

  lemma NewIdentity(members: seq<Member>, m: Member)
    requires DistinctIds(members + [m])
    ensures m.id !in Ids(members)
  {
    var more := members + [m];
    assert forall i | 0 <= i < |members| :: more[i] == members[i] && more[|members|] == m;
  }

  lemma NotAnIdentity(members: seq<Member>, id: ValidatorId)
    requires forall m | m in members :: m.id != id
    ensures id !in Ids(members)
  {
    assert forall i | 0 <= i < |members| :: members[i] in members;
  }

  lemma {:induction false} RemainingIsDrawable(members: seq<Member>, kept: seq<Member>)
    requires Drawable(members)
    ensures Drawable(Remaining(members, kept)) && Sum(Remaining(members, kept)) <= Sum(members)
    ensures Ids(Remaining(members, kept)) == Ids(members) - Ids(kept)
    ensures forall m | m in Remaining(members, kept) :: m in members && m.id !in Ids(kept)
  {
    if members != [] {
      var n := |members| - 1;
      var (before, m) := (members[..n], members[n]);
      assert members == before + [m];
      SumOfOneMore(before, m);
      hide Sum;
      assert Drawable(before);
      RemainingIsDrawable(before, kept);
      var rest := Remaining(before, kept);
      IdsOfOneMore(before, m);
      IdsOfOneMore(rest, m);
      NewIdentity(before, m);
      SumOfOneMore(rest, m);
      var found := Lookup(kept, m.id);
      if found.Some? {
        MemberId(kept, found.value);
      } else {
        NotAnIdentity(kept, m.id);
      }
    }
  }

  lemma IdsOfOneMore(members: seq<Member>, m: Member)
    ensures Ids(members + [m]) == Ids(members) + {m.id}
    ensures DistinctIds(members) && m.id !in Ids(members) ==> DistinctIds(members + [m])
  {
    var more := members + [m];
    assert more[|members|] == m && forall i | 0 <= i < |members| :: more[i] == members[i];
  }

  lemma MemberId(members: seq<Member>, m: Member)
    requires m in members
    ensures m.id in Ids(members)
  {
    var i :| 0 <= i < |members| && members[i] == m;
  }

  lemma OthersCount(members: seq<Member>, kept: seq<Member>, pool: seq<Member>)
    requires DistinctIds(members) && DistinctIds(kept) && DistinctIds(pool)
    requires (forall m | m in kept :: m in members) && Ids(pool) == Ids(members) - Ids(kept)
    ensures |pool| == |members| - |kept|
  {
    IdsCardinality(members);
    IdsCardinality(kept);
    IdsCardinality(pool);
    forall id | id in Ids(kept)
      ensures id in Ids(members)
    {
      var i :| 0 <= i < |kept| && kept[i].id == id;
      assert kept[i] in kept;
      MemberId(members, kept[i]);
    }
    assert Ids(members) == Ids(pool) + Ids(kept);
  }

  /** Walks the seats and keeps those still eligible. */
  method Keep(sampler: Sampler, seats: seq<Member>) returns (kept: seq<Member>)
    ensures kept == Kept(sampler.members, seats)
  {
    kept := [];
    for i := 0 to |seats|
      invariant kept == Kept(sampler.members, seats[..i])
    {
      assert seats[..i + 1][..i] == seats[..i];
      var found := Lookup(sampler.members, seats[i].id);
      if found.Some? {
        kept := kept + [found.value];
      }
    }
    assert seats[..|seats|] == seats;
  }

  /** Filters the roster down to the members that hold no retained seat. */
  method Others(sampler: Sampler, kept: seq<Member>) returns (pool: seq<Member>)
    ensures pool == Remaining(sampler.members, kept)
  {
    var members := sampler.members;
    pool := [];
    for i := 0 to |members|
      invariant pool == Remaining(members[..i], kept)
    {
      assert members[..i + 1][..i] == members[..i];
      if Lookup(kept, members[i].id).None? {
        pool := pool + [members[i]];
      }
    }
    assert members[..|members|] == members;
  }

  /** Retained seats and the pool for the others, as rotation uses them. */
  lemma PoolIsReady(sampler: Sampler, seats: seq<Member>)
    requires sampler.Valid() && DistinctIds(seats)
    ensures var kept := Kept(sampler.members, seats);
            var pool := Remaining(sampler.members, kept);
            && Eligible(sampler, kept) && |kept| <= |seats|
            && (|kept| == |seats| <==> Ids(seats) <= Ids(sampler.members))
            && Drawable(pool) && |pool| == |sampler.members| - |kept|
            && forall m | m in pool :: m in sampler.members && m.id !in Ids(kept)
  {
    hide Kept;
    hide Remaining;
    hide Sum;
    KeptIsEligible(sampler.members, seats);
    var kept := Kept(sampler.members, seats);
    RemainingIsDrawable(sampler.members, kept);
    OthersCount(sampler.members, kept, Remaining(sampler.members, kept));
    KeptAll(sampler, seats, kept);
  }

  lemma JoinedIsEligible(sampler: Sampler, kept: seq<Member>, drawn: seq<Member>, pool: seq<Member>)
    requires Eligible(sampler, kept) && DistinctIds(drawn)
    requires forall m | m in pool :: m in sampler.members && m.id !in Ids(kept)
    requires forall m | m in drawn :: m in pool
    ensures Eligible(sampler, kept + drawn)
  {
    var joined := kept + drawn;
    forall i, j | 0 <= i < j < |joined|
      ensures joined[i].id != joined[j].id
    {
      if i < |kept| <= j {
        MemberId(kept, kept[i]);
        assert joined[j] in drawn && joined[j] in pool;
      }
    }
  }

  lemma NewestAreDistinct(members: seq<Member>, count: nat)
    requires ValidMembers(members) && count <= |members|
    ensures DistinctIds(members[count..]) && 0 < |members| <= MAX_COMMITTEE_MEMBERS
  {
  }

  ghost predicate RotateAllowed(sampler: Sampler, current: Seats, count: nat) {
    && ValidMembers(current.members) && sampler.role == CommitteeRole && sampler.height == current.height + 1
    && count <= |current.members| <= |sampler.members|
    && Ids(current.members[count..]) <= Ids(sampler.members)
  }

  /** `members` are the kept seats followed by a draw from everybody else. */
  ghost predicate IsRefill(sampler: Sampler, seats: seq<Member>, members: seq<Member>, pools: seq<seq<Member>>) {
    var kept := Kept(sampler.members, seats);
    && kept <= members && IsDraw(sampler.entropy, pools, members[|kept|..])
    && pools[0] == Remaining(sampler.members, kept)
  }

  /** Drops the first `count` seats and draws as many at the end; the seats kept must all be eligible still. */
  method Rotate(sampler: Sampler, current: Seats, count: nat)
    returns (r: Result<Seats, ConsensusError>, ghost pools: seq<seq<Member>>)
    requires sampler.Valid()
    ensures r.Ok? ==>
              && RotateAllowed(sampler, current, count) && r.value.height == sampler.height
              && |r.value.members| == |current.members| && Eligible(sampler, r.value.members)
              && ValidMembers(r.value.members)
              && |Kept(sampler.members, current.members[count..])| == |current.members| - count
              && IsRefill(sampler, current.members[count..], r.value.members, pools)
    ensures r.Err? && RotateAllowed(sampler, current, count) ==>
              && r.error == InvalidProof
              && var kept := Kept(sampler.members, current.members[count..]);
                 Exhausted(sampler.entropy, Remaining(sampler.members, kept), count)
    ensures r.Err? && !RotateAllowed(sampler, current, count) ==>
              r.error == if && ValidMembers(current.members)
                            && (|| sampler.role != CommitteeRole || sampler.height != current.height + 1
                                || count > |current.members|)
                         then InvalidTransition else InvalidCommittee
  {
    hide IsDraw;
    hide Exhausted;
    hide Kept;
    hide Remaining;
    hide ValidMembers;
    hide DistinctIds;
    pools := [];
    var power := TotalPower(current.members);
    if power.Err? {
      return Err(power.error), pools;
    }
    if sampler.role != CommitteeRole || current.height + 1 != sampler.height || count > |current.members| {
      return Err(InvalidTransition), pools;
    }
    NewestAreDistinct(current.members, count);
    var newest := current.members[count..];
    PoolIsReady(sampler, newest);
    var kept := Keep(sampler, newest);
    if |kept| != |newest| {
      return Err(InvalidCommittee), pools;
    }
    var pool := Others(sampler, kept);
    var drawn;
    drawn, pools := Draw(sampler.entropy, pool, count);
    if drawn.Err? {
      return Err(drawn.error), pools;
    }
    DrawnAreDistinct(sampler.entropy, pools, drawn.value);
    JoinedIsEligible(sampler, kept, drawn.value, pool);
    var members := kept + drawn.value;
    assert members[|kept|..] == drawn.value;
    // The closing weight check cannot fail: eligible members are distinct, positive and within the total.
    EligibleIsValid(sampler, members);
    return Ok(Seats(sampler.height, members)), pools;
  }

  lemma {:induction false} EligibleTotal(sampler: Sampler, members: seq<Member>)
    requires sampler.Valid() && Eligible(sampler, members)
    ensures Total(members) == Weight(sampler.members, Ids(members))
  {
    if members == [] {
      assert Ids(members) == {} && Ids([]) == {};
      EmptySetWeighsNothing(sampler.members);
    } else {
      var n := |members| - 1;
      var (rest, m) := (members[..n], members[n]);
      assert members == rest + [m];
      EligibleTotal(sampler, rest);
      TotalOfOneMore(rest, m);
      IdsOfOneMore(rest, m);
      assert m in members && m in sampler.members;
      var i :| 0 <= i < |sampler.members| && sampler.members[i] == m;
      WeightOfOneMore(sampler.members, Ids(rest), i);
    }
  }

  lemma EligibleIsValid(sampler: Sampler, members: seq<Member>)
    requires sampler.Valid() && Eligible(sampler, members) && 0 < |members| <= MAX_COMMITTEE_MEMBERS
    ensures ValidMembers(members)
  {
    EligibleTotal(sampler, members);
    WeightAtMostTotal(sampler.members, Ids(members));
    SumIsTotal(sampler.members);
    assert forall i | 0 <= i < |members| :: members[i] in members;
  }

  /** Nothing was dropped exactly when every seat is still eligible. */
  lemma KeptAll(sampler: Sampler, seats: seq<Member>, kept: seq<Member>)
    requires DistinctIds(seats) && DistinctIds(kept) && Ids(kept) == Ids(seats) * Ids(sampler.members)
    ensures |kept| == |seats| <==> Ids(seats) <= Ids(sampler.members)
  {
    IdsCardinality(seats);
    IdsCardinality(kept);
    assert Ids(seats) <= Ids(sampler.members) ==> Ids(kept) == Ids(seats);
    if |kept| == |seats| {
      SubsetOfSameSize(Ids(kept), Ids(seats));
    }
  }

  ghost predicate RotateEligibleAllowed(sampler: Sampler, current: Seats, target: nat, count: nat) {
    && ValidMembers(current.members) && sampler.role == CommitteeRole && sampler.height == current.height + 1
    && 0 < target <= |sampler.members| && count <= target
  }

  /** Reaches exactly the target size, dropping ineligible newer seats on the way. */
  method RotateEligible(sampler: Sampler, current: Seats, target: nat, count: nat)
    returns (r: Result<Seats, ConsensusError>, ghost pools: seq<seq<Member>>)
    requires sampler.Valid()
    ensures r.Ok? ==>
              && RotateEligibleAllowed(sampler, current, target, count) && r.value.height == sampler.height
              && |r.value.members| == target && Eligible(sampler, r.value.members)
              && IsRefill(sampler, if |current.members| == target then current.members[count..] else [],
                          r.value.members, pools)
    ensures r.Err? && RotateEligibleAllowed(sampler, current, target, count) ==>
              && r.error == InvalidProof
              && var kept := Kept(sampler.members,
                                  if |current.members| == target then current.members[count..] else []);
                 Exhausted(sampler.entropy, Remaining(sampler.members, kept), target - |kept|)
    ensures r.Err? && !RotateEligibleAllowed(sampler, current, target, count) ==>
              r.error == if ValidMembers(current.members) then InvalidTransition else InvalidCommittee
  {
    hide IsDraw;
    hide Exhausted;
    hide Kept;
    hide Remaining;
    hide ValidMembers;
    hide DistinctIds;
    pools := [];
    var power := TotalPower(current.members);
    if power.Err? {
      return Err(power.error), pools;
    }
    if sampler.role != CommitteeRole || current.height + 1 != sampler.height || target == 0
       || target > |sampler.members| || count > target {
      return Err(InvalidTransition), pools;
    }
    if |current.members| != target {
      NobodyKept(sampler.members);
      r, pools := Select(sampler, target);
      assert r.Ok? ==> r.value.members[0..] == r.value.members;
      return;
    }
    NewestAreDistinct(current.members, count);
    var newest := current.members[count..];
    PoolIsReady(sampler, newest);
    var kept := Keep(sampler, newest);
    var pool := Others(sampler, kept);
    var drawn;
    drawn, pools := Draw(sampler.entropy, pool, target - |kept|);
    if drawn.Err? {
      return Err(drawn.error), pools;
    }
    DrawnAreDistinct(sampler.entropy, pools, drawn.value);
    JoinedIsEligible(sampler, kept, drawn.value, pool);
    var members := kept + drawn.value;
    assert members[|kept|..] == drawn.value;
    return Ok(Seats(sampler.height, members)), pools;
  }

  lemma {:induction false} NobodyKept(members: seq<Member>)
    ensures Kept(members, []) == [] && Remaining(members, []) == members
  {
    if members != [] {
      NobodyKept(members[..|members| - 1]);
    }
  }
}
