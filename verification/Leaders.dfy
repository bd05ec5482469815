/** Round-robin leaders: fairness, the round in which a height can be decided, and the quorum that takes. */
module Leaders {

  import opened Wrappers
  import opened Weights
  import opened Committee
  import opened Certificates
  import opened Signer
  import opened Voting
  import opened ValidatorRuns
  import opened Agreement
  import opened Progress
  import Collector
  import Draws

  /** Seat that leads a round: one further on for every round, starting from the height. */
  function LeaderSeat(ctx: Context, round: nat): (seat: nat)
    requires 0 < |ctx.members|
    ensures seat < |ctx.members|
  {
    (ctx.height % |ctx.members| + round % |ctx.members|) % |ctx.members|
  }

  function Leader(ctx: Context, round: nat): ValidatorId
    requires 0 < |ctx.members|
  {
    ctx.members[LeaderSeat(ctx, round)].id
  }

  lemma SmallRemainder(x: nat, n: nat)
    requires x < 2 * n
    ensures x % n == if x < n then x else x - n
  {
    if n <= x {
      assert x == n + (x - n);
    }
  }

  lemma NextRemainder(x: nat, n: nat)
    requires 0 < n
    ensures (x + 1) % n == if x % n + 1 == n then 0 else x % n + 1
  {
    var (p, q) := ((x + 1) / n, x / n);
    assert x + 1 == n * p + (x + 1) % n && x == n * q + x % n;
    var whole := if x % n + 1 == n then q + 1 else q;
    Draws.Distributes(n, p, whole);
    Draws.Distributes(n, q + 1, q);
    Draws.SmallMultiple(n, p - whole);
  }

  /** Seats lead in table order, the first following the last. */
  lemma NextLeader(ctx: Context, round: nat)
    requires 0 < |ctx.members|
    ensures LeaderSeat(ctx, round + 1) ==
            if LeaderSeat(ctx, round) + 1 == |ctx.members| then 0 else LeaderSeat(ctx, round) + 1
  {
    var n := |ctx.members|;
    NextRemainder(round, n);
    SmallRemainder(ctx.height % n + round % n, n);
    SmallRemainder(ctx.height % n + (round + 1) % n, n);
  }

  /** The seat numbered like the height opens it. */
  lemma FirstLeader(ctx: Context)
    requires 0 < |ctx.members|
    ensures LeaderSeat(ctx, 0) == ctx.height % |ctx.members|
  {
    SmallRemainder(ctx.height % |ctx.members|, |ctx.members|);
  }

  /** The next height repeats the order of this one, shifted by one seat. */
  lemma NextHeightsLeader(ctx: Context, round: nat)
    requires 0 < |ctx.members|
    ensures LeaderSeat(ctx.(height := ctx.height + 1), round) == LeaderSeat(ctx, round + 1)
  {
    var n := |ctx.members|;
    NextRemainder(ctx.height, n);
    NextRemainder(round, n);
    SmallRemainder(ctx.height % n + (round + 1) % n, n);
    SmallRemainder((ctx.height + 1) % n + round % n, n);
  }

  lemma {:induction false} LeaderAfter(ctx: Context, base: nat, k: nat)
    requires k < |ctx.members|
    ensures LeaderSeat(ctx, base + k) ==
            if LeaderSeat(ctx, base) + k < |ctx.members| then LeaderSeat(ctx, base) + k
            else LeaderSeat(ctx, base) + k - |ctx.members|
  {
    hide LeaderSeat;
    if k > 0 {
      LeaderAfter(ctx, base, k - 1);
      NextLeader(ctx, base + k - 1);
    }
  }

  /** Among as many consecutive rounds as there are seats, each seat has one and only one. */
  lemma LeadersTakeTurns(ctx: Context, base: nat, seat: nat) returns (round: nat)
    requires seat < |ctx.members|
    ensures base <= round < base + |ctx.members| && LeaderSeat(ctx, round) == seat
    ensures forall r: nat | base <= r < base + |ctx.members| && LeaderSeat(ctx, r) == seat :: r == round
  {
    var first := LeaderSeat(ctx, base);
    var k := if first <= seat then seat - first else seat + |ctx.members| - first;
    round := base + k;
    LeaderAfter(ctx, base, k);
    forall r: nat | base <= r < base + |ctx.members| && LeaderSeat(ctx, r) == seat
      ensures r == round
    {
      LeaderAfter(ctx, base, r - base);
    }
  }

  /** The first round after `highest` whose leader is honest; the leaders skipped are all faulty. */
  lemma FirstHonestLeader(ctx: Context, faulty: set<ValidatorId>, highest: nat) returns (round: nat)
    requires ctx.Valid() && Ids(ctx.members) - faulty != {}
    ensures highest < round <= highest + |ctx.members| && Leader(ctx, round) !in faulty
    ensures forall r: nat | highest < r < round :: Leader(ctx, r) in faulty
  {
    hide LeaderSeat;
    var honest :| honest in Ids(ctx.members) - faulty;
    var seat :| 0 <= seat < |ctx.members| && ctx.members[seat].id == honest;
    var certain := LeadersTakeTurns(ctx, highest + 1, seat);
    round := highest + 1;
    while Leader(ctx, round) in faulty
      invariant highest < round <= certain
      invariant forall r: nat | highest < r < round :: Leader(ctx, r) in faulty
      decreases certain - round
    {
      round := round + 1;
    }
  }

  /** Neither lock nor journal keeps a leader from signing the proposal of a supported block. */
  lemma LeaderProposes(ctx: Context, v: ValidatorId, s: Local, signed: set<VoteBody>, target: nat, block: Hash,
                       proof: Option<PrevoteCertificate>)
    requires Inv(ctx, v, s, signed) && Past(ctx, s, target, 0, target) && At(s, target, AwaitingProposal)
    requires proof.Some? ==>
               && proof.value.Shape() && proof.value.VerifyContext(ctx)
               && proof.value.Round() < target && proof.value.Block() == block
    requires Permitted(s.locked, Some(block), proof)
    ensures var (s', r) := DoPropose(ctx, v, s, v, Collector.HeaderFor(ctx, block), proof, true, Written);
            && r.Ok? && r.value.body.round == target && r.value.body.block == block
            && At(s', target, AwaitingProposal) && s'.locked == s.locked
  {
    hide HasQuorum;
    hide VoteRecorded;
    hide PrecommitKept;
    hide SwitchJustified;
  }

  /** The leader signs its proposal first; then the round goes through. */
  lemma LedRound(ctx: Context, faulty: set<ValidatorId>, w: World, target: nat, block: Hash,
                 proof: Option<PrevoteCertificate>) returns (plan: seq<Action>, w': World, c: FinalityCertificate)
    requires ctx.Valid() && Good(ctx, faulty, w) && Weight(ctx.members, w.locals.Keys) >= ctx.Quorum()
    requires AllPast(ctx, w, target, 0, target) && Leader(ctx, target) in w.locals
    requires Supported(ctx, w, target, block, proof)
    ensures Leads(ctx, w, plan, w') && Decided(ctx, w', block, c) && c.round == target
    ensures plan != [] && plan[0] == ProposalBy(ctx, Leader(ctx, target), block, proof)
    ensures SignsProposal(ctx, w, Leader(ctx, target), target, block, proof)
  {
    hide LeaderSeat;
    hide Inv;
    hide Placed;
    hide DoPropose;
    hide Weight;
    hide Decided;
    hide Genuine;
    hide Backed;
    var leader := Leader(ctx, target);
    var first := ProposalBy(ctx, leader, block, proof);
    PastIsAt(ctx, faulty, w, target);
    LeaderProposes(ctx, leader, w.locals[leader], w.signed, target, block, proof);
    var next := w.(locals := w.locals[leader := React(ctx, leader, w.locals[leader], first.event).0]);
    assert Agreement.Step(ctx, w, first, next);
    StepKeepsGood(ctx, faulty, w, first, next);
    var rest;
    rest, w', c := VoteThrough(ctx, faulty, next, target, block, proof);
    plan := [first] + rest;
    assert plan[1..] == rest;
  }

  /** `leader` proposes `block`, as the leader everybody expects, with the proof of an earlier quorum if it has one. */
  function ProposalBy(ctx: Context, leader: ValidatorId, block: Hash, proof: Option<PrevoteCertificate>): Action {
    Honest(leader, Propose(leader, Collector.HeaderFor(ctx, block), proof, true, Written))
  }

  /** In `w` the journal of `leader` accepts that proposal, and its signature covers this round and block. */
  ghost predicate SignsProposal(ctx: Context, w: World, leader: ValidatorId, round: nat, block: Hash,
                                proof: Option<PrevoteCertificate>)
  {
    && leader in w.locals && (proof.Some? ==> proof.value.Shape())
    && var header := Collector.HeaderFor(ctx, block);
       var r := DoPropose(ctx, leader, w.locals[leader], leader, header, proof, true, Written).1;
       r.Ok? && r.value.body.round == round && r.value.body.block == block
  }

  /** `target` is the first round with an honest leader after every round the honest voters have reached. */
  ghost predicate FirstLed(ctx: Context, faulty: set<ValidatorId>, w: World, target: nat)
    requires 0 < |ctx.members|
  {
    && (forall v | v in w.locals :: w.locals[v].round < target)
    && Leader(ctx, target) in w.locals
    && exists v ::
         && v in w.locals && target <= w.locals[v].round + |ctx.members|
         && forall r: nat | w.locals[v].round < r < target :: Leader(ctx, r) in faulty
  }

  /**
   * From every reachable world in which nobody has finalized yet, the honest members can meet in the first
   * round led by one of them, have its proposal signed and decide it there. Only rounds with faulty leaders
   * are passed over, fewer of them than there are seats.
   */
  lemma HonestLeaderDecides(ctx: Context, faulty: set<ValidatorId>, run: seq<World>, actions: seq<Action>,
                            proposed: Hash)
    returns (gathering: seq<World>, before: seq<Action>, voting: seq<World>, after: seq<Action>,
             target: nat, block: Hash, proof: Option<PrevoteCertificate>, c: FinalityCertificate)
    requires ctx.Valid() && IsRun(ctx, faulty, run, actions)
    requires Weight(ctx.members, Ids(ctx.members) - faulty) >= ctx.Quorum()
    requires var locals := run[|run| - 1].locals;
             forall v | v in locals :: locals[v].finalized.None? && locals[v].round + |ctx.members| <= U32_MAX
    ensures |gathering| == |before| && |voting| == |after| > 0
    ensures IsRun(ctx, faulty, run + gathering + voting, actions + before + after)
    ensures forall a | a in before + after :: a.Honest?
    ensures FirstLed(ctx, faulty, run[|run| - 1], target)
    ensures after[0] == ProposalBy(ctx, Leader(ctx, target), block, proof)
    ensures SignsProposal(ctx, (run + gathering)[|run + gathering| - 1], Leader(ctx, target), target, block, proof)
    ensures Decided(ctx, (run + gathering + voting)[|run + gathering + voting| - 1], block, c) && c.round == target
    ensures var locals := run[|run| - 1].locals;
            (forall v | v in locals :: LockOf(ctx, locals[v].journal.disk).None?) ==> block == proposed
  {
    hide LeaderSeat;
    hide Leads;
    hide Inv;
    hide Placed;
    hide Past;
    hide Decided;
    hide LockOf;
    hide Supported;
    hide SignsProposal;
    var last := run[|run| - 1];
    hide IsRun;
    ReachableGood(ctx, faulty, run, actions, |run| - 1);
    HonestQuorumBoundsFaults(ctx, faulty);
    target := NextLedRound(ctx, faulty, last);
    hide Weight;
    hide FirstLed;
    var met, w1 := Gather(ctx, faulty, last, target);
    PlansKeepGood(ctx, faulty, last, met, w1);
    PastIsAt(ctx, faulty, w1, target);
    block, proof := Choose(ctx, faulty, w1, target, proposed);
    var votes, w2;
    votes, w2, c := LedRound(ctx, faulty, w1, target, block, proof);
    gathering := PlanExtendsRun(ctx, faulty, run, actions, met, w1);
    voting := PlanExtendsRun(ctx, faulty, run + gathering, actions + met, votes, w2);
    before, after := met, votes;
  }

  lemma SomebodyHonest(ctx: Context, faulty: set<ValidatorId>) returns (v: ValidatorId)
    requires Weight(ctx.members, Ids(ctx.members) - faulty) >= ctx.Quorum()
    ensures v in Ids(ctx.members) - faulty
  {
    if Ids(ctx.members) - faulty == {} {
      EmptySetWeighsNothing(ctx.members);
    }
    v :| v in Ids(ctx.members) - faulty;
  }

  lemma NextLedRound(ctx: Context, faulty: set<ValidatorId>, w: World) returns (target: nat)
    requires ctx.Valid() && w.locals.Keys == Ids(ctx.members) - faulty
    requires Weight(ctx.members, w.locals.Keys) >= ctx.Quorum()
    requires forall v | v in w.locals :: w.locals[v].round + |ctx.members| <= U32_MAX
    ensures FirstLed(ctx, faulty, w, target) && target <= U32_MAX
  {
    hide LeaderSeat;
    var v := SomebodyHonest(ctx, faulty);
    var highest := HighestRound(w.locals, w.locals.Keys, U32_MAX);
    target := FirstHonestLeader(ctx, faulty, highest);
    var seat := LeaderSeat(ctx, target);
    assert ctx.members[seat].id in Ids(ctx.members);
  }

  // The quorum is needed: without it honest members alone never finish.

  ghost predicate OnlyHonest(actions: seq<Action>) {
    forall i | 0 <= i < |actions| :: actions[i].Honest?
  }

  lemma {:induction false} OnlyHonestSign(ctx: Context, faulty: set<ValidatorId>, run: seq<World>,
                                          actions: seq<Action>, i: nat)
    requires IsRun(ctx, faulty, run, actions) && OnlyHonest(actions) && run[0].signed == {} && i < |run|
    ensures run[i].locals.Keys == Ids(ctx.members) - faulty
    ensures forall b | b in run[i].signed :: b.voter in run[i].locals
  {
    if i > 0 {
      OnlyHonestSign(ctx, faulty, run, actions, i - 1);
      assert Agreement.Step(ctx, run[i - 1], actions[i - 1], run[i]);
      var a := actions[i - 1];
      OnlyOwnVotes(ctx, a.voter, run[i - 1].locals[a.voter], a.event);
    }
  }

  lemma NobodyFinalizes(ctx: Context, faulty: set<ValidatorId>, run: seq<World>, actions: seq<Action>, i: nat,
                        v: ValidatorId)
    requires ctx.Valid() && IsRun(ctx, faulty, run, actions) && OnlyHonest(actions) && run[0].signed == {}
    requires Weight(ctx.members, Ids(ctx.members) - faulty) < ctx.Quorum()
    requires i < |run| && v in run[i].locals
    ensures run[i].locals[v].finalized.None?
  {
    ReachableInv(ctx, faulty, run, actions, i);
    OnlyHonestSign(ctx, faulty, run, actions, i);
    hide IsRun;
    var w := run[i];
    if w.locals[v].finalized.Some? {
      var r := FinalizedHasQuorum(ctx, v, w.locals[v], w.signed);
      var slot := Slot(Precommit, r, w.locals[v].finalized.value);
      WeightMonotone(ctx.members, VotersFor(w.signed, ctx, slot), w.locals.Keys);
    }
  }

  ghost predicate SomebodyFinalized(w: World) {
    exists v :: v in w.locals && w.locals[v].finalized.Some?
  }

  /** A run from `w` by honest members alone, at whose end somebody has finalized. */
  ghost predicate Finishes(ctx: Context, faulty: set<ValidatorId>, w: World, run: seq<World>, actions: seq<Action>) {
    IsRun(ctx, faulty, run, actions) && run[0] == w && OnlyHonest(actions) && SomebodyFinalized(run[|run| - 1])
  }

  /** While the others stay silent, a height can be finished exactly when honest power reaches the quorum. */
  lemma FinishesIffHonestQuorum(ctx: Context, faulty: set<ValidatorId>, w: World)
    requires ctx.Valid() && Init(ctx, faulty, w) && w.signed == {}
    ensures (exists run, actions :: Finishes(ctx, faulty, w, run, actions)) <==>
            Weight(ctx.members, Ids(ctx.members) - faulty) >= ctx.Quorum()
  {
    if Weight(ctx.members, Ids(ctx.members) - faulty) >= ctx.Quorum() {
      FreshHeightFinishes(ctx, faulty, w);
    } else {
      forall run: seq<World>, actions
        ensures !Finishes(ctx, faulty, w, run, actions)
      {
        if Finishes(ctx, faulty, w, run, actions) {
          var last := run[|run| - 1];
          var v :| v in last.locals && last.locals[v].finalized.Some?;
          NobodyFinalizes(ctx, faulty, run, actions, |run| - 1, v);
        }
      }
    }
  }

  lemma FreshHeightFinishes(ctx: Context, faulty: set<ValidatorId>, w: World)
    requires ctx.Valid() && Init(ctx, faulty, w)
    requires Weight(ctx.members, Ids(ctx.members) - faulty) >= ctx.Quorum()
    ensures exists run, actions :: Finishes(ctx, faulty, w, run, actions)
  {
    hide Inv;
    hide Init;
    hide Agreement.Step;
    hide Weight;
    hide CertificateDecision;
    hide Backed;
    StartsInRoundZero(ctx, faulty, w);
    var v := SomebodyHonest(ctx, faulty);
    assert IsRun(ctx, faulty, [w], []);
    var more, plan, block, c := HeightCanComplete(ctx, faulty, [w], [], 0);
    var run, actions := [w] + more, [] + plan;
    ReachableInv(ctx, faulty, run, actions, |run| - 1);
    hide IsRun;
    assert v in run[|run| - 1].locals && run[|run| - 1].locals[v].finalized == Some(block);
    assert forall i | 0 <= i < |actions| :: actions[i] in plan;
    assert Finishes(ctx, faulty, w, run, actions);
  }

  lemma StartsInRoundZero(ctx: Context, faulty: set<ValidatorId>, w: World)
    requires Init(ctx, faulty, w)
    ensures forall v | v in w.locals :: w.locals[v].round == 0
  {
    forall v | v in w.locals
      ensures w.locals[v].round == 0
    {
      assert Unused(ctx, w.locals[v].journal);
    }
  }
}
