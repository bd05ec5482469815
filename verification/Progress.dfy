/** No reachable configuration of locks, steps and crashed journals keeps a height from completing. */
module Progress {

  import opened Wrappers
  import opened Weights
  import opened Ordering
  import opened Committee
  import opened Certificates
  import opened Signer
  import opened Voting
  import opened ValidatorRuns
  import opened Agreement
  import Collector

  // Where a voter stands relative to its journal.

  ghost predicate Standing(ctx: Context, r: Option<Record>, round: nat, step: Step) {
    if !AtHeight(ctx, r) || r.value.position.round < round then step == AwaitingProposal
    else r.value.position.round == round && step == StepOf(r.value.position.phase)
  }

  /** The round and step a voter acts in are those of its last record, or a later round not yet begun. */
  ghost predicate Placed(ctx: Context, s: Local) {
    && (s.step == Finalized <==> s.finalized.Some?)
    && (AtHeight(ctx, s.journal.disk) ==> s.journal.disk.value.position.round <= s.round)
    && (!s.journal.poisoned && s.step != Finalized ==> Standing(ctx, s.journal.memory, s.round, s.step))
  }

  lemma ReactKeepsPlaced(ctx: Context, v: ValidatorId, s: Local, signed: set<VoteBody>, e: Event)
    requires Inv(ctx, v, s, signed) && Placed(ctx, s) && WellFormed(e)
    ensures Placed(ctx, React(ctx, v, s, e).0)
  {
    hide Inv;
    InvFields(ctx, v, s, signed);
    match e
    case Propose(_, _, _, _, _) => ProposeKeepsPlaced(ctx, v, s, e);
    case CastPrevote(_, _, _, _) => VotesKeepPlaced(ctx, v, s, Prevote);
    case CastPrecommit(_, _, _, _) => VotesKeepPlaced(ctx, v, s, Precommit);
    case TimeoutProposal(_, _) => VotesKeepPlaced(ctx, v, s, Prevote);
    case TimeoutPrevote(_, _) => VotesKeepPlaced(ctx, v, s, Precommit);
    case _ =>
  }

  lemma VotesKeepPlaced(ctx: Context, v: ValidatorId, s: Local, phase: Phase)
    requires FieldsOk(ctx, s) && Placed(ctx, s)
    ensures s.step != Finalized ==>
              forall block, lock, outcome :: Placed(ctx, Issue(ctx, v, s, phase, block, lock, outcome).0)
  {
  }

  lemma ProposeKeepsPlaced(ctx: Context, v: ValidatorId, s: Local, e: Event)
    requires FieldsOk(ctx, s) && Placed(ctx, s) && e.Propose? && WellFormed(e)
    ensures Placed(ctx, React(ctx, v, s, e).0)
  {
  }

  ghost predicate Good(ctx: Context, faulty: set<ValidatorId>, w: World) {
    && WorldInv(ctx, faulty, w)
    && forall v | v in w.locals :: Placed(ctx, w.locals[v])
  }

  lemma StepKeepsGood(ctx: Context, faulty: set<ValidatorId>, w: World, a: Action, w': World)
    requires ctx.Valid() && Good(ctx, faulty, w) && Agreement.Step(ctx, w, a, w')
    ensures Good(ctx, faulty, w') && w.signed <= w'.signed
  {
    hide Inv;
    hide Placed;
    hide React;
    StepPreserves(ctx, faulty, w, a, w');
    StepGrows(ctx, w, a, w');
    if a.Honest? {
      ReactKeepsPlaced(ctx, a.voter, w.locals[a.voter], w.signed, a.event);
    }
  }

  lemma InitIsGood(ctx: Context, faulty: set<ValidatorId>, w: World)
    requires Init(ctx, faulty, w)
    ensures Good(ctx, faulty, w)
  {
    InitEstablishes(ctx, faulty, w);
    hide Inv;
    forall v | v in w.locals
      ensures Placed(ctx, w.locals[v])
    {
      assert Unused(ctx, w.locals[v].journal);
    }
  }

  lemma {:induction false} ReachableGood(ctx: Context, faulty: set<ValidatorId>, run: seq<World>,
                                         actions: seq<Action>, i: nat)
    requires ctx.Valid() && IsRun(ctx, faulty, run, actions) && i < |run|
    ensures Good(ctx, faulty, run[i])
  {
    hide Good;
    hide Init;
    hide Agreement.Step;
    if i == 0 {
      InitIsGood(ctx, faulty, run[0]);
    } else {
      ReachableGood(ctx, faulty, run, actions, i - 1);
      StepKeepsGood(ctx, faulty, run[i - 1], actions[i - 1], run[i]);
    }
  }

  // Plans: sequences of honest actions.

  ghost predicate Leads(ctx: Context, w: World, plan: seq<Action>, w': World)
    decreases |plan|
  {
    if plan == [] then w == w'
    else
      && plan[0].Honest?
      && exists next :: Agreement.Step(ctx, w, plan[0], next) && Leads(ctx, next, plan[1..], w')
  }

  lemma {:induction false} LeadsOn(ctx: Context, a: World, p: seq<Action>, b: World, q: seq<Action>, c: World)
    requires Leads(ctx, a, p, b) && Leads(ctx, b, q, c)
    ensures Leads(ctx, a, p + q, c)
    decreases |p|
  {
    hide Agreement.Step;
    if p == [] {
      assert p + q == q;
    } else {
      var next :| Agreement.Step(ctx, a, p[0], next) && Leads(ctx, next, p[1..], b);
      LeadsOn(ctx, next, p[1..], b, q, c);
      assert (p + q)[1..] == p[1..] + q;
    }
  }

  lemma {:induction false} PlansKeepGood(ctx: Context, faulty: set<ValidatorId>, w: World, plan: seq<Action>, w': World)
    requires ctx.Valid() && Good(ctx, faulty, w) && Leads(ctx, w, plan, w')
    ensures Good(ctx, faulty, w') && w.signed <= w'.signed
    decreases |plan|
  {
    hide Agreement.Step;
    hide Good;
    if plan != [] {
      var next :| Agreement.Step(ctx, w, plan[0], next) && Leads(ctx, next, plan[1..], w');
      StepKeepsGood(ctx, faulty, w, plan[0], next);
      PlansKeepGood(ctx, faulty, next, plan[1..], w');
    }
  }

  /** Every voter of `todo` has handled `e`, and nobody else has done anything. */
  ghost predicate Swept(ctx: Context, w: World, e: Event, todo: set<ValidatorId>, w': World)
    requires WellFormed(e) && todo <= w.locals.Keys
  {
    && w'.locals.Keys == w.locals.Keys && w.signed <= w'.signed
    && (forall v | v in w.locals ::
          w'.locals[v] == if v in todo then React(ctx, v, w.locals[v], e).0 else w.locals[v])
    && (forall v | v in todo ::
          React(ctx, v, w.locals[v], e).1.Some? ==> React(ctx, v, w.locals[v], e).1.value in w'.signed)
  }

  lemma StillBacked(less: set<VoteBody>, more: set<VoteBody>, e: Event)
    requires less <= more && ProofsBacked(less, e)
    ensures ProofsBacked(more, e)
  {
  }

  lemma {:induction false} Sweep(ctx: Context, w: World, e: Event, todo: set<ValidatorId>)
    returns (plan: seq<Action>, w': World)
    requires WellFormed(e) && ProofsBacked(w.signed, e) && todo <= w.locals.Keys
    ensures Leads(ctx, w, plan, w') && Swept(ctx, w, e, todo, w')
    decreases |todo|
  {
    hide React;
    hide ProofsBacked;
    hide WellFormed;
    if todo == {} {
      plan, w' := [], w;
    } else {
      var v :| v in todo;
      var (s, out) := React(ctx, v, w.locals[v], e);
      var next := World(w.locals[v := s], if out.Some? then w.signed + {out.value} else w.signed);
      StillBacked(w.signed, next.signed, e);
      var rest;
      rest, w' := Sweep(ctx, next, e, todo - {v});
      plan := [Honest(v, e)] + rest;
      assert plan[1..] == rest;
      assert Agreement.Step(ctx, w, plan[0], next);
      SweptWith(ctx, w, e, v, next, todo, w');
    }
  }

  lemma SweptWith(ctx: Context, w: World, e: Event, v: ValidatorId, next: World, todo: set<ValidatorId>, w': World)
    requires WellFormed(e) && todo <= w.locals.Keys && v in todo
    requires var (s, out) := React(ctx, v, w.locals[v], e);
             next == World(w.locals[v := s], if out.Some? then w.signed + {out.value} else w.signed)
    requires Swept(ctx, next, e, todo - {v}, w')
    ensures Swept(ctx, w, e, todo, w')
  {
    hide React;
    hide WellFormed;
    forall u | u in w.locals
      ensures w'.locals[u] == if u in todo then React(ctx, u, w.locals[u], e).0 else w.locals[u]
      ensures u in todo && React(ctx, u, w.locals[u], e).1.Some? ==> React(ctx, u, w.locals[u], e).1.value in w'.signed
    {
      if u != v {
        assert next.locals[u] == w.locals[u];
      } else {
        assert w'.locals[v] == next.locals[v];
      }
    }
  }

  // Timeouts carry everybody to one new round.

  function Rank(step: Step): nat {
    match step case AwaitingProposal => 0 case Prevoted => 1 case Precommitted => 2 case Finalized => 3
  }

  /** The timeout that takes a voter from the step of this rank to the next. */
  function Timeout(rank: nat, round: nat): Event {
    if rank == 0 then TimeoutProposal(round, Written)
    else if rank == 1 then TimeoutPrevote(round, Written)
    else TimeoutPrecommit(round)
  }

  /** Able to sign, past round `r` or in it with at least this rank, with nothing signed in `target` or later. */
  ghost predicate Past(ctx: Context, s: Local, r: nat, rank: nat, target: nat) {
    && !s.journal.poisoned && s.step != Finalized
    && (s.round > r || (s.round == r && Rank(s.step) >= rank))
    && (s.round < target || (s.round == target && s.step == AwaitingProposal))
    && (AtHeight(ctx, s.journal.disk) ==> s.journal.disk.value.position.round < target)
  }

  /** A write that succeeds is never refused by the journal in the step that calls for it. */
  lemma IssueSucceeds(ctx: Context, v: ValidatorId, s: Local, signed: set<VoteBody>, phase: Phase,
                      block: Option<Hash>, lock: Option<Lock>)
    requires Inv(ctx, v, s, signed) && Placed(ctx, s) && !s.journal.poisoned
    requires s.step == if phase == Prevote then AwaitingProposal else Prevoted
    requires lock == s.locked || (phase == Precommit && lock.Some? && lock.value.round == s.round)
    ensures var (s', r) := Issue(ctx, v, s, phase, block, lock, Written);
            && r.Ok? && r.value.body == BodyFor(ctx, v, s.round, phase, block)
            && s'.round == s.round && s'.step == (if phase == Prevote then Prevoted else Precommitted)
            && s'.finalized == s.finalized && !s'.journal.poisoned && LockOf(ctx, s'.journal.disk) == lock
            && AtHeight(ctx, s'.journal.disk) && s'.journal.disk.value.position.round == s.round
  {
    hide HasQuorum;
    hide VoteRecorded;
    hide PrecommitKept;
    hide SwitchJustified;
  }

  lemma Nudge(ctx: Context, v: ValidatorId, s: Local, signed: set<VoteBody>, r: nat, rank: nat, target: nat)
    requires Inv(ctx, v, s, signed) && Placed(ctx, s)
    requires rank < 3 && r < target <= U32_MAX && Past(ctx, s, r, rank, target)
    ensures var s' := React(ctx, v, s, Timeout(rank, r)).0;
            Past(ctx, s', r, rank + 1, target) && LockOf(ctx, s'.journal.disk) == LockOf(ctx, s.journal.disk)
  {
    hide Inv;
    if s.round == r && Rank(s.step) == rank < 2 {
      NilVote(ctx, v, s, signed);
    }
  }

  /** A timeout in the first two steps signs for no block, moves one step on and keeps the lock. */
  lemma NilVote(ctx: Context, v: ValidatorId, s: Local, signed: set<VoteBody>)
    requires Inv(ctx, v, s, signed) && Placed(ctx, s) && !s.journal.poisoned && Rank(s.step) < 2
    ensures var s' := React(ctx, v, s, Timeout(Rank(s.step), s.round)).0;
            && s'.round == s.round && Rank(s'.step) == Rank(s.step) + 1 < 3 && !s'.journal.poisoned
            && LockOf(ctx, s'.journal.disk) == LockOf(ctx, s.journal.disk)
            && AtHeight(ctx, s'.journal.disk) && s'.journal.disk.value.position.round == s.round
  {
    InvFields(ctx, v, s, signed);
    hide Inv;
    IssueSucceeds(ctx, v, s, signed, if s.step == AwaitingProposal then Prevote else Precommit, None, s.locked);
  }

  ghost predicate AllPast(ctx: Context, w: World, r: nat, rank: nat, target: nat) {
    forall v | v in w.locals :: Past(ctx, w.locals[v], r, rank, target)
  }

  ghost predicate SameLocks(ctx: Context, w: World, w': World) {
    && w'.locals.Keys == w.locals.Keys
    && forall v | v in w.locals :: LockOf(ctx, w'.locals[v].journal.disk) == LockOf(ctx, w.locals[v].journal.disk)
  }

  lemma {:induction false} CatchUp(ctx: Context, faulty: set<ValidatorId>, w: World, r: nat, rank: nat, target: nat)
    returns (plan: seq<Action>, w': World)
    requires ctx.Valid() && Good(ctx, faulty, w)
    requires rank <= 3 && r < target <= U32_MAX && AllPast(ctx, w, r, rank, target)
    ensures Leads(ctx, w, plan, w') && AllPast(ctx, w', target, 0, target) && SameLocks(ctx, w, w')
    decreases target - r, 3 - rank
  {
    hide Inv;
    hide React;
    hide Placed;
    hide LockOf;
    if rank == 3 && r + 1 == target {
      plan, w' := [], w;
    } else if rank == 3 {
      plan, w' := CatchUp(ctx, faulty, w, r + 1, 0, target);
    } else {
      var first, next := Sweep(ctx, w, Timeout(rank, r), w.locals.Keys);
      forall v | v in w.locals
        ensures Past(ctx, next.locals[v], r, rank + 1, target)
        ensures LockOf(ctx, next.locals[v].journal.disk) == LockOf(ctx, w.locals[v].journal.disk)
      {
        Nudge(ctx, v, w.locals[v], w.signed, r, rank, target);
      }
      PlansKeepGood(ctx, faulty, w, first, next);
      var rest;
      rest, w' := CatchUp(ctx, faulty, next, r, rank + 1, target);
      plan := first + rest;
      LeadsOn(ctx, w, first, next, rest, w');
    }
  }

  /** Voters whose journal is in doubt reopen it. */
  lemma Recover(ctx: Context, faulty: set<ValidatorId>, w: World, target: nat) returns (plan: seq<Action>, w': World)
    requires ctx.Valid() && Good(ctx, faulty, w)
    requires forall v | v in w.locals :: w.locals[v].round < target && w.locals[v].finalized.None?
    ensures Leads(ctx, w, plan, w') && AllPast(ctx, w', 0, 0, target) && SameLocks(ctx, w, w')
  {
    hide Inv;
    hide React;
    hide Past;
    hide LockOf;
    var doubtful := set v | v in w.locals && w.locals[v].journal.poisoned;
    plan, w' := Sweep(ctx, w, Restart, doubtful);
    forall v | v in w.locals
      ensures Past(ctx, w'.locals[v], 0, 0, target)
      ensures LockOf(ctx, w'.locals[v].journal.disk) == LockOf(ctx, w.locals[v].journal.disk)
    {
      StartsOver(ctx, v, w.locals[v], w.signed, target);
    }
  }

  lemma StartsOver(ctx: Context, v: ValidatorId, s: Local, signed: set<VoteBody>, target: nat)
    requires ctx.Valid() && v in Ids(ctx.members) && Inv(ctx, v, s, signed) && Placed(ctx, s)
    requires s.round < target && s.finalized.None?
    ensures var s' := if s.journal.poisoned then React(ctx, v, s, Restart).0 else s;
            Past(ctx, s', 0, 0, target) && LockOf(ctx, s'.journal.disk) == LockOf(ctx, s.journal.disk)
  {
    if s.journal.poisoned {
      RestartRestoresDurableState(ctx, v, s, signed);
    }
  }

  /** All honest voters can meet at the start of a round that none of them has reached. */
  lemma Gather(ctx: Context, faulty: set<ValidatorId>, w: World, target: nat) returns (plan: seq<Action>, w': World)
    requires ctx.Valid() && Good(ctx, faulty, w) && 0 < target <= U32_MAX
    requires forall v | v in w.locals :: w.locals[v].round < target && w.locals[v].finalized.None?
    ensures Leads(ctx, w, plan, w') && AllPast(ctx, w', target, 0, target) && SameLocks(ctx, w, w')
  {
    hide Leads;
    hide Good;
    hide LockOf;
    hide AllPast;
    var recovery, w1 := Recover(ctx, faulty, w, target);
    PlansKeepGood(ctx, faulty, w, recovery, w1);
    var timeouts;
    timeouts, w' := CatchUp(ctx, faulty, w1, 0, 0, target);
    plan := recovery + timeouts;
    LeadsOn(ctx, w, recovery, w1, timeouts, w');
  }

  // Certificates from signed votes.

  lemma {:induction false} Sorted(s: set<nat>) returns (r: seq<nat>)
    ensures Increasing(r) && |r| == |s| && forall x :: x in r <==> x in s
    decreases |s|
  {
    if s == {} {
      r := [];
    } else {
      var least := HasLeast(s);
      var rest := Sorted(s - {least});
      r := [least] + rest;
      assert forall i | 0 <= i < |rest| :: rest[i] in rest;
    }
  }

  lemma SignedVoteVerifies(ctx: Context, vote: Vote)
    requires ctx.Valid() && vote.body.voter in Ids(ctx.members)
    requires vote.body == BodyFor(ctx, vote.body.voter, vote.body.round, vote.body.phase, vote.body.block)
    requires vote.signature == Signature(vote.body.voter, VoteDigest(vote.body), 0)
    ensures VerifyVote(ctx, vote).Ok?
  {
  }

  /** A signed quorum can always be written down as votes that certify it. */
  lemma VotesOfQuorum(ctx: Context, signed: set<VoteBody>, slot: Slot) returns (votes: seq<Vote>)
    requires ctx.Valid() && HasQuorum(signed, ctx, slot)
    ensures Certifies(ctx, votes, slot) && Backed(signed, votes) && 0 < |votes| <= |ctx.members|
  {
    hide VerifyVote;
    hide Weight;
    var voters := VotersFor(signed, ctx, slot) * Ids(ctx.members);
    var order := Sorted(voters);
    votes := seq(|order|, i requires 0 <= i < |order| =>
      var body := BodyFor(ctx, order[i], slot.round, slot.phase, Some(slot.block));
      Vote(body, Signature(order[i], VoteDigest(body), 0)));
    Collector.SignersInOrder(votes, order);
    assert Signers(votes) == voters by {
      assert forall x | x in voters :: x in order;
      assert forall i | 0 <= i < |order| :: order[i] in order;
    }
    WeightMonotone(ctx.members, VotersFor(signed, ctx, slot), voters);
    IdsCardinality(ctx.members);
    SubsetSize(voters, Ids(ctx.members));
    forall i | 0 <= i < |votes|
      ensures InSlot(votes[i], slot) && VerifyVote(ctx, votes[i]).Ok? && votes[i].body in signed
    {
      assert order[i] in voters;
      SignedVoteVerifies(ctx, votes[i]);
    }
    if votes == [] {
      assert Signers(votes) == {};
      EmptySetWeighsNothing(ctx.members);
    }
  }

  lemma ProofOfQuorum(ctx: Context, signed: set<VoteBody>, round: nat, block: Hash) returns (proof: PrevoteCertificate)
    requires ctx.Valid() && HasQuorum(signed, ctx, Slot(Prevote, round, block))
    ensures Usable(proof) && Backed(signed, proof.votes) && proof.VerifyContext(ctx)
    ensures proof.Round() == round && proof.Block() == block
  {
    var votes := VotesOfQuorum(ctx, signed, Slot(Prevote, round, block));
    proof := PrevoteCertificate(votes);
    assert InSlot(votes[0], Slot(Prevote, round, block)) && VerifyVote(ctx, votes[0]).Ok?;
    TallyAcceptsExactlyQuorums(ctx, votes, Slot(Prevote, round, block));
    assert FromVotesDecision(ctx, proof.votes) == Ok(proof);
  }

  lemma CertificateOfQuorum(ctx: Context, signed: set<VoteBody>, round: nat, block: Hash)
    returns (c: FinalityCertificate)
    requires ctx.Valid() && HasQuorum(signed, ctx, Slot(Precommit, round, block))
    ensures c.block == block && c.round == round
    ensures CertificateDecision(ctx, c, Collector.HeaderFor(ctx, block)).Ok?
    ensures Backed(signed, CertificateVotes(c))
  {
    var votes := VotesOfQuorum(ctx, signed, Slot(Precommit, round, block));
    var entries := seq(|votes|, i requires 0 <= i < |votes| => Entry(votes[i].body.voter, votes[i].signature));
    c := FinalityCertificate(ctx.chainId, ctx.height, round, ctx.Root(), block, entries);
    Collector.CertifiedByStored(ctx, round, votes, c);
  }

  /** Honest members alone reach a quorum once they have all signed a slot. */
  lemma AllSigned(ctx: Context, faulty: set<ValidatorId>, w: World, slot: Slot)
    requires w.locals.Keys == Ids(ctx.members) - faulty && Weight(ctx.members, w.locals.Keys) >= ctx.Quorum()
    requires forall v | v in w.locals :: BodyFor(ctx, v, slot.round, slot.phase, Some(slot.block)) in w.signed
    ensures HasQuorum(w.signed, ctx, slot)
  {
    forall v | v in w.locals.Keys
      ensures v in VotersFor(w.signed, ctx, slot)
    {
      assert BodyFor(ctx, v, slot.round, slot.phase, Some(slot.block)) in w.signed;
    }
    WeightMonotone(ctx.members, w.locals.Keys, VotersFor(w.signed, ctx, slot));
  }

  /** An honest quorum leaves less than a third to the others. */
  lemma HonestQuorumBoundsFaults(ctx: Context, faulty: set<ValidatorId>)
    requires Weight(ctx.members, Ids(ctx.members) - faulty) >= ctx.Quorum()
    ensures 3 * Weight(ctx.members, faulty) <= Total(ctx.members)
  {
    var honest := Ids(ctx.members) - faulty;
    WeightUnionAndIntersection(ctx.members, honest, faulty);
    assert honest * faulty == {};
    EmptySetWeighsNothing(ctx.members);
    WeightAtMostTotal(ctx.members, honest + faulty);
  }

  lemma OnePrevoteQuorum(ctx: Context, faulty: set<ValidatorId>, w: World, r: nat, a: Hash, b: Hash)
    requires ctx.Valid() && 3 * Weight(ctx.members, faulty) <= Total(ctx.members) && WorldInv(ctx, faulty, w)
    requires HasQuorum(w.signed, ctx, Slot(Prevote, r, a)) && HasQuorum(w.signed, ctx, Slot(Prevote, r, b))
    ensures a == b
  {
    var u := CommonHonestVoter(ctx, faulty, w, Slot(Prevote, r, a), Slot(Prevote, r, b));
    OneVote(ctx, faulty, w, BodyFor(ctx, u, r, Prevote, Some(a)), BodyFor(ctx, u, r, Prevote, Some(b)));
  }

  // The value to vote for: the block of the newest lock, with the prevotes that justified it.

  /** The latest lock among `todo`, if anybody there is locked. */
  lemma {:induction false} NewestLock(locals: map<ValidatorId, Local>, todo: set<ValidatorId>)
    returns (lock: Option<Lock>)
    requires todo <= locals.Keys
    ensures lock.None? ==> forall v | v in todo :: locals[v].locked.None?
    ensures lock.Some? ==>
              && (exists v :: v in todo && locals[v].locked == lock)
              && forall v | v in todo && locals[v].locked.Some? :: locals[v].locked.value.round <= lock.value.round
    decreases |todo|
  {
    if todo == {} {
      lock := None;
    } else {
      var v :| v in todo;
      lock := NewestLock(locals, todo - {v});
      if locals[v].locked.Some? && (lock.None? || lock.value.round < locals[v].locked.value.round) {
        lock := locals[v].locked;
      }
    }
  }

  lemma LockHasQuorum(ctx: Context, v: ValidatorId, s: Local, signed: set<VoteBody>)
    requires Inv(ctx, v, s, signed) && s.locked.Some?
    ensures HasQuorum(signed, ctx, Slot(Prevote, s.locked.value.round, s.locked.value.block))
    ensures s.step == AwaitingProposal && !s.journal.poisoned && Placed(ctx, s) ==> s.locked.value.round < s.round
  {
    hide HasQuorum;
    hide VoteRecorded;
    hide PrecommitKept;
    hide SwitchJustified;
  }

  /** The proof, if there is one, shows an earlier prevote quorum for `block`, and no honest lock stands in its way. */
  ghost predicate Supported(ctx: Context, w: World, target: nat, block: Hash, proof: Option<PrevoteCertificate>) {
    && (proof.Some? ==>
          && Usable(proof.value) && Backed(w.signed, proof.value.votes) && proof.value.VerifyContext(ctx)
          && proof.value.Round() < target && proof.value.Block() == block)
    && forall v | v in w.locals :: Permitted(w.locals[v].locked, Some(block), proof)
  }

  lemma Choose(ctx: Context, faulty: set<ValidatorId>, w: World, target: nat, proposed: Hash)
    returns (block: Hash, proof: Option<PrevoteCertificate>)
    requires ctx.Valid() && Good(ctx, faulty, w) && AllPast(ctx, w, target, 0, target)
    requires 3 * Weight(ctx.members, faulty) <= Total(ctx.members)
    ensures Supported(ctx, w, target, block, proof)
    ensures (forall v | v in w.locals :: w.locals[v].locked.None?) ==> block == proposed
  {
    hide Inv;
    hide HasQuorum;
    hide Placed;
    hide Usable;
    hide Backed;
    hide Weight;
    var lock := NewestLock(w.locals, w.locals.Keys);
    if lock.None? {
      block, proof := proposed, None;
    } else {
      var (round, b) := (lock.value.round, lock.value.block);
      var holder :| holder in w.locals && w.locals[holder].locked == lock;
      LockHasQuorum(ctx, holder, w.locals[holder], w.signed);
      var p := ProofOfQuorum(ctx, w.signed, round, b);
      block, proof := b, Some(p);
      forall v | v in w.locals
        ensures Permitted(w.locals[v].locked, Some(block), proof)
      {
        if w.locals[v].locked.Some? && w.locals[v].locked.value.round == round {
          LockHasQuorum(ctx, v, w.locals[v], w.signed);
          OnePrevoteQuorum(ctx, faulty, w, round, b, w.locals[v].locked.value.block);
        }
      }
    }
  }

  // Voting it through.

  /** Ready for the next phase of `target`, with nothing finalized. */
  ghost predicate At(s: Local, target: nat, step: Step) {
    !s.journal.poisoned && s.round == target && s.step == step && s.finalized.None?
  }

  lemma PrevotesIt(ctx: Context, v: ValidatorId, s: Local, signed: set<VoteBody>, target: nat, block: Hash,
                   proof: Option<PrevoteCertificate>)
    requires Inv(ctx, v, s, signed) && Placed(ctx, s) && At(s, target, AwaitingProposal)
    requires proof.Some? ==>
               && Usable(proof.value) && proof.value.VerifyContext(ctx)
               && proof.value.Round() < target && proof.value.Block() == block
    requires Permitted(s.locked, Some(block), proof)
    ensures var (s', out) := React(ctx, v, s, CastPrevote(Some(Collector.HeaderFor(ctx, block)), proof, true, Written));
            At(s', target, Prevoted) && out == Some(BodyFor(ctx, v, target, Prevote, Some(block)))
  {
    IssueSucceeds(ctx, v, s, signed, Prevote, Some(block), s.locked);
  }

  lemma PrecommitsIt(ctx: Context, v: ValidatorId, s: Local, signed: set<VoteBody>, target: nat,
                     proof: PrevoteCertificate)
    requires Inv(ctx, v, s, signed) && Placed(ctx, s) && At(s, target, Prevoted)
    requires Usable(proof) && proof.VerifyContext(ctx) && proof.Round() == target
    ensures var block := proof.Block();
            var (s', out) := React(ctx, v, s, CastPrecommit(Collector.HeaderFor(ctx, block), proof, true, Written));
            At(s', target, Precommitted) && out == Some(BodyFor(ctx, v, target, Precommit, Some(block)))
  {
    IssueSucceeds(ctx, v, s, signed, Precommit, Some(proof.Block()), Some(Lock(target, proof.Block())));
  }

  lemma PrevoteRound(ctx: Context, faulty: set<ValidatorId>, w: World, target: nat, block: Hash,
                     proof: Option<PrevoteCertificate>) returns (plan: seq<Action>, w': World)
    requires ctx.Valid() && Good(ctx, faulty, w) && Weight(ctx.members, w.locals.Keys) >= ctx.Quorum()
    requires forall v | v in w.locals :: At(w.locals[v], target, AwaitingProposal)
    requires Supported(ctx, w, target, block, proof)
    ensures Leads(ctx, w, plan, w') && w'.locals.Keys == w.locals.Keys
    ensures forall v | v in w'.locals :: At(w'.locals[v], target, Prevoted)
    ensures HasQuorum(w'.signed, ctx, Slot(Prevote, target, block))
  {
    hide Inv;
    hide React;
    hide HasQuorum;
    hide Placed;
    var e := CastPrevote(Some(Collector.HeaderFor(ctx, block)), proof, true, Written);
    plan, w' := Sweep(ctx, w, e, w.locals.Keys);
    forall v | v in w.locals
      ensures At(w'.locals[v], target, Prevoted)
      ensures BodyFor(ctx, v, target, Prevote, Some(block)) in w'.signed
    {
      PrevotesIt(ctx, v, w.locals[v], w.signed, target, block, proof);
    }
    AllSigned(ctx, faulty, w', Slot(Prevote, target, block));
  }

  lemma PrecommitRound(ctx: Context, faulty: set<ValidatorId>, w: World, target: nat, block: Hash)
    returns (plan: seq<Action>, w': World)
    requires ctx.Valid() && Good(ctx, faulty, w) && Weight(ctx.members, w.locals.Keys) >= ctx.Quorum()
    requires forall v | v in w.locals :: At(w.locals[v], target, Prevoted)
    requires HasQuorum(w.signed, ctx, Slot(Prevote, target, block))
    ensures Leads(ctx, w, plan, w') && w'.locals.Keys == w.locals.Keys
    ensures HasQuorum(w'.signed, ctx, Slot(Precommit, target, block))
  {
    hide Inv;
    hide React;
    hide HasQuorum;
    hide Placed;
    var proof := ProofOfQuorum(ctx, w.signed, target, block);
    var e := CastPrecommit(Collector.HeaderFor(ctx, block), proof, true, Written);
    plan, w' := Sweep(ctx, w, e, w.locals.Keys);
    forall v | v in w.locals
      ensures BodyFor(ctx, v, target, Precommit, Some(block)) in w'.signed
    {
      PrecommitsIt(ctx, v, w.locals[v], w.signed, target, proof);
    }
    AllSigned(ctx, faulty, w', Slot(Precommit, target, block));
  }

  /** Every honest voter has finalized `block`, and signed votes form a certificate for it that all accept. */
  ghost predicate Decided(ctx: Context, w: World, block: Hash, c: FinalityCertificate) {
    && (forall v | v in w.locals :: w.locals[v].finalized == Some(block))
    && c.block == block && CertificateDecision(ctx, c, Collector.HeaderFor(ctx, block)).Ok?
    && Backed(w.signed, CertificateVotes(c))
  }

  /** Once a precommit quorum exists, its certificate takes every honest voter to the end of the height. */
  lemma Decide(ctx: Context, faulty: set<ValidatorId>, w: World, round: nat, block: Hash)
    returns (plan: seq<Action>, w': World, c: FinalityCertificate)
    requires ctx.Valid() && Good(ctx, faulty, w) && 3 * Weight(ctx.members, faulty) <= Total(ctx.members)
    requires HasQuorum(w.signed, ctx, Slot(Precommit, round, block))
    ensures Leads(ctx, w, plan, w') && Decided(ctx, w', block, c) && c.round == round
  {
    hide HasQuorum;
    hide Inv;
    hide React;
    hide Placed;
    hide CertificateDecision;
    c := CertificateOfQuorum(ctx, w.signed, round, block);
    var e := Finalize(Collector.HeaderFor(ctx, block), c, true);
    plan, w' := Sweep(ctx, w, e, w.locals.Keys);
    forall v | v in w.locals
      ensures w'.locals[v].finalized == Some(block)
    {
      if w.locals[v].finalized.Some? {
        var r := FinalizedHasQuorum(ctx, v, w.locals[v], w.signed);
        PrecommitQuorumsAgree(ctx, faulty, w, round, block, r, w.locals[v].finalized.value);
      }
      FinalizesIt(ctx, v, w.locals[v], block, c);
    }
  }

  lemma FinalizedHasQuorum(ctx: Context, v: ValidatorId, s: Local, signed: set<VoteBody>) returns (r: nat)
    requires Inv(ctx, v, s, signed) && s.finalized.Some?
    ensures HasQuorum(signed, ctx, Slot(Precommit, r, s.finalized.value))
  {
    hide HasQuorum;
    r :| HasQuorum(signed, ctx, Slot(Precommit, r, s.finalized.value));
  }

  lemma FinalizesIt(ctx: Context, v: ValidatorId, s: Local, block: Hash, c: FinalityCertificate)
    requires c.block == block && CertificateDecision(ctx, c, Collector.HeaderFor(ctx, block)).Ok?
    requires s.finalized.Some? ==> s.finalized.value == block
    ensures React(ctx, v, s, Finalize(Collector.HeaderFor(ctx, block), c, true)).0.finalized == Some(block)
  {
    hide CertificateDecision;
  }

  /** From the start of a common round, a supported block is prevoted, precommitted and finalized by all. */
  lemma VoteThrough(ctx: Context, faulty: set<ValidatorId>, w: World, target: nat, block: Hash,
                    proof: Option<PrevoteCertificate>) returns (plan: seq<Action>, w': World, c: FinalityCertificate)
    requires ctx.Valid() && Good(ctx, faulty, w) && Weight(ctx.members, w.locals.Keys) >= ctx.Quorum()
    requires forall v | v in w.locals :: At(w.locals[v], target, AwaitingProposal)
    requires Supported(ctx, w, target, block, proof)
    ensures Leads(ctx, w, plan, w') && Decided(ctx, w', block, c) && c.round == target
  {
    HonestQuorumBoundsFaults(ctx, faulty);
    hide Leads;
    hide Inv;
    hide Placed;
    hide HasQuorum;
    hide Weight;
    hide Decided;
    hide Supported;
    var prevotes, w1 := PrevoteRound(ctx, faulty, w, target, block, proof);
    PlansKeepGood(ctx, faulty, w, prevotes, w1);
    var precommits, w2 := PrecommitRound(ctx, faulty, w1, target, block);
    PlansKeepGood(ctx, faulty, w1, precommits, w2);
    var decisions;
    decisions, w', c := Decide(ctx, faulty, w2, target, block);
    LeadsOn(ctx, w, prevotes, w1, precommits, w2);
    plan := prevotes + precommits + decisions;
    LeadsOn(ctx, w, prevotes + precommits, w2, decisions, w');
  }

  lemma PastIsAt(ctx: Context, faulty: set<ValidatorId>, w: World, target: nat)
    requires Good(ctx, faulty, w) && AllPast(ctx, w, target, 0, target)
    ensures forall v | v in w.locals :: At(w.locals[v], target, AwaitingProposal)
    ensures forall v | v in w.locals :: w.locals[v].locked == LockOf(ctx, w.locals[v].journal.disk)
  {
    hide Inv;
    forall v | v in w.locals
      ensures At(w.locals[v], target, AwaitingProposal)
      ensures w.locals[v].locked == LockOf(ctx, w.locals[v].journal.disk)
    {
      InvFields(ctx, v, w.locals[v], w.signed);
    }
  }

  lemma {:induction false} HighestRound(locals: map<ValidatorId, Local>, todo: set<ValidatorId>, limit: nat)
    returns (r: nat)
    requires todo <= locals.Keys && 0 < limit && forall v | v in todo :: locals[v].round < limit
    ensures r < limit && forall v | v in todo :: locals[v].round <= r
    ensures todo != {} ==> exists v :: v in todo && locals[v].round == r
    decreases |todo|
  {
    if todo == {} {
      r := 0;
    } else {
      var v :| v in todo;
      r := HighestRound(locals, todo - {v}, limit);
      if r < locals[v].round || todo - {v} == {} {
        r := locals[v].round;
      }
    }
  }

  lemma Completes(ctx: Context, faulty: set<ValidatorId>, w: World, proposed: Hash)
    returns (plan: seq<Action>, w': World, block: Hash, c: FinalityCertificate)
    requires ctx.Valid() && Good(ctx, faulty, w) && Weight(ctx.members, w.locals.Keys) >= ctx.Quorum()
    requires forall v | v in w.locals :: w.locals[v].round < U32_MAX
    ensures Leads(ctx, w, plan, w') && Decided(ctx, w', block, c)
    ensures (forall v | v in w.locals :: w.locals[v].finalized.None? && LockOf(ctx, w.locals[v].journal.disk).None?)
            ==> block == proposed
  {
    hide Leads;
    hide Inv;
    hide Placed;
    hide HasQuorum;
    hide Decided;
    hide LockOf;
    hide Weight;
    hide Past;
    hide Supported;
    if v :| v in w.locals && w.locals[v].finalized.Some? {
      HonestQuorumBoundsFaults(ctx, faulty);
      var r := FinalizedHasQuorum(ctx, v, w.locals[v], w.signed);
      block := w.locals[v].finalized.value;
      plan, w', c := Decide(ctx, faulty, w, r, block);
    } else {
      var highest := HighestRound(w.locals, w.locals.Keys, U32_MAX);
      var gathering, w1 := Gather(ctx, faulty, w, highest + 1);
      PlansKeepGood(ctx, faulty, w, gathering, w1);
      PastIsAt(ctx, faulty, w1, highest + 1);
      HonestQuorumBoundsFaults(ctx, faulty);
      var proof;
      block, proof := Choose(ctx, faulty, w1, highest + 1, proposed);
      var votes;
      votes, w', c := VoteThrough(ctx, faulty, w1, highest + 1, block, proof);
      plan := gathering + votes;
      LeadsOn(ctx, w, gathering, w1, votes, w');
    }
  }

  lemma {:induction false} PlanExtendsRun(ctx: Context, faulty: set<ValidatorId>, run: seq<World>,
                                          actions: seq<Action>, plan: seq<Action>, w': World) returns (more: seq<World>)
    requires IsRun(ctx, faulty, run, actions) && Leads(ctx, run[|run| - 1], plan, w')
    ensures |more| == |plan| && IsRun(ctx, faulty, run + more, actions + plan)
    ensures (run + more)[|run + more| - 1] == w' && forall a | a in plan :: a.Honest?
    decreases |plan|
  {
    hide Agreement.Step;
    if plan == [] {
      more := [];
      assert run + more == run && actions + plan == actions;
    } else {
      var last := run[|run| - 1];
      var next :| Agreement.Step(ctx, last, plan[0], next) && Leads(ctx, next, plan[1..], w');
      var rest := PlanExtendsRun(ctx, faulty, run + [next], actions + [plan[0]], plan[1..], w');
      more := [next] + rest;
      assert run + more == run + [next] + rest && actions + plan == actions + [plan[0]] + plan[1..];
    }
  }

  /**
   * Every run of a height can be completed by its honest members alone: whatever was signed, locked, lost or
   * left in doubt so far, if they hold a quorum and none has used up its rounds, some continuation of honest
   * actions makes all of them finalize one block under one accepted certificate. While nobody is locked, that
   * block can be any.
   */
  lemma HeightCanComplete(ctx: Context, faulty: set<ValidatorId>, run: seq<World>, actions: seq<Action>, proposed: Hash)
    returns (more: seq<World>, plan: seq<Action>, block: Hash, c: FinalityCertificate)
    requires ctx.Valid() && IsRun(ctx, faulty, run, actions)
    requires Weight(ctx.members, Ids(ctx.members) - faulty) >= ctx.Quorum()
    requires var locals := run[|run| - 1].locals; forall v | v in locals :: locals[v].round < U32_MAX
    ensures |more| == |plan| && IsRun(ctx, faulty, run + more, actions + plan)
    ensures forall a | a in plan :: a.Honest?
    ensures Decided(ctx, (run + more)[|run + more| - 1], block, c)
    ensures var locals := run[|run| - 1].locals;
            (forall v | v in locals :: locals[v].finalized.None? && LockOf(ctx, locals[v].journal.disk).None?)
            ==> block == proposed
  {
    hide Leads;
    hide Inv;
    hide Placed;
    hide Weight;
    hide Decided;
    hide LockOf;
    var last := run[|run| - 1];
    ReachableGood(ctx, faulty, run, actions, |run| - 1);
    var w';
    plan, w', block, c := Completes(ctx, faulty, last, proposed);
    more := PlanExtendsRun(ctx, faulty, run, actions, plan, w');
  }
}
