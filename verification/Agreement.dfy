/** Whole runs of one height: honest voters, anything from the others, and agreement on finalized blocks. */
module Agreement {

  import opened Wrappers
  import opened Weights
  import opened Committee
  import opened Certificates
  import opened Signer
  import opened Voting
  import opened ValidatorRuns

  /** Local states of the honest members and every vote body that carries a valid signature so far. */
  datatype World = World(locals: map<ValidatorId, Local>, signed: set<VoteBody>)

  /** An honest voter handles one event, or somebody else signs any vote at all. */
  datatype Action = Honest(voter: ValidatorId, event: Event) | Other(vote: VoteBody)

  /** A journal that has never signed at this height. */
  ghost predicate Unused(ctx: Context, j: Journal) {
    && !j.poisoned && j.memory == j.disk
    && (j.disk.Some? ==> j.disk.value.position.height < ctx.height)
  }

  /** A voter as it comes out of `Open` at the start of the height. */
  ghost predicate Opened(ctx: Context, v: ValidatorId, s: Local) {
    Unused(ctx, s.journal) && Resume(ctx, v, s.journal.origin.genesis, s.journal) == Ok(s)
  }

  ghost predicate Init(ctx: Context, faulty: set<ValidatorId>, w: World) {
    && w.locals.Keys == Ids(ctx.members) - faulty
    && (forall b | b in w.signed :: b.voter !in w.locals)
    && (forall v | v in w.locals :: Opened(ctx, v, w.locals[v]))
  }

  ghost predicate Step(ctx: Context, w: World, a: Action, w': World) {
    match a
    case Honest(v, e) =>
      && v in w.locals && WellFormed(e) && ProofsBacked(w.signed, e)
      && var (s, out) := React(ctx, v, w.locals[v], e);
         w' == World(w.locals[v := s], if out.Some? then w.signed + {out.value} else w.signed)
    case Other(b) => b.voter !in w.locals && w' == w.(signed := w.signed + {b})
  }

  ghost predicate IsRun(ctx: Context, faulty: set<ValidatorId>, run: seq<World>, actions: seq<Action>) {
    && |run| == |actions| + 1
    && Init(ctx, faulty, run[0])
    && forall i | 0 <= i < |actions| :: Step(ctx, run[i], actions[i], run[i + 1])
  }

  ghost predicate WorldInv(ctx: Context, faulty: set<ValidatorId>, w: World) {
    && w.locals.Keys == Ids(ctx.members) - faulty
    && forall v | v in w.locals :: Inv(ctx, v, w.locals[v], w.signed)
  }

  lemma InitEstablishes(ctx: Context, faulty: set<ValidatorId>, w: World)
    requires Init(ctx, faulty, w)
    ensures WorldInv(ctx, faulty, w)
  {
    forall v | v in w.locals
      ensures Inv(ctx, v, w.locals[v], w.signed)
    {
      assert Unused(ctx, w.locals[v].journal);
    }
  }

  lemma StepPreserves(ctx: Context, faulty: set<ValidatorId>, w: World, a: Action, w': World)
    requires ctx.Valid() && WorldInv(ctx, faulty, w) && Step(ctx, w, a, w')
    ensures WorldInv(ctx, faulty, w')
  {
    hide Inv;
    hide React;
    StepGrows(ctx, w, a, w');
    if a.Honest? {
      ReactKeepsInv(ctx, a.voter, w.locals[a.voter], w.signed, a.event);
      OnlyOwnVotes(ctx, a.voter, w.locals[a.voter], a.event);
    }
    forall v | v in w'.locals && (a.Other? || v != a.voter)
      ensures Inv(ctx, v, w'.locals[v], w'.signed)
    {
      InvSurvivesOthers(ctx, v, w.locals[v], w.signed, w'.signed);
    }
  }

  lemma StepGrows(ctx: Context, w: World, a: Action, w': World)
    requires Step(ctx, w, a, w')
    ensures w.signed <= w'.signed
  {
  }

  lemma StepAdvancesLock(ctx: Context, w: World, a: Action, w': World, v: ValidatorId)
    requires v in w.locals && Inv(ctx, v, w.locals[v], w.signed) && Step(ctx, w, a, w')
    ensures v in w'.locals
    ensures LockAdvances(LockOf(ctx, w.locals[v].journal.disk), LockOf(ctx, w'.locals[v].journal.disk))
  {
    if a.Honest? && a.voter == v {
      ReactAdvancesLock(ctx, v, w.locals[v], a.event);
    }
  }

  lemma OnlyOwnVotes(ctx: Context, v: ValidatorId, s: Local, e: Event)
    requires WellFormed(e)
    ensures var out := React(ctx, v, s, e).1; out.Some? ==> out.value.voter == v
  {
  }

  /** Every reachable world satisfies the invariant, and signatures are never withdrawn. */
  lemma {:induction false} ReachableInv(ctx: Context, faulty: set<ValidatorId>, run: seq<World>, actions: seq<Action>,
                                        i: nat)
    requires ctx.Valid() && IsRun(ctx, faulty, run, actions) && i < |run|
    ensures WorldInv(ctx, faulty, run[i])
  {
    if i == 0 {
      InitEstablishes(ctx, faulty, run[0]);
    } else {
      ReachableInv(ctx, faulty, run, actions, i - 1);
      StepPreserves(ctx, faulty, run[i - 1], actions[i - 1], run[i]);
    }
  }

  /** An honest member that signed in both quorums. */
  lemma CommonHonestVoter(ctx: Context, faulty: set<ValidatorId>, w: World, a: Slot, b: Slot) returns (v: ValidatorId)
    requires ctx.Valid() && 3 * Weight(ctx.members, faulty) <= Total(ctx.members) && WorldInv(ctx, faulty, w)
    requires HasQuorum(w.signed, ctx, a) && HasQuorum(w.signed, ctx, b)
    ensures v in w.locals
    ensures BodyFor(ctx, v, a.round, a.phase, Some(a.block)) in w.signed
    ensures BodyFor(ctx, v, b.round, b.phase, Some(b.block)) in w.signed
  {
    v := HonestInBothQuorums(ctx.members, faulty, VotersFor(w.signed, ctx, a), VotersFor(w.signed, ctx, b));
  }

  /**
   * Once a quorum has precommitted a block in round `r`, no prevote quorum for
   * another block exists in that round or any later one.
   */
  lemma {:induction false} LockedValueWins(ctx: Context, faulty: set<ValidatorId>, w: World, r: nat, block: Hash,
                                           r': nat, other: Hash)
    requires ctx.Valid() && 3 * Weight(ctx.members, faulty) <= Total(ctx.members) && WorldInv(ctx, faulty, w)
    requires r <= r'
    requires HasQuorum(w.signed, ctx, Slot(Precommit, r, block))
    requires HasQuorum(w.signed, ctx, Slot(Prevote, r', other))
    ensures block == other
    decreases r'
  {
    var v := CommonHonestVoter(ctx, faulty, w, Slot(Precommit, r, block), Slot(Prevote, r', other));
    var x := BodyFor(ctx, v, r, Precommit, Some(block));
    var y := BodyFor(ctx, v, r', Prevote, Some(other));
    hide Weight;
    hide Total;
    if r == r' {
      KeptPrecommit(ctx, faulty, w, v, x);
      var u := CommonHonestVoter(ctx, faulty, w, Slot(Prevote, r, block), Slot(Prevote, r, other));
      OneVote(ctx, faulty, w, BodyFor(ctx, u, r, Prevote, Some(block)), BodyFor(ctx, u, r, Prevote, Some(other)));
    } else if block != other {
      var q := Switched(ctx, faulty, w, x, y);
      LockedValueWins(ctx, faulty, w, r, block, q, other);
    }
  }

  /** An honest precommit rests on a prevote quorum of its own round. */
  lemma KeptPrecommit(ctx: Context, faulty: set<ValidatorId>, w: World, v: ValidatorId, x: VoteBody)
    requires WorldInv(ctx, faulty, w) && v in w.locals && x in w.signed
    requires x == BodyFor(ctx, v, x.round, Precommit, x.block) && x.block.Some?
    ensures HasQuorum(w.signed, ctx, Slot(Prevote, x.round, x.block.value))
  {
    assert Inv(ctx, v, w.locals[v], w.signed);
    assert PrecommitKept(ctx, w.signed, w.locals[v].journal.disk, x);
  }

  lemma OneVote(ctx: Context, faulty: set<ValidatorId>, w: World, x: VoteBody, y: VoteBody)
    requires WorldInv(ctx, faulty, w) && x in w.signed && y in w.signed
    requires x.voter == y.voter && x.voter in w.locals && x.round == y.round && x.phase == y.phase
    ensures x == y
  {
    assert Inv(ctx, x.voter, w.locals[x.voter], w.signed);
  }

  /** An honest voter that precommitted one block and later prevoted another saw a quorum in between. */
  lemma Switched(ctx: Context, faulty: set<ValidatorId>, w: World, x: VoteBody, y: VoteBody) returns (q: nat)
    requires WorldInv(ctx, faulty, w) && x in w.signed && y in w.signed && x.voter == y.voter && x.voter in w.locals
    requires x.phase == Precommit && x.block.Some? && y.phase == Prevote && y.block.Some?
    requires x.round < y.round && x.block != y.block
    ensures x.round < q < y.round && HasQuorum(w.signed, ctx, Slot(Prevote, q, y.block.value))
  {
    hide HasQuorum;
    hide VoteRecorded;
    hide PrecommitKept;
    hide RecordOk;
    hide FieldsOk;
    assert Inv(ctx, x.voter, w.locals[x.voter], w.signed);
    assert SwitchJustified(ctx, w.signed, x, y);
    q :| x.round < q < y.round && HasQuorum(w.signed, ctx, Slot(Prevote, q, y.block.value));
  }

  /** No two precommit quorums, from whatever rounds, name different blocks. */
  lemma PrecommitQuorumsAgree(ctx: Context, faulty: set<ValidatorId>, w: World, r1: nat, b1: Hash, r2: nat, b2: Hash)
    requires ctx.Valid() && 3 * Weight(ctx.members, faulty) <= Total(ctx.members) && WorldInv(ctx, faulty, w)
    requires HasQuorum(w.signed, ctx, Slot(Precommit, r1, b1))
    requires HasQuorum(w.signed, ctx, Slot(Precommit, r2, b2))
    ensures b1 == b2
  {
    var (lo, lowBlock, hi, highBlock) := if r1 <= r2 then (r1, b1, r2, b2) else (r2, b2, r1, b1);
    var v := CommonHonestVoter(ctx, faulty, w, Slot(Precommit, hi, highBlock), Slot(Precommit, hi, highBlock));
    assert Inv(ctx, v, w.locals[v], w.signed);
    assert PrecommitKept(ctx, w.signed, w.locals[v].journal.disk, BodyFor(ctx, v, hi, Precommit, Some(highBlock)));
    LockedValueWins(ctx, faulty, w, lo, lowBlock, hi, highBlock);
  }

  /**
   * Agreement over every run of a height: with at most one third of the power
   * faulty, two accepted finality certificates name the same block.
   */
  lemma CertificatesAgree(ctx: Context, faulty: set<ValidatorId>, run: seq<World>, actions: seq<Action>, i: nat, j: nat,
                          c1: FinalityCertificate, h1: Header, c2: FinalityCertificate, h2: Header)
    requires ctx.Valid() && 3 * Weight(ctx.members, faulty) <= Total(ctx.members)
    requires IsRun(ctx, faulty, run, actions) && i < |run| && j < |run|
    requires CertificateDecision(ctx, c1, h1).Ok? && Backed(run[i].signed, CertificateVotes(c1))
    requires CertificateDecision(ctx, c2, h2).Ok? && Backed(run[j].signed, CertificateVotes(c2))
    ensures c1.block == c2.block
  {
    var last := |run| - 1;
    ReachableInv(ctx, faulty, run, actions, last);
    SignaturesStay(ctx, faulty, run, actions, i, last);
    SignaturesStay(ctx, faulty, run, actions, j, last);
    CertificateMeaning(ctx, c1, h1);
    CertificateMeaning(ctx, c2, h2);
    CertifiedSlotHasQuorum(ctx, run[last].signed, CertificateVotes(c1), Slot(Precommit, c1.round, c1.block));
    CertifiedSlotHasQuorum(ctx, run[last].signed, CertificateVotes(c2), Slot(Precommit, c2.round, c2.block));
    PrecommitQuorumsAgree(ctx, faulty, run[last], c1.round, c1.block, c2.round, c2.block);
  }

  lemma {:induction false} SignaturesStay(ctx: Context, faulty: set<ValidatorId>, run: seq<World>,
                                          actions: seq<Action>, i: nat, j: nat)
    requires ctx.Valid() && IsRun(ctx, faulty, run, actions) && i <= j < |run|
    ensures run[i].signed <= run[j].signed
    decreases j
  {
    if i < j {
      SignaturesStay(ctx, faulty, run, actions, i, j - 1);
      StepGrows(ctx, run[j - 1], actions[j - 1], run[j]);
    }
  }

  /** No two honest validators, at any two moments of a run, have finalized different blocks. */
  lemma FinalizedBlocksAgree(ctx: Context, faulty: set<ValidatorId>, run: seq<World>, actions: seq<Action>,
                             i: nat, u: ValidatorId, j: nat, v: ValidatorId)
    requires ctx.Valid() && 3 * Weight(ctx.members, faulty) <= Total(ctx.members)
    requires IsRun(ctx, faulty, run, actions) && i < |run| && j < |run|
    requires u in run[i].locals && run[i].locals[u].finalized.Some?
    requires v in run[j].locals && run[j].locals[v].finalized.Some?
    ensures run[i].locals[u].finalized == run[j].locals[v].finalized
  {
    var last := |run| - 1;
    ReachableInv(ctx, faulty, run, actions, i);
    ReachableInv(ctx, faulty, run, actions, j);
    ReachableInv(ctx, faulty, run, actions, last);
    SignaturesStay(ctx, faulty, run, actions, i, last);
    SignaturesStay(ctx, faulty, run, actions, j, last);
    var b1, b2 := run[i].locals[u].finalized.value, run[j].locals[v].finalized.value;
    assert Inv(ctx, u, run[i].locals[u], run[i].signed) && Inv(ctx, v, run[j].locals[v], run[j].signed);
    var r1 :| HasQuorum(run[i].signed, ctx, Slot(Precommit, r1, b1));
    var r2 :| HasQuorum(run[j].signed, ctx, Slot(Precommit, r2, b2));
    QuorumsPersist(run[i].signed, run[last].signed, ctx, Slot(Precommit, r1, b1));
    QuorumsPersist(run[j].signed, run[last].signed, ctx, Slot(Precommit, r2, b2));
    PrecommitQuorumsAgree(ctx, faulty, run[last], r1, b1, r2, b2);
  }

  // Every run of one honest validator, crashes included, whatever the power of the faulty ones.

  /** Two votes signed for one round and phase are the same vote. */
  lemma NeverEquivocates(ctx: Context, faulty: set<ValidatorId>, run: seq<World>, actions: seq<Action>,
                         i: nat, j: nat, x: VoteBody, y: VoteBody)
    requires ctx.Valid() && IsRun(ctx, faulty, run, actions) && i < |run| && j < |run|
    requires x in run[i].signed && y in run[j].signed
    requires x.voter == y.voter && x.voter in Ids(ctx.members) - faulty
    requires x.round == y.round && x.phase == y.phase
    ensures x == y
  {
    var last := |run| - 1;
    SignaturesStay(ctx, faulty, run, actions, i, last);
    SignaturesStay(ctx, faulty, run, actions, j, last);
    ReachableInv(ctx, faulty, run, actions, last);
    assert Inv(ctx, x.voter, run[last].locals[x.voter], run[last].signed);
  }

  /** The durable lock of a validator only moves to later rounds. */
  lemma {:induction false} LockNeverRegresses(ctx: Context, faulty: set<ValidatorId>, run: seq<World>,
                                              actions: seq<Action>, i: nat, j: nat, v: ValidatorId)
    requires ctx.Valid() && IsRun(ctx, faulty, run, actions) && i <= j < |run| && v in Ids(ctx.members) - faulty
    ensures v in run[i].locals && v in run[j].locals
    ensures LockAdvances(LockOf(ctx, run[i].locals[v].journal.disk), LockOf(ctx, run[j].locals[v].journal.disk))
    decreases j
  {
    hide Inv;
    hide Step;
    hide Init;
    hide LockOf;
    ReachableInv(ctx, faulty, run, actions, i);
    ReachableInv(ctx, faulty, run, actions, j);
    if i < j {
      LockNeverRegresses(ctx, faulty, run, actions, i, j - 1, v);
      ReachableInv(ctx, faulty, run, actions, j - 1);
      StepAdvancesLock(ctx, run[j - 1], actions[j - 1], run[j], v);
    }
  }

  /** A validator only ever locks a block that a prevote quorum backed in the lock's own round. */
  lemma LocksAreCertified(ctx: Context, faulty: set<ValidatorId>, run: seq<World>, actions: seq<Action>, i: nat,
                          v: ValidatorId)
    requires ctx.Valid() && IsRun(ctx, faulty, run, actions) && i < |run| && v in Ids(ctx.members) - faulty
    ensures v in run[i].locals
    ensures var lock := run[i].locals[v].locked;
            lock.Some? ==> HasQuorum(run[i].signed, ctx, Slot(Prevote, lock.value.round, lock.value.block))
    ensures var lock := LockOf(ctx, run[i].locals[v].journal.disk);
            lock.Some? ==> HasQuorum(run[i].signed, ctx, Slot(Prevote, lock.value.round, lock.value.block))
  {
    ReachableInv(ctx, faulty, run, actions, i);
    assert Inv(ctx, v, run[i].locals[v], run[i].signed);
  }

  /** A restart at any moment of a run brings back exactly the durable lock, round and phase. */
  lemma RestartsAreExact(ctx: Context, faulty: set<ValidatorId>, run: seq<World>, actions: seq<Action>, i: nat,
                         v: ValidatorId)
    requires ctx.Valid() && IsRun(ctx, faulty, run, actions) && i < |actions|
    requires actions[i] == Honest(v, Restart)
    ensures v in run[i].locals && v in run[i + 1].locals
    ensures var disk, s := run[i].locals[v].journal.disk, run[i + 1].locals[v];
            && s.locked == LockOf(ctx, disk) && s.journal == Reopened(run[i].locals[v].journal)
            && s.round == (if AtHeight(ctx, disk) then disk.value.position.round else 0)
            && (s.step == Precommitted <==> AtHeight(ctx, disk) && disk.value.position.phase == PRECOMMIT_PHASE)
            && (s.step == Prevoted <==> AtHeight(ctx, disk) && disk.value.position.phase == PREVOTE_PHASE)
  {
    assert Step(ctx, run[i], actions[i], run[i + 1]);
    ReachableInv(ctx, faulty, run, actions, i);
    RestartRestoresDurableState(ctx, v, run[i].locals[v], run[i].signed);
  }
}
