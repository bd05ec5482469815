/** Nothing is voted for, proposed or finalized that an honest member has not validated. */
module Validity {

  import opened Wrappers
  import opened Weights
  import opened Committee
  import opened Certificates
  import opened Signer
  import opened Voting
  import opened ValidatorRuns
  import opened Agreement
  import opened Progress

  /** A header for `block`, of this height and this committee, that passed local validation. */
  ghost predicate Checked(ctx: Context, header: Header, valid: bool, block: Hash) {
    header.hash == block && header.height == ctx.height && header.root == ctx.Root() && valid
  }

  /** Handling this event, the voter has validated `block`. */
  ghost predicate Validates(ctx: Context, e: Event, block: Hash) {
    match e
    case Propose(_, proposed, _, valid, _) => Checked(ctx, proposed, valid, block)
    case CastPrevote(header, _, valid, _) => header.Some? && Checked(ctx, header.value, valid, block)
    case CastPrecommit(header, _, valid, _) => Checked(ctx, header, valid, block)
    case Finalize(decided, _, valid) => Checked(ctx, decided, valid, block)
    case _ => false
  }

  /** The event that asks for a vote of this phase. */
  predicate Calls(e: Event, phase: Phase) {
    match phase case Prevote => e.CastPrevote? case Precommit => e.CastPrecommit?
  }

  // One event.

  lemma VoteWasValidated(ctx: Context, v: ValidatorId, s: Local, e: Event)
    requires WellFormed(e)
    ensures var out := React(ctx, v, s, e).1;
            out.Some? && out.value.block.Some? ==>
              out.value.voter == v && Calls(e, out.value.phase) && Validates(ctx, e, out.value.block.value)
  {
  }

  /** A value is finalized only by a `Finalize` event that validated it, and then stays until a restart. */
  lemma FinalizedWasValidated(ctx: Context, v: ValidatorId, s: Local, e: Event)
    requires WellFormed(e)
    ensures var s' := React(ctx, v, s, e).0;
            && (s'.finalized.Some? && s'.finalized != s.finalized ==>
                  e.Finalize? && Validates(ctx, e, s'.finalized.value))
            && (s.finalized.Some? && !e.Restart? ==> s'.finalized == s.finalized)
  {
    hide SerialTally;
    hide CertificateShape;
  }

  /**
   * What a waiting voter with a sound journal prevotes: the block it was given, if that was validated and
   * the lock lets it pass, and nothing otherwise. It always votes.
   */
  lemma PrevoteIsExact(ctx: Context, v: ValidatorId, s: Local, signed: set<VoteBody>, e: Event)
    requires Inv(ctx, v, s, signed) && Placed(ctx, s) && !s.journal.poisoned && s.step == AwaitingProposal
    requires e.CastPrevote? && e.outcome == Written && WellFormed(e)
    requires e.validRound.Some? ==>
               && e.validRound.value.VerifyContext(ctx) && e.validRound.value.Round() < s.round
               && e.header.Some? && e.header.value.hash == e.validRound.value.Block()
    ensures var (s', out) := React(ctx, v, s, e);
            && out.Some? && out.value.phase == Prevote && out.value.round == s.round && out.value.voter == v
            && s'.step == Prevoted && s'.round == s.round && s'.locked == s.locked
            && forall block :: out.value.block == Some(block) <==>
                 && Validates(ctx, e, block)
                 && (s.locked.Some? && s.locked.value.block != block ==>
                       e.validRound.Some? && s.locked.value.round < e.validRound.value.Round())
  {
    var valid := e.header.Some? && ValidHeader(ctx, e.header.value, e.valid);
    var block := if valid then Some(e.header.value.hash) else None;
    var chosen := if Permitted(s.locked, block, e.validRound) then block else None;
    IssueSucceeds(ctx, v, s, signed, Prevote, chosen, s.locked);
    hide Inv;
    hide Placed;
  }

  /** A proof that does not fit the event stops the vote and leaves the voter as it was. */
  lemma UnfitProofIsRefused(ctx: Context, v: ValidatorId, s: Local, e: Event)
    requires e.CastPrevote? && WellFormed(e) && e.validRound.Some?
    requires || !e.validRound.value.VerifyContext(ctx) || e.validRound.value.Round() >= s.round
             || e.header.None? || e.header.value.hash != e.validRound.value.Block()
    ensures React(ctx, v, s, e) == (s, None)
  {
  }

  /** A precommit is for the block certified in this round, validated again, and becomes the lock. */
  lemma PrecommitIsExact(ctx: Context, v: ValidatorId, s: Local, signed: set<VoteBody>, e: Event)
    requires Inv(ctx, v, s, signed) && Placed(ctx, s) && !s.journal.poisoned && s.step == Prevoted
    requires e.CastPrecommit? && e.outcome == Written && WellFormed(e)
    ensures var (s', out) := React(ctx, v, s, e);
            var proof := e.proof;
            if proof.VerifyContext(ctx) && proof.Round() == s.round && Validates(ctx, e, proof.Block()) then
              && out == Some(VoteBody(ctx.chainId, ctx.Root(), ctx.height, s.round, Precommit, Some(proof.Block()), v))
              && s'.locked == Some(Lock(s.round, proof.Block())) && s'.step == Precommitted && s'.round == s.round
            else (s', out) == (s, None)
  {
    IssueSucceeds(ctx, v, s, signed, Precommit, Some(e.proof.Block()), Some(Lock(s.round, e.proof.Block())));
    hide Inv;
    hide Placed;
  }

  /** A timeout that is not for the current round and step changes nothing. */
  lemma StaleTimeoutsAreIgnored(ctx: Context, v: ValidatorId, s: Local, rank: nat, round: nat)
    requires rank < 3 && (round != s.round || Rank(s.step) != rank)
    ensures React(ctx, v, s, Timeout(rank, round)) == (s, None)
  {
  }

  /** Votes out of step are refused as such, and leave the voter as it was. */
  lemma WrongStepIsRefused(ctx: Context, v: ValidatorId, s: Local, e: Event)
    requires WellFormed(e)
    ensures e.CastPrevote? && s.step != AwaitingProposal && s.step != Prevoted ==>
              DoPrevote(ctx, v, s, e.header, e.validRound, e.valid, e.outcome)
              == (s, Err(Consensus(InvalidTransition)))
    ensures e.CastPrecommit? && s.step != Prevoted && s.step != Precommitted ==>
              DoPrecommit(ctx, v, s, e.block, e.proof, e.valid, e.outcome) == (s, Err(Consensus(InvalidTransition)))
    ensures e.Propose? && (s.step != AwaitingProposal || v != e.expected) ==>
              DoPropose(ctx, v, s, e.expected, e.proposed, e.support, e.valid, e.outcome)
              == (s, Err(Consensus(InvalidTransition)))
  {
  }

  /** No event takes round or journal past the 32-bit ceiling. */
  ghost predicate InRange(ctx: Context, s: Local) {
    && s.round <= 0xFFFF_FFFF
    && (AtHeight(ctx, s.journal.disk) ==> s.journal.disk.value.position.round <= 0xFFFF_FFFF)
  }

  lemma ReactKeepsRange(ctx: Context, v: ValidatorId, s: Local, e: Event)
    requires FieldsOk(ctx, s) && InRange(ctx, s) && WellFormed(e)
    ensures InRange(ctx, React(ctx, v, s, e).0)
  {
    forall record: Record, outcome | record.position.round == s.round
      ensures InRange(ctx, s.(journal := Reserve(s.journal, record, outcome).0))
    {
    }
    hide Reserve;
    hide CertificateDecision;
  }

  // Whole runs.

  /** In every reachable world every honest round fits 32 bits; the counter never wraps. */
  lemma {:induction false} RoundsStayInRange(ctx: Context, faulty: set<ValidatorId>, run: seq<World>,
                                             actions: seq<Action>, i: nat, v: ValidatorId)
    requires ctx.Valid() && IsRun(ctx, faulty, run, actions) && i < |run| && v in run[i].locals
    ensures InRange(ctx, run[i].locals[v])
  {
    hide Inv;
    hide React;
    hide InRange;
    if i == 0 {
      StartsInRange(ctx, faulty, run[0], v);
    } else {
      var (a, w) := (actions[i - 1], run[i - 1]);
      assert Agreement.Step(ctx, w, a, run[i]);
      RoundsStayInRange(ctx, faulty, run, actions, i - 1, v);
      if a.Honest? && a.voter == v {
        ReachableInv(ctx, faulty, run, actions, i - 1);
        InvFields(ctx, v, w.locals[v], w.signed);
        ReactKeepsRange(ctx, v, w.locals[v], a.event);
      }
    }
  }

  lemma StartsInRange(ctx: Context, faulty: set<ValidatorId>, w: World, v: ValidatorId)
    requires Init(ctx, faulty, w) && v in w.locals
    ensures InRange(ctx, w.locals[v])
  {
    assert Opened(ctx, v, w.locals[v]);
  }

  /** Before moment `i` of the run, `v` handled an event asking for this vote and validated the block. */
  ghost predicate Vetted(ctx: Context, actions: seq<Action>, i: nat, v: ValidatorId, phase: Phase, block: Hash) {
    exists j :: 0 <= j < i && j < |actions| && VetsAt(ctx, actions[j], v, phase, block)
  }

  ghost predicate VetsAt(ctx: Context, a: Action, v: ValidatorId, phase: Phase, block: Hash) {
    a.Honest? && a.voter == v && Calls(a.event, phase) && Validates(ctx, a.event, block)
  }

  /** Every block vote that an honest voter ever released was for a block it had validated. */
  lemma {:induction false} VotesAreValidated(ctx: Context, faulty: set<ValidatorId>, run: seq<World>,
                                             actions: seq<Action>, i: nat, b: VoteBody)
    requires ctx.Valid() && IsRun(ctx, faulty, run, actions) && i < |run|
    requires b in run[i].signed && b.voter in run[i].locals && b.block.Some?
    ensures Vetted(ctx, actions, i, b.voter, b.phase, b.block.value)
  {
    hide Validates;
    hide React;
    if i > 0 {
      var a := actions[i - 1];
      assert Agreement.Step(ctx, run[i - 1], a, run[i]);
      if b in run[i - 1].signed {
        VotesAreValidated(ctx, faulty, run, actions, i - 1, b);
        var j :| 0 <= j < i - 1 && j < |actions| && VetsAt(ctx, actions[j], b.voter, b.phase, b.block.value);
      } else {
        VoteWasValidated(ctx, a.voter, run[i - 1].locals[a.voter], a.event);
        assert VetsAt(ctx, actions[i - 1], b.voter, b.phase, b.block.value);
      }
    }
  }

  /** Behind every quorum for a block stands an honest member that validated it for that vote. */
  lemma QuorumsAreValidated(ctx: Context, faulty: set<ValidatorId>, run: seq<World>, actions: seq<Action>, i: nat,
                            slot: Slot) returns (v: ValidatorId)
    requires ctx.Valid() && 3 * Weight(ctx.members, faulty) <= Total(ctx.members)
    requires IsRun(ctx, faulty, run, actions) && i < |run| && HasQuorum(run[i].signed, ctx, slot)
    ensures v in Ids(ctx.members) - faulty && Vetted(ctx, actions, i, v, slot.phase, slot.block)
  {
    ReachableInv(ctx, faulty, run, actions, i);
    v := CommonHonestVoter(ctx, faulty, run[i], slot, slot);
    VotesAreValidated(ctx, faulty, run, actions, i, BodyFor(ctx, v, slot.round, slot.phase, Some(slot.block)));
  }

  /** An accepted certificate names a block that an honest member validated before precommitting it. */
  lemma CertificatesAreValidated(ctx: Context, faulty: set<ValidatorId>, run: seq<World>, actions: seq<Action>, i: nat,
                                 c: FinalityCertificate, header: Header) returns (v: ValidatorId)
    requires ctx.Valid() && 3 * Weight(ctx.members, faulty) <= Total(ctx.members)
    requires IsRun(ctx, faulty, run, actions) && i < |run|
    requires CertificateDecision(ctx, c, header).Ok? && Backed(run[i].signed, CertificateVotes(c))
    ensures v in Ids(ctx.members) - faulty && Vetted(ctx, actions, i, v, Precommit, c.block)
  {
    CertificateMeaning(ctx, c, header);
    CertifiedSlotHasQuorum(ctx, run[i].signed, CertificateVotes(c), Slot(Precommit, c.round, c.block));
    v := QuorumsAreValidated(ctx, faulty, run, actions, i, Slot(Precommit, c.round, c.block));
  }

  /** `v` finalized `block` in an event in which it validated it. */
  ghost predicate Settled(ctx: Context, actions: seq<Action>, i: nat, v: ValidatorId, block: Hash) {
    exists j :: 0 <= j < i && j < |actions| && SettlesAt(ctx, actions[j], v, block)
  }

  ghost predicate SettlesAt(ctx: Context, a: Action, v: ValidatorId, block: Hash) {
    a.Honest? && a.voter == v && a.event.Finalize? && Validates(ctx, a.event, block)
  }

  lemma NothingFinalYet(ctx: Context, faulty: set<ValidatorId>, w: World, v: ValidatorId)
    requires Init(ctx, faulty, w) && v in w.locals
    ensures w.locals[v].finalized.None?
  {
    assert Opened(ctx, v, w.locals[v]);
  }

  /** Whatever the power of the faulty: what an honest voter holds as final it has validated itself. */
  lemma {:induction false} FinalizedIsValidated(ctx: Context, faulty: set<ValidatorId>, run: seq<World>,
                                                actions: seq<Action>, i: nat, v: ValidatorId)
    requires ctx.Valid() && IsRun(ctx, faulty, run, actions) && i < |run|
    requires v in run[i].locals && run[i].locals[v].finalized.Some?
    ensures Settled(ctx, actions, i, v, run[i].locals[v].finalized.value)
  {
    hide Validates;
    hide React;
    var block := run[i].locals[v].finalized.value;
    if i > 0 {
      var a := actions[i - 1];
      var (w, w') := (run[i - 1], run[i]);
      assert Agreement.Step(ctx, w, a, w');
      if a.Honest? && a.voter == v && w.locals[v].finalized != w'.locals[v].finalized {
        FinalizedWasValidated(ctx, v, w.locals[v], a.event);
        assert SettlesAt(ctx, actions[i - 1], v, block);
      } else {
        FinalizedIsValidated(ctx, faulty, run, actions, i - 1, v);
        var j :| 0 <= j < i - 1 && j < |actions| && SettlesAt(ctx, actions[j], v, block);
      }
    } else {
      NothingFinalYet(ctx, faulty, run[0], v);
    }
  }

  /** Whatever the power of the faulty: between restarts an honest voter never changes what it finalized. */
  lemma {:induction false} FinalizedStays(ctx: Context, faulty: set<ValidatorId>, run: seq<World>,
                                          actions: seq<Action>, i: nat, j: nat, v: ValidatorId)
    requires ctx.Valid() && IsRun(ctx, faulty, run, actions) && i <= j < |run|
    requires v in run[i].locals && run[i].locals[v].finalized.Some?
    requires forall k | i <= k < j :: actions[k] != Honest(v, Restart)
    ensures v in run[j].locals && run[j].locals[v].finalized == run[i].locals[v].finalized
    decreases j
  {
    hide Validates;
    hide React;
    if i < j {
      FinalizedStays(ctx, faulty, run, actions, i, j - 1, v);
      var a := actions[j - 1];
      assert Agreement.Step(ctx, run[j - 1], a, run[j]);
      if a.Honest? && a.voter == v {
        FinalizedWasValidated(ctx, v, run[j - 1].locals[v], a.event);
      }
    }
  }

  // Proposals.

  /** The proposal whose signature this event releases, if any. */
  ghost function Proposes(ctx: Context, v: ValidatorId, s: Local, e: Event): Option<ProposalBody>
    requires WellFormed(e)
  {
    if !e.Propose? then None
    else
      var r := DoPropose(ctx, v, s, e.expected, e.proposed, e.support, e.valid, e.outcome).1;
      if r.Ok? then Some(r.value.body) else None
  }

  /**
   * A signed proposal comes from the expected leader waiting in this round, for a block it validated. If it
   * departs from the leader's lock, or claims an earlier round at all, it rests on a prevote quorum.
   */
  lemma ProposalsAreJustified(ctx: Context, v: ValidatorId, s: Local, signed: set<VoteBody>, e: Event)
    requires ctx.Valid() && WellFormed(e) && ProofsBacked(signed, e) && Proposes(ctx, v, s, e).Some?
    ensures var p := Proposes(ctx, v, s, e).value;
            && v == e.expected == p.proposer && s.step == AwaitingProposal && p.round == s.round
            && p.chainId == ctx.chainId && p.genesis == s.journal.origin.genesis
            && p.root == ctx.Root() && p.height == ctx.height && Validates(ctx, e, p.block)
            && (p.validRound.Some? ==>
                  p.validRound.value < p.round && HasQuorum(signed, ctx, Slot(Prevote, p.validRound.value, p.block)))
            && (s.locked.Some? && s.locked.value.block != p.block ==>
                  p.validRound.Some? && s.locked.value.round < p.validRound.value)
  {
    hide HasQuorum;
    if e.support.Some? && e.support.value.VerifyContext(ctx) {
      ProofHasQuorum(ctx, signed, e.support.value);
    }
  }

  /** The later journal is at the earlier record or past it. */
  ghost predicate Continues(older: Option<Record>, newer: Option<Record>) {
    older.Some? ==>
      newer.Some? && !Before(newer.value.position, older.value.position)
      && (newer.value.position == older.value.position ==> newer == older)
  }

  lemma ContinuesOn(a: Option<Record>, b: Option<Record>, c: Option<Record>)
    requires Continues(a, b) && Continues(b, c)
    ensures Continues(a, c)
  {
  }

  lemma ReserveContinues(j: Journal, record: Record, outcome: WriteOutcome)
    requires !j.poisoned ==> j.memory == j.disk
    ensures Continues(j.disk, Reserve(j, record, outcome).0.disk)
  {
  }

  lemma ReactContinues(ctx: Context, v: ValidatorId, s: Local, e: Event)
    requires FieldsOk(ctx, s) && WellFormed(e)
    ensures Continues(s.journal.disk, React(ctx, v, s, e).0.journal.disk)
  {
    forall record: Record, outcome
      ensures Continues(s.journal.disk, Reserve(s.journal, record, outcome).0.disk)
    {
      ReserveContinues(s.journal, record, outcome);
    }
    hide Continues;
    hide Reserve;
    hide CertificateDecision;
  }

  /** Over a whole run the record on an honest voter's disk is never rewritten and never goes back. */
  lemma {:induction false} DiskContinues(ctx: Context, faulty: set<ValidatorId>, run: seq<World>, actions: seq<Action>,
                                         i: nat, j: nat, v: ValidatorId)
    requires ctx.Valid() && IsRun(ctx, faulty, run, actions) && i <= j < |run| && v in Ids(ctx.members) - faulty
    ensures v in run[i].locals && v in run[j].locals
    ensures Continues(run[i].locals[v].journal.disk, run[j].locals[v].journal.disk)
    decreases j
  {
    hide Inv;
    hide Agreement.Step;
    hide Init;
    hide Continues;
    ReachableInv(ctx, faulty, run, actions, i);
    ReachableInv(ctx, faulty, run, actions, j);
    if i < j {
      DiskContinues(ctx, faulty, run, actions, i, j - 1, v);
      ReachableInv(ctx, faulty, run, actions, j - 1);
      StepContinues(ctx, run[j - 1], actions[j - 1], run[j], v);
      ContinuesOn(run[i].locals[v].journal.disk, run[j - 1].locals[v].journal.disk, run[j].locals[v].journal.disk);
    } else {
      StaysPut(run[i].locals[v].journal.disk);
    }
  }

  lemma StaysPut(r: Option<Record>)
    ensures Continues(r, r)
  {
  }

  lemma StepContinues(ctx: Context, w: World, a: Action, w': World, v: ValidatorId)
    requires v in w.locals && Inv(ctx, v, w.locals[v], w.signed) && Agreement.Step(ctx, w, a, w')
    ensures v in w'.locals && Continues(w.locals[v].journal.disk, w'.locals[v].journal.disk)
  {
    hide Inv;
    hide React;
    if a.Honest? && a.voter == v {
      InvFields(ctx, v, w.locals[v], w.signed);
      ReactContinues(ctx, v, w.locals[v], a.event);
    }
  }

  /** After a proposal is released its record is on disk, and before it nothing later was. */
  lemma ProposalIsRecorded(ctx: Context, v: ValidatorId, s: Local, e: Event)
    requires FieldsOk(ctx, s) && WellFormed(e) && Proposes(ctx, v, s, e).Some?
    ensures var p := Proposes(ctx, v, s, e).value;
            var record := Record(Position(ctx.height, p.round, PROPOSAL_PHASE), ProposalDigest(p),
                                 Safety(ctx.Root(), s.locked));
            && React(ctx, v, s, e).0.journal.disk == Some(record)
            && Continues(s.journal.disk, Some(record))
  {
  }

  /** An honest leader signs at most one proposal per round, through crashes and failed writes. */
  lemma OneProposalPerRound(ctx: Context, faulty: set<ValidatorId>, run: seq<World>, actions: seq<Action>,
                            i: nat, j: nat, v: ValidatorId, e: Event, f: Event)
    requires ctx.Valid() && IsRun(ctx, faulty, run, actions) && i <= j < |actions|
    requires actions[i] == Honest(v, e) && actions[j] == Honest(v, f)
    requires v in run[i].locals && WellFormed(e) && Proposes(ctx, v, run[i].locals[v], e).Some?
    requires v in run[j].locals && WellFormed(f) && Proposes(ctx, v, run[j].locals[v], f).Some?
    requires Proposes(ctx, v, run[i].locals[v], e).value.round == Proposes(ctx, v, run[j].locals[v], f).value.round
    ensures Proposes(ctx, v, run[i].locals[v], e) == Proposes(ctx, v, run[j].locals[v], f)
  {
    hide Inv;
    hide React;
    hide Proposes;
    if i < j {
      ReachableInv(ctx, faulty, run, actions, i);
      ReachableInv(ctx, faulty, run, actions, j);
      InvFields(ctx, v, run[i].locals[v], run[i].signed);
      InvFields(ctx, v, run[j].locals[v], run[j].signed);
      assert Agreement.Step(ctx, run[i], actions[i], run[i + 1]);
      ProposalIsRecorded(ctx, v, run[i].locals[v], e);
      ProposalIsRecorded(ctx, v, run[j].locals[v], f);
      DiskContinues(ctx, faulty, run, actions, i + 1, j, v);
    }
  }
}
