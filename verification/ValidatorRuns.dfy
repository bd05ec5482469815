/** Every run of one validator: events, what it signs, and the invariant that crash and reopen keep. */
module ValidatorRuns {

  import opened Wrappers
  import opened Weights
  import opened Committee
  import opened Certificates
  import opened Signer
  import opened Voting

  /** Anything the node may ask of its voter; proofs come from the network. */
  datatype Event =
    | Propose(expected: ValidatorId, proposed: Header, support: Option<PrevoteCertificate>, valid: bool,
              outcome: WriteOutcome)
    | CastPrevote(header: Option<Header>, validRound: Option<PrevoteCertificate>, valid: bool, outcome: WriteOutcome)
    | CastPrecommit(block: Header, proof: PrevoteCertificate, valid: bool, outcome: WriteOutcome)
    | TimeoutProposal(round: nat, outcome: WriteOutcome)
    | TimeoutPrevote(round: nat, outcome: WriteOutcome)
    | TimeoutPrecommit(round: nat)
    | Finalize(decided: Header, certificate: FinalityCertificate, valid: bool)
    | Restart

  ghost predicate Usable(proof: PrevoteCertificate) {
    proof.Shape() && Genuine(proof)
  }

  ghost predicate WellFormed(e: Event) {
    match e
    case Propose(_, _, support, _, _) => support.Some? ==> Usable(support.value)
    case CastPrevote(_, validRound, _, _) => validRound.Some? ==> Usable(validRound.value)
    case CastPrecommit(_, proof, _, _) => Usable(proof)
    case _ => true
  }

  /** Local state after one event, and the vote body whose signature is released, if any. */
  ghost function React(ctx: Context, v: ValidatorId, s: Local, e: Event): (Local, Option<VoteBody>)
    requires WellFormed(e)
  {
    match e
    case Propose(expected, header, support, valid, outcome) =>
      (DoPropose(ctx, v, s, expected, header, support, valid, outcome).0, None)
    case CastPrevote(header, validRound, valid, outcome) =>
      Released(DoPrevote(ctx, v, s, header, validRound, valid, outcome))
    case CastPrecommit(header, proof, valid, outcome) =>
      Released(DoPrecommit(ctx, v, s, header, proof, valid, outcome))
    case TimeoutProposal(round, outcome) => Released(DoTimeoutProposal(ctx, v, s, round, outcome))
    case TimeoutPrevote(round, outcome) => Released(DoTimeoutPrevote(ctx, v, s, round, outcome))
    case TimeoutPrecommit(round) => (DoTimeoutPrecommit(s, round).0, None)
    case Finalize(header, certificate, valid) => (DoFinalize(ctx, s, header, certificate, valid).0, None)
    case Restart =>
      var resumed := Resume(ctx, v, s.journal.origin.genesis, Reopened(s.journal));
      (if resumed.Ok? then resumed.value else s, None)
  }

  ghost function Released(r: (Local, Reply<Vote>)): (Local, Option<VoteBody>) {
    (r.0, if r.1.Ok? then Some(r.1.value.body) else None)
  }

  // The set of vote bodies that carry a valid signature anywhere.

  ghost function VotersFor(signed: set<VoteBody>, ctx: Context, slot: Slot): set<ValidatorId> {
    set b | b in signed && b == BodyFor(ctx, b.voter, slot.round, slot.phase, Some(slot.block)) :: b.voter
  }

  /** A quorum of power has signed this slot. */
  ghost predicate HasQuorum(signed: set<VoteBody>, ctx: Context, slot: Slot) {
    Weight(ctx.members, VotersFor(signed, ctx, slot)) >= ctx.Quorum()
  }

  lemma QuorumsPersist(less: set<VoteBody>, more: set<VoteBody>, ctx: Context, slot: Slot)
    requires less <= more && HasQuorum(less, ctx, slot)
    ensures HasQuorum(more, ctx, slot)
  {
    WeightMonotone(ctx.members, VotersFor(less, ctx, slot), VotersFor(more, ctx, slot));
  }

  /** Signatures are unforgeable: an authentic vote of a proof is in the signed set. */
  ghost predicate Backed(signed: set<VoteBody>, votes: seq<Vote>) {
    forall i | 0 <= i < |votes| && votes[i].signature.signer == votes[i].body.voter
              && votes[i].signature.digest == VoteDigest(votes[i].body) :: votes[i].body in signed
  }

  ghost predicate ProofsBacked(signed: set<VoteBody>, e: Event) {
    match e
    case Propose(_, _, support, _, _) => support.Some? ==> Backed(signed, support.value.votes)
    case CastPrevote(_, validRound, _, _) => validRound.Some? ==> Backed(signed, validRound.value.votes)
    case CastPrecommit(_, proof, _, _) => Backed(signed, proof.votes)
    case Finalize(_, certificate, _) => Backed(signed, CertificateVotes(certificate))
    case _ => true
  }

  lemma CertifiedSlotHasQuorum(ctx: Context, signed: set<VoteBody>, votes: seq<Vote>, slot: Slot)
    requires ctx.Valid() && Certifies(ctx, votes, slot) && Backed(signed, votes)
    ensures HasQuorum(signed, ctx, slot)
  {
    forall i | 0 <= i < |votes|
      ensures votes[i].body.voter in VotersFor(signed, ctx, slot)
    {
      assert InSlot(votes[i], slot) && VerifyVote(ctx, votes[i]).Ok?;
      assert votes[i].body in signed;
    }
    WeightMonotone(ctx.members, Signers(votes), VotersFor(signed, ctx, slot));
  }

  lemma ProofHasQuorum(ctx: Context, signed: set<VoteBody>, proof: PrevoteCertificate)
    requires ctx.Valid() && Usable(proof) && proof.VerifyContext(ctx) && Backed(signed, proof.votes)
    ensures HasQuorum(signed, ctx, proof.PrevoteSlot())
  {
    GenuineProofIsAQuorumHere(ctx, proof);
    CertifiedSlotHasQuorum(ctx, signed, proof.votes, proof.PrevoteSlot());
  }

  // The invariant.

  ghost predicate AtHeight(ctx: Context, r: Option<Record>) {
    r.Some? && r.value.position.height == ctx.height
  }

  /** A record on disk: its lock was certified, in a slot before the record's own unless that precommits it. */
  ghost predicate RecordOk(ctx: Context, signed: set<VoteBody>, r: Option<Record>) {
    r.Some? ==>
      && r.value.position.height <= ctx.height
      && (r.value.position.height == ctx.height ==>
            && r.value.safety.root == ctx.Root()
            && r.value.position.phase <= PRECOMMIT_PHASE
            && (r.value.safety.locked.Some? ==>
                  var lock := r.value.safety.locked.value;
                  && (|| lock.round < r.value.position.round
                      || (lock.round == r.value.position.round && r.value.position.phase == PRECOMMIT_PHASE))
                  && HasQuorum(signed, ctx, Slot(Prevote, lock.round, lock.block))))
  }

  ghost function LockOf(ctx: Context, r: Option<Record>): Option<Lock> {
    if AtHeight(ctx, r) then r.value.safety.locked else None
  }

  function PositionOf(ctx: Context, b: VoteBody): Position {
    Position(ctx.height, b.round, PhaseCode(b.phase))
  }

  /** The fields in memory agree with the journal. */
  ghost predicate FieldsOk(ctx: Context, s: Local) {
    && s.journal.origin.storesLocks && s.journal.origin.chainId == ctx.chainId
    && (!s.journal.poisoned ==> s.journal.memory == s.journal.disk)
    && s.locked == LockOf(ctx, s.journal.memory)
  }

  /** `b` is a vote of `v`, not past the durable position, and identical to it if at the same slot. */
  ghost predicate VoteRecorded(ctx: Context, v: ValidatorId, disk: Option<Record>, b: VoteBody) {
    && b == BodyFor(ctx, v, b.round, b.phase, b.block)
    && AtHeight(ctx, disk)
    && !Before(disk.value.position, PositionOf(ctx, b))
    && (disk.value.position == PositionOf(ctx, b) ==> disk.value.digest == VoteDigest(b))
  }

  /** A released block precommit keeps the durable lock at its round or later, and was certified. */
  ghost predicate PrecommitKept(ctx: Context, signed: set<VoteBody>, disk: Option<Record>, x: VoteBody) {
    x.phase == Precommit && x.block.Some? ==>
      && HasQuorum(signed, ctx, Slot(Prevote, x.round, x.block.value))
      && LockOf(ctx, disk).Some?
      && x.round <= LockOf(ctx, disk).value.round
      && (x.round == LockOf(ctx, disk).value.round ==> LockOf(ctx, disk).value.block == x.block.value)
  }

  /** Voting against one's own earlier precommit needs a prevote quorum from a round in between. */
  ghost predicate SwitchJustified(ctx: Context, signed: set<VoteBody>, x: VoteBody, y: VoteBody) {
    && x.phase == Precommit && x.block.Some? && y.phase == Prevote && y.block.Some?
    && x.round < y.round && x.block != y.block ==>
      exists r :: x.round < r < y.round && HasQuorum(signed, ctx, Slot(Prevote, r, y.block.value))
  }

  ghost predicate Inv(ctx: Context, v: ValidatorId, s: Local, signed: set<VoteBody>) {
    && FieldsOk(ctx, s)
    && RecordOk(ctx, signed, s.journal.memory)
    && RecordOk(ctx, signed, s.journal.disk)
    && (forall b | b in signed && b.voter == v :: VoteRecorded(ctx, v, s.journal.disk, b))
    && (forall b | b in signed && b.voter == v :: PrecommitKept(ctx, signed, s.journal.disk, b))
    && (forall x, y | x in signed && y in signed && x.voter == v && y.voter == v
                    && x.round == y.round && x.phase == y.phase :: x == y)
    && (forall x, y | x in signed && y in signed && x.voter == v && y.voter == v :: SwitchJustified(ctx, signed, x, y))
    && (s.finalized.Some? ==> exists r :: HasQuorum(signed, ctx, Slot(Precommit, r, s.finalized.value)))
  }

  /** Votes of other validators never disturb this validator's invariant. */
  lemma InvSurvivesOthers(ctx: Context, v: ValidatorId, s: Local, signed: set<VoteBody>, more: set<VoteBody>)
    requires Inv(ctx, v, s, signed) && signed <= more
    requires forall b | b in more && b.voter == v :: b in signed
    ensures Inv(ctx, v, s, more)
  {
    forall slot | HasQuorum(signed, ctx, slot)
      ensures HasQuorum(more, ctx, slot)
    {
      QuorumsPersist(signed, more, ctx, slot);
    }
    forall x, y | x in more && y in more && x.voter == v && y.voter == v
      ensures SwitchJustified(ctx, more, x, y)
    {
      assert SwitchJustified(ctx, signed, x, y);
    }
  }

  // One step keeps the invariant.

  /** What the rules check before a vote is issued, in terms of signed votes only. */
  ghost predicate Authorized(ctx: Context, s: Local, signed: set<VoteBody>, phase: Phase, block: Option<Hash>,
                             lock: Option<Lock>) {
    match phase
    case Prevote =>
      && lock == s.locked
      && (block.Some? && lock.Some? && block.value != lock.value.block ==>
            exists q :: lock.value.round < q < s.round && HasQuorum(signed, ctx, Slot(Prevote, q, block.value)))
    case Precommit =>
      if block.None? then lock == s.locked
      else lock == Some(Lock(s.round, block.value)) && HasQuorum(signed, ctx, Slot(Prevote, s.round, block.value))
  }

  /** The record about to be written is itself in order. */
  lemma NewRecordOk(ctx: Context, s: Local, signed: set<VoteBody>, record: Record)
    requires FieldsOk(ctx, s) && RecordOk(ctx, signed, s.journal.memory) && !s.journal.poisoned
    requires record.position.height == ctx.height && record.safety.root == ctx.Root()
    requires record.position.phase <= PRECOMMIT_PHASE
    requires s.journal.memory.Some? ==> Before(s.journal.memory.value.position, record.position)
    requires || record.safety.locked == s.locked
             || (&& record.position.phase == PRECOMMIT_PHASE && record.safety.locked.Some?
                 && record.safety.locked.value.round == record.position.round
                 && HasQuorum(signed, ctx, Slot(Prevote, record.position.round, record.safety.locked.value.block)))
    ensures RecordOk(ctx, signed, Some(record))
  {
  }

  /** Moving the durable record forward keeps every released vote recorded and every precommit locked. */
  lemma DiskAdvances(ctx: Context, v: ValidatorId, s: Local, signed: set<VoteBody>, record: Record)
    requires Inv(ctx, v, s, signed) && !s.journal.poisoned
    requires record.position.height == ctx.height
    requires s.journal.memory.Some? ==> Before(s.journal.memory.value.position, record.position)
    requires SafetyAllowed(record.position, record.safety, s.journal.memory)
    ensures forall b | b in signed && b.voter == v :: VoteRecorded(ctx, v, Some(record), b)
    ensures forall b | b in signed && b.voter == v :: Before(PositionOf(ctx, b), record.position)
    ensures forall b | b in signed && b.voter == v :: PrecommitKept(ctx, signed, Some(record), b)
  {
    forall b | b in signed && b.voter == v
      ensures VoteRecorded(ctx, v, Some(record), b) && Before(PositionOf(ctx, b), record.position)
      ensures PrecommitKept(ctx, signed, Some(record), b)
    {
      assert VoteRecorded(ctx, v, s.journal.disk, b) && PrecommitKept(ctx, signed, s.journal.disk, b);
    }
  }

  /** Releasing the vote that the durable record holds. */
  lemma VoteReleased(ctx: Context, v: ValidatorId, s: Local, signed: set<VoteBody>, body: VoteBody, lock: Option<Lock>)
    requires Inv(ctx, v, s, signed) && !s.journal.poisoned
    requires body == BodyFor(ctx, v, s.round, body.phase, body.block)
    requires s.journal.disk == Some(RecordFor(ctx, body, lock))
    requires Authorized(ctx, s, signed, body.phase, body.block, lock)
    ensures Inv(ctx, v, s, signed + {body})
  {
    hide HasQuorum;
    var more := signed + {body};
    var disk := s.journal.disk;
    forall slot | HasQuorum(signed, ctx, slot)
      ensures HasQuorum(more, ctx, slot)
    {
      QuorumsPersist(signed, more, ctx, slot);
    }
    assert VoteRecorded(ctx, v, disk, body);
    assert PrecommitKept(ctx, more, disk, body);
    forall x | x in signed && x.voter == v && x.round == body.round && x.phase == body.phase
      ensures x == body
    {
      assert VoteRecorded(ctx, v, disk, x);
    }
    forall x, y | x in more && y in more && x.voter == v && y.voter == v
      ensures SwitchJustified(ctx, more, x, y)
    {
      if x in signed && y in signed {
        assert SwitchJustified(ctx, signed, x, y);
      } else if y == body && x in signed {
        NewPrevoteJustified(ctx, v, s, signed, x, body, lock);
      } else {
        assert x == body;
        assert y in signed ==> VoteRecorded(ctx, v, disk, y);
      }
    }
    assert s.finalized.Some? ==> exists r :: HasQuorum(more, ctx, Slot(Precommit, r, s.finalized.value)) by {
      if s.finalized.Some? {
        var r :| HasQuorum(signed, ctx, Slot(Precommit, r, s.finalized.value));
        assert HasQuorum(more, ctx, Slot(Precommit, r, s.finalized.value));
      }
    }
  }

  /** The heart of the lock rule: a permitted prevote against an earlier own precommit rests on a newer quorum. */
  lemma NewPrevoteJustified(ctx: Context, v: ValidatorId, s: Local, signed: set<VoteBody>, x: VoteBody, y: VoteBody,
                            lock: Option<Lock>)
    requires Inv(ctx, v, s, signed) && x in signed && x.voter == v
    requires y == BodyFor(ctx, v, s.round, y.phase, y.block)
    requires s.journal.disk == Some(RecordFor(ctx, y, lock))
    requires Authorized(ctx, s, signed, y.phase, y.block, lock)
    ensures SwitchJustified(ctx, signed + {y}, x, y)
  {
    var more := signed + {y};
    if && x.phase == Precommit && x.block.Some? && y.phase == Prevote && y.block.Some?
       && x.round < y.round && x.block != y.block
    {
      assert PrecommitKept(ctx, signed, s.journal.disk, x);
      var mine := lock.value;
      assert x.round <= mine.round < y.round;
      if y.block.value == mine.block {
        QuorumsPersist(signed, more, ctx, Slot(Prevote, mine.round, mine.block));
      } else {
        var q :| mine.round < q < s.round && HasQuorum(signed, ctx, Slot(Prevote, q, y.block.value));
        QuorumsPersist(signed, more, ctx, Slot(Prevote, q, y.block.value));
      }
    }
  }

  /** A reservation attempt, whatever its outcome, keeps the invariant before any vote is released. */
  lemma ReserveKeepsInv(ctx: Context, v: ValidatorId, s: Local, signed: set<VoteBody>, record: Record,
                        outcome: WriteOutcome)
    requires Inv(ctx, v, s, signed)
    requires record.position.height == ctx.height && record.safety.root == ctx.Root()
    requires || record.safety.locked == s.locked
             || (&& record.position.phase == PRECOMMIT_PHASE && record.safety.locked.Some?
                 && record.safety.locked.value.round == record.position.round
                 && HasQuorum(signed, ctx, Slot(Prevote, record.position.round, record.safety.locked.value.block)))
    ensures var (journal, error) := Reserve(s.journal, record, outcome);
            && (error.Some? ==> Inv(ctx, v, s.(journal := journal), signed))
            && (error.None? ==> Inv(ctx, v, s.(journal := journal, locked := record.safety.locked), signed))
  {
    var (journal, error) := Reserve(s.journal, record, outcome);
    if journal != s.journal {
      NewRecordOk(ctx, s, signed, record);
      DiskAdvances(ctx, v, s, signed, record);
    }
  }

  lemma IssueKeepsInv(ctx: Context, v: ValidatorId, s: Local, signed: set<VoteBody>,
                      phase: Phase, block: Option<Hash>, lock: Option<Lock>, outcome: WriteOutcome)
    requires Inv(ctx, v, s, signed) && Authorized(ctx, s, signed, phase, block, lock)
    ensures var (s', out) := Released(Issue(ctx, v, s, phase, block, lock, outcome));
            Inv(ctx, v, s', if out.Some? then signed + {out.value} else signed)
  {
    hide Inv;
    hide Reserve;
    var body := BodyFor(ctx, v, s.round, phase, block);
    var record := RecordFor(ctx, body, lock);
    InvFields(ctx, v, s, signed);
    ReserveKeepsInv(ctx, v, s, signed, record, outcome);
    ReleasedMeansDurable(s.journal, record, outcome);
    var (s', out) := Released(Issue(ctx, v, s, phase, block, lock, outcome));
    if out.Some? {
      var (journal, _) := Reserve(s.journal, record, outcome);
      StepIsFree(ctx, v, s.(journal := journal, locked := lock), signed, s'.step);
      VoteReleased(ctx, v, s', signed, body, lock);
    } else {
      assert s' == s.(journal := Reserve(s.journal, record, outcome).0);
    }
  }

  lemma InvFields(ctx: Context, v: ValidatorId, s: Local, signed: set<VoteBody>)
    requires Inv(ctx, v, s, signed)
    ensures FieldsOk(ctx, s)
  {
  }

  /** The invariant does not depend on the voting step. */
  lemma StepIsFree(ctx: Context, v: ValidatorId, s: Local, signed: set<VoteBody>, step: Step)
    requires Inv(ctx, v, s, signed)
    ensures Inv(ctx, v, s.(step := step), signed)
  {
  }

  lemma ProposeKeepsInv(ctx: Context, v: ValidatorId, s: Local, signed: set<VoteBody>, e: Event)
    requires Inv(ctx, v, s, signed) && e.Propose? && WellFormed(e)
    ensures Inv(ctx, v, React(ctx, v, s, e).0, signed)
  {
    var body := ProposalBody(ctx.chainId, s.journal.origin.genesis, ctx.Root(), ctx.height, s.round, e.proposed.hash, v,
                             if e.support.Some? then Some(e.support.value.Round()) else None);
    var record := Record(Position(ctx.height, s.round, PROPOSAL_PHASE), ProposalDigest(body),
                         Safety(ctx.Root(), s.locked));
    ReserveKeepsInv(ctx, v, s, signed, record, e.outcome);
    var journal := Reserve(s.journal, record, e.outcome).0;
    assert React(ctx, v, s, e).0 == s || React(ctx, v, s, e).0 == s.(journal := journal);
  }

  lemma PrevoteKeepsInv(ctx: Context, v: ValidatorId, s: Local, signed: set<VoteBody>, e: Event)
    requires ctx.Valid() && Inv(ctx, v, s, signed) && e.CastPrevote? && WellFormed(e) && ProofsBacked(signed, e)
    ensures var (s', out) := React(ctx, v, s, e); Inv(ctx, v, s', if out.Some? then signed + {out.value} else signed)
  {
    hide Inv;
    hide HasQuorum;
    if React(ctx, v, s, e) != (s, None) {
      var block :=
        if e.header.Some? && ValidHeader(ctx, e.header.value, e.valid) then Some(e.header.value.hash) else None;
      var chosen := if Permitted(s.locked, block, e.validRound) then block else None;
      if e.validRound.Some? {
        ProofHasQuorum(ctx, signed, e.validRound.value);
      }
      IssueKeepsInv(ctx, v, s, signed, Prevote, chosen, s.locked, e.outcome);
    }
  }

  lemma PrecommitKeepsInv(ctx: Context, v: ValidatorId, s: Local, signed: set<VoteBody>, e: Event)
    requires ctx.Valid() && Inv(ctx, v, s, signed) && e.CastPrecommit? && WellFormed(e) && ProofsBacked(signed, e)
    ensures var (s', out) := React(ctx, v, s, e); Inv(ctx, v, s', if out.Some? then signed + {out.value} else signed)
  {
    hide Inv;
    hide HasQuorum;
    if React(ctx, v, s, e) != (s, None) {
      ProofHasQuorum(ctx, signed, e.proof);
      IssueKeepsInv(ctx, v, s, signed, Precommit, Some(e.proof.Block()), Some(Lock(s.round, e.proof.Block())),
                    e.outcome);
    }
  }

  lemma FinalizeKeepsInv(ctx: Context, v: ValidatorId, s: Local, signed: set<VoteBody>, e: Event)
    requires ctx.Valid() && Inv(ctx, v, s, signed) && e.Finalize? && ProofsBacked(signed, e)
    ensures Inv(ctx, v, React(ctx, v, s, e).0, signed)
  {
    if React(ctx, v, s, e).0 != s {
      CertificateMeaning(ctx, e.certificate, e.decided);
      CertifiedSlotHasQuorum(ctx, signed, CertificateVotes(e.certificate),
                             Slot(Precommit, e.certificate.round, e.certificate.block));
    }
  }

  /** Every event, with any write outcome, keeps the invariant; the released vote joins the signed set. */
  lemma AdvanceKeepsInv(ctx: Context, v: ValidatorId, s: Local, signed: set<VoteBody>, round: nat)
    requires Inv(ctx, v, s, signed)
    ensures Inv(ctx, v, DoTimeoutPrecommit(s, round).0, signed)
  {
  }

  lemma RestartKeepsInv(ctx: Context, v: ValidatorId, s: Local, signed: set<VoteBody>)
    requires ctx.Valid() && Inv(ctx, v, s, signed)
    ensures Inv(ctx, v, React(ctx, v, s, Restart).0, signed)
  {
  }

  lemma ReactKeepsInv(ctx: Context, v: ValidatorId, s: Local, signed: set<VoteBody>, e: Event)
    requires ctx.Valid() && Inv(ctx, v, s, signed) && WellFormed(e) && ProofsBacked(signed, e)
    ensures var (s', out) := React(ctx, v, s, e); Inv(ctx, v, s', if out.Some? then signed + {out.value} else signed)
  {
    hide Inv;
    hide ProofsBacked;
    match e
    case Propose(_, _, _, _, _) => ProposeKeepsInv(ctx, v, s, signed, e);
    case CastPrevote(_, _, _, _) => PrevoteKeepsInv(ctx, v, s, signed, e);
    case CastPrecommit(_, _, _, _) => PrecommitKeepsInv(ctx, v, s, signed, e);
    case TimeoutProposal(round, outcome) =>
      if round == s.round && s.step == AwaitingProposal {
        IssueKeepsInv(ctx, v, s, signed, Prevote, None, s.locked, outcome);
      }
    case TimeoutPrevote(round, outcome) =>
      if round == s.round && s.step == Prevoted {
        IssueKeepsInv(ctx, v, s, signed, Precommit, None, s.locked, outcome);
      }
    case TimeoutPrecommit(round) => AdvanceKeepsInv(ctx, v, s, signed, round);
    case Finalize(_, _, _) => FinalizeKeepsInv(ctx, v, s, signed, e);
    case Restart => RestartKeepsInv(ctx, v, s, signed);
  }

  /** The durable lock never clears and its round never falls, whatever the event. */
  ghost predicate LockAdvances(older: Option<Lock>, newer: Option<Lock>) {
    older.Some? ==> newer.Some? && (older == newer || older.value.round < newer.value.round)
  }

  lemma ReserveAdvancesLock(ctx: Context, j: Journal, record: Record, outcome: WriteOutcome)
    requires !j.poisoned ==> j.memory == j.disk
    requires record.position.height == ctx.height
    ensures LockAdvances(LockOf(ctx, j.disk), LockOf(ctx, Reserve(j, record, outcome).0.disk))
  {
  }

  lemma ReactAdvancesLock(ctx: Context, v: ValidatorId, s: Local, e: Event)
    requires FieldsOk(ctx, s) && WellFormed(e)
    ensures LockAdvances(LockOf(ctx, s.journal.disk), LockOf(ctx, React(ctx, v, s, e).0.journal.disk))
  {
    forall record: Record, outcome | record.position.height == ctx.height
      ensures LockAdvances(LockOf(ctx, s.journal.disk), LockOf(ctx, Reserve(s.journal, record, outcome).0.disk))
    {
      ReserveAdvancesLock(ctx, s.journal, record, outcome);
    }
  }

  /**
   * Voting resumes exactly from a lock-storing journal of this chain and genesis that a member holds and that has
   * not gone past this height or committee; it then stands at the last record, or at the start of the height.
   */
  lemma ResumeIsExact(ctx: Context, v: ValidatorId, genesis: Hash, j: Journal)
    ensures var r := Resume(ctx, v, genesis, j);
            r.Ok? <==>
            && j.origin == Origin(true, ctx.chainId, genesis) && v in Ids(ctx.members)
            && (j.memory.Some? ==>
                  && j.memory.value.position.height <= ctx.height
                  && (j.memory.value.position.height == ctx.height ==>
                        j.memory.value.safety.root == ctx.Root() && j.memory.value.position.phase <= PRECOMMIT_PHASE))
    ensures var r := Resume(ctx, v, genesis, j);
            r.Ok? ==>
              && r.value.journal == j && r.value.finalized.None? && r.value.locked == LockOf(ctx, j.memory)
              && if AtHeight(ctx, j.memory) then
                   var at := j.memory.value.position;
                   r.value.round == at.round && r.value.step == [AwaitingProposal, Prevoted, Precommitted][at.phase]
                 else r.value.round == 0 && r.value.step == AwaitingProposal
    ensures var r := Resume(ctx, v, genesis, j);
            r.Err? ==>
              r.error == if !j.origin.storesLocks then Signing(InvalidSafety)
                         else if j.origin.chainId != ctx.chainId || j.origin.genesis != genesis then
                           Signing(ContextMismatch)
                         else if v !in Ids(ctx.members) then Consensus(UnknownVoter)
                         else if j.memory.value.position.height > ctx.height then Signing(StalePosition)
                         else if j.memory.value.safety.root != ctx.Root() then Signing(ContextMismatch)
                         else Signing(InvalidPosition)
  {
  }

  /** Reopening always succeeds for a member and restores exactly the last durable round, phase and lock. */
  lemma RestartRestoresDurableState(ctx: Context, v: ValidatorId, s: Local, signed: set<VoteBody>)
    requires ctx.Valid() && v in Ids(ctx.members) && Inv(ctx, v, s, signed)
    ensures var (s', out) := React(ctx, v, s, Restart);
            && out.None? && s'.locked == LockOf(ctx, s.journal.disk)
            && s'.journal == Journal(s.journal.origin, s.journal.disk, s.journal.disk, false)
            && s'.round == (if AtHeight(ctx, s.journal.disk) then s.journal.disk.value.position.round else 0)
            && (s'.step == Precommitted <==>
                  AtHeight(ctx, s.journal.disk) && s.journal.disk.value.position.phase == PRECOMMIT_PHASE)
            && (s'.step == Prevoted <==>
                  AtHeight(ctx, s.journal.disk) && s.journal.disk.value.position.phase == PREVOTE_PHASE)
  {
    assert VotingPower(ctx.members, v).Some?;
  }
}
