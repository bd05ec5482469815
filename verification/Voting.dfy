/** What one validator may vote for at one height, as functions of its state: the specification of `LocalBft`. */
module Voting {

  import opened Wrappers
  import opened Weights
  import opened Committee
  import opened Certificates
  import opened Signer

  datatype Step = AwaitingProposal | Prevoted | Precommitted | Finalized

  datatype LocalError = Consensus(consensus: ConsensusError) | Signing(signing: KeystoreError)

  datatype Proposal = Proposal(body: ProposalBody, signature: Signature)

  datatype Local = Local(round: nat, step: Step, locked: Option<Lock>, finalized: Option<Hash>, journal: Journal)

  type Reply<T> = Result<T, LocalError>

  /** Restores round, step and lock from the journal's last record at this height. */
  function Resume(ctx: Context, voter: ValidatorId, genesis: Hash, journal: Journal): Reply<Local> {
    if !journal.origin.storesLocks then Err(Signing(InvalidSafety))
    else if journal.origin.chainId != ctx.chainId || journal.origin.genesis != genesis then
      Err(Signing(ContextMismatch))
    else if VotingPower(ctx.members, voter).None? then Err(Consensus(UnknownVoter))
    else
      match journal.memory
      case None => Ok(Local(0, AwaitingProposal, None, None, journal))
      case Some(last) =>
        if last.position.height > ctx.height then Err(Signing(StalePosition))
        else if last.position.height < ctx.height then Ok(Local(0, AwaitingProposal, None, None, journal))
        else if last.safety.root != ctx.Root() then Err(Signing(ContextMismatch))
        else if last.position.phase > PRECOMMIT_PHASE then Err(Signing(InvalidPosition))
        else
          Ok(Local(last.position.round, StepOf(last.position.phase), last.safety.locked, None, journal))
  }

  /** The step at which a voter stands that last signed in this phase. */
  function StepOf(phase: nat): Step {
    if phase == PROPOSAL_PHASE then AwaitingProposal
    else if phase == PREVOTE_PHASE then Prevoted
    else Precommitted
  }

  predicate ValidHeader(ctx: Context, header: Header, valid: bool) {
    header.height == ctx.height && header.root == ctx.Root() && valid
  }

  function BodyFor(ctx: Context, voter: ValidatorId, round: nat, phase: Phase, block: Option<Hash>): VoteBody {
    VoteBody(ctx.chainId, ctx.Root(), ctx.height, round, phase, block, voter)
  }

  function PhaseCode(phase: Phase): nat {
    if phase == Prevote then PREVOTE_PHASE else PRECOMMIT_PHASE
  }

  function RecordFor(ctx: Context, body: VoteBody, locked: Option<Lock>): Record {
    Record(Position(ctx.height, body.round, PhaseCode(body.phase)), VoteDigest(body), Safety(ctx.Root(), locked))
  }

  function Issue(ctx: Context, voter: ValidatorId, s: Local, phase: Phase, block: Option<Hash>,
                 locked: Option<Lock>, outcome: WriteOutcome): (Local, Reply<Vote>) {
    var body := BodyFor(ctx, voter, s.round, phase, block);
    var (journal, error) := Reserve(s.journal, RecordFor(ctx, body, locked), outcome);
    match error
    case Some(e) => (s.(journal := journal), Err(Signing(e)))
    case None =>
      var step := if phase == Prevote then Prevoted else Precommitted;
      (s.(journal := journal, locked := locked, step := step),
       Ok(Vote(body, Signature(voter, VoteDigest(body), 0))))
  }

  /** There is no lock, the value is the locked block, or the proof's round is later than the lock's. */
  predicate Permitted(locked: Option<Lock>, block: Option<Hash>, proof: Option<PrevoteCertificate>)
    requires proof.Some? ==> proof.value.Shape()
  {
    || locked.None?
    || block == Some(locked.value.block)
    || (proof.Some? && proof.value.Round() > locked.value.round)
  }

  function DoPrevote(ctx: Context, voter: ValidatorId, s: Local, header: Option<Header>,
                     proof: Option<PrevoteCertificate>, valid: bool, outcome: WriteOutcome): (Local, Reply<Vote>)
    requires proof.Some? ==> proof.value.Shape()
  {
    if s.step != AwaitingProposal && s.step != Prevoted then (s, Err(Consensus(InvalidTransition)))
    else if proof.Some? && (|| !proof.value.VerifyContext(ctx)
                            || proof.value.Round() >= s.round
                            || header.None? || header.value.hash != proof.value.Block()) then
      (s, Err(Consensus(InvalidCertificate)))
    else
      var block := if header.Some? && ValidHeader(ctx, header.value, valid) then Some(header.value.hash) else None;
      Issue(ctx, voter, s, Prevote, if Permitted(s.locked, block, proof) then block else None, s.locked, outcome)
  }

  function DoPrecommit(ctx: Context, voter: ValidatorId, s: Local, header: Header,
                       proof: PrevoteCertificate, valid: bool, outcome: WriteOutcome): (Local, Reply<Vote>)
    requires proof.Shape()
  {
    if s.step != Prevoted && s.step != Precommitted then (s, Err(Consensus(InvalidTransition)))
    else if !proof.VerifyContext(ctx) || proof.Round() != s.round || proof.Block() != header.hash
            || !ValidHeader(ctx, header, valid) then
      (s, Err(Consensus(InvalidCertificate)))
    else
      Issue(ctx, voter, s, Precommit, Some(proof.Block()), Some(Lock(s.round, proof.Block())), outcome)
  }

  function DoTimeoutProposal(ctx: Context, voter: ValidatorId, s: Local, round: nat, outcome: WriteOutcome)
    : (Local, Reply<Vote>) {
    if round != s.round || s.step != AwaitingProposal then (s, Err(Consensus(InvalidTransition)))
    else Issue(ctx, voter, s, Prevote, None, s.locked, outcome)
  }

  function DoTimeoutPrevote(ctx: Context, voter: ValidatorId, s: Local, round: nat, outcome: WriteOutcome)
    : (Local, Reply<Vote>) {
    if round != s.round || s.step != Prevoted then (s, Err(Consensus(InvalidTransition)))
    else Issue(ctx, voter, s, Precommit, None, s.locked, outcome)
  }

  function DoTimeoutPrecommit(s: Local, round: nat): (Local, Reply<()>) {
    if round != s.round || s.step != Precommitted || s.round == U32_MAX then (s, Err(Consensus(InvalidTransition)))
    else (s.(round := s.round + 1, step := AwaitingProposal), Ok(()))
  }

  function DoFinalize(ctx: Context, s: Local, header: Header, c: FinalityCertificate, valid: bool): (Local, Reply<()>) {
    match CertificateDecision(ctx, c, header)
    case Err(e) => (s, Err(Consensus(e)))
    case Ok(_) =>
      if !ValidHeader(ctx, header, valid) || (s.finalized.Some? && s.finalized.value != c.block) then
        (s, Err(Consensus(InvalidTransition)))
      else (s.(finalized := Some(c.block), step := Finalized), Ok(()))
  }

  /** A claimed earlier round comes with a proof of it for this block and context; without a claim there is none. */
  predicate ValidRoundMatches(ctx: Context, body: ProposalBody, proof: Option<PrevoteCertificate>)
    requires proof.Some? ==> proof.value.Shape()
  {
    match proof
    case None => body.validRound.None?
    case Some(p) =>
      && body.validRound == Some(p.Round()) && p.Round() < body.round
      && body.block == p.Block() && p.VerifyContext(ctx)
  }

  function DoPropose(ctx: Context, voter: ValidatorId, s: Local, expected: ValidatorId, header: Header,
                     proof: Option<PrevoteCertificate>, valid: bool, outcome: WriteOutcome): (Local, Reply<Proposal>)
    requires proof.Some? ==> proof.value.Shape()
  {
    var body := ProposalBody(ctx.chainId, s.journal.origin.genesis, ctx.Root(), ctx.height, s.round, header.hash, voter,
                             if proof.Some? then Some(proof.value.Round()) else None);
    if s.step != AwaitingProposal || voter != expected || !ValidHeader(ctx, header, valid) then
      (s, Err(Consensus(InvalidTransition)))
    else if !ValidRoundMatches(ctx, body, proof) then (s, Err(Consensus(InvalidCertificate)))
    else if !Permitted(s.locked, Some(body.block), proof) then (s, Err(Consensus(InvalidTransition)))
    else
      var record := Record(Position(ctx.height, s.round, PROPOSAL_PHASE), ProposalDigest(body),
                           Safety(ctx.Root(), s.locked));
      var (journal, error) := Reserve(s.journal, record, outcome);
      match error
      case Some(e) => (s.(journal := journal), Err(Signing(e)))
      case None => (s.(journal := journal), Ok(Proposal(body, Signature(voter, ProposalDigest(body), 0))))
  }
}
