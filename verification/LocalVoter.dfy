/** The local voter as the object the node holds; every method is proved against its rule in `Voting`. */
module LocalVoter {

  import opened Wrappers
  import opened Weights
  import opened Committee
  import opened Certificates
  import opened Signer
  import opened Voting

  class LocalBft {
    const committee: Context
    const signer: DurableSigner
    var round: nat
    var step: Step
    var locked: Option<Lock>
    var finalized: Option<Hash>

    function State(): Local
      reads this, signer
    {
      Local(round, step, locked, finalized, signer.State())
    }

    ghost predicate Valid() {
      committee.Valid()
    }

    /** Field assignment after the checks of `Open` have passed. */
    constructor (committee: Context, signer: DurableSigner, round: nat, step: Step, locked: Option<Lock>)
      ensures this.committee == committee && this.signer == signer
      ensures State() == Local(round, step, locked, None, signer.State())
    {
      this.committee, this.signer := committee, signer;
      this.round, this.step, this.locked, this.finalized := round, step, locked, None;
    }

    /** Succeeds exactly when the journal's last record can be continued, and then stands where it left off. */
    static method Open(committee: Context, signer: DurableSigner, genesis: Hash) returns (r: Reply<LocalBft>)
      requires committee.Valid()
      ensures r.Ok? <==> Resume(committee, signer.validator, genesis, signer.State()).Ok?
      ensures r.Err? ==> Resume(committee, signer.validator, genesis, signer.State()) == Err(r.error)
      ensures r.Ok? ==>
                && fresh(r.value) && r.value.Valid()
                && r.value.committee == committee && r.value.signer == signer
                && r.value.State() == Resume(committee, signer.validator, genesis, signer.State()).value
    {
      if !signer.origin.storesLocks {
        return Err(Signing(InvalidSafety));
      }
      if signer.origin.chainId != committee.chainId || signer.origin.genesis != genesis {
        return Err(Signing(ContextMismatch));
      }
      if VotingPower(committee.members, signer.validator).None? {
        return Err(Consensus(UnknownVoter));
      }
      var round, step, locked := 0, AwaitingProposal, None;
      if signer.memory.Some? {
        var last := signer.memory.value;
        if last.position.height > committee.height {
          return Err(Signing(StalePosition));
        }
        if last.position.height == committee.height {
          if last.safety.root != committee.Root() {
            return Err(Signing(ContextMismatch));
          }
          round := last.position.round;
          if last.position.phase == PROPOSAL_PHASE {
            step := AwaitingProposal;
          } else if last.position.phase == PREVOTE_PHASE {
            step := Prevoted;
          } else if last.position.phase == PRECOMMIT_PHASE {
            step := Precommitted;
          } else {
            return Err(Signing(InvalidPosition));
          }
          locked := last.safety.locked;
        }
      }
      var bft := new LocalBft(committee, signer, round, step, locked);
      return Ok(bft);
    }

    /** Reserves and signs one vote; local fields move only once the journal has accepted it. */
    method IssueVote(phase: Phase, block: Option<Hash>, lock: Option<Lock>, outcome: WriteOutcome)
      returns (r: Reply<Vote>)
      modifies this, signer
      ensures (State(), r) == Issue(committee, signer.validator, old(State()), phase, block, lock, outcome)
    {
      var body := BodyFor(committee, signer.validator, round, phase, block);
      var signature := signer.SignProtected(
        Position(committee.height, round, PhaseCode(phase)), VoteDigest(body), Safety(committee.Root(), lock), outcome);
      if signature.Err? {
        return Err(Signing(signature.error));
      }
      locked := lock;
      step := if phase == Prevote then Prevoted else Precommitted;
      return Ok(Vote(body, signature.value));
    }

    method CastPrevote(header: Option<Header>, validRound: Option<PrevoteCertificate>, valid: bool,
                       outcome: WriteOutcome)
      returns (r: Reply<Vote>)
      requires validRound.Some? ==> validRound.value.Shape()
      modifies this, signer
      ensures (State(), r)
           == DoPrevote(committee, signer.validator, old(State()), header, validRound, valid, outcome)
    {
      if step != AwaitingProposal && step != Prevoted {
        return Err(Consensus(InvalidTransition));
      }
      if validRound.Some? {
        if !validRound.value.VerifyContext(committee) {
          return Err(Consensus(InvalidCertificate));
        }
        if validRound.value.Round() >= round || header.None? || header.value.hash != validRound.value.Block() {
          return Err(Consensus(InvalidCertificate));
        }
      }
      var block: Option<Hash> := None;
      if header.Some? && ValidHeader(committee, header.value, valid) {
        block := Some(header.value.hash);
      }
      if !Permitted(locked, block, validRound) {
        block := None;
      }
      r := IssueVote(Prevote, block, locked, outcome);
    }

    method CastPrecommit(header: Header, proof: PrevoteCertificate, valid: bool, outcome: WriteOutcome)
      returns (r: Reply<Vote>)
      requires proof.Shape()
      modifies this, signer
      ensures (State(), r)
           == DoPrecommit(committee, signer.validator, old(State()), header, proof, valid, outcome)
    {
      if step != Prevoted && step != Precommitted {
        return Err(Consensus(InvalidTransition));
      }
      if !proof.VerifyContext(committee) {
        return Err(Consensus(InvalidCertificate));
      }
      if proof.Round() != round || proof.Block() != header.hash || !ValidHeader(committee, header, valid) {
        return Err(Consensus(InvalidCertificate));
      }
      r := IssueVote(Precommit, Some(proof.Block()), Some(Lock(round, proof.Block())), outcome);
    }

    method TimeoutProposal(at: nat, outcome: WriteOutcome) returns (r: Reply<Vote>)
      modifies this, signer
      ensures (State(), r) == DoTimeoutProposal(committee, signer.validator, old(State()), at, outcome)
    {
      if at != round || step != AwaitingProposal {
        return Err(Consensus(InvalidTransition));
      }
      r := IssueVote(Prevote, None, locked, outcome);
    }

    method TimeoutPrevote(at: nat, outcome: WriteOutcome) returns (r: Reply<Vote>)
      modifies this, signer
      ensures (State(), r) == DoTimeoutPrevote(committee, signer.validator, old(State()), at, outcome)
    {
      if at != round || step != Prevoted {
        return Err(Consensus(InvalidTransition));
      }
      r := IssueVote(Precommit, None, locked, outcome);
    }

    method TimeoutPrecommit(at: nat) returns (r: Reply<()>)
      modifies this
      ensures (State(), r) == DoTimeoutPrecommit(old(State()), at)
    {
      if at != round || step != Precommitted {
        return Err(Consensus(InvalidTransition));
      }
      if round == U32_MAX {
        return Err(Consensus(InvalidTransition));
      }
      round := round + 1;
      step := AwaitingProposal;
      return Ok(());
    }

    method Finalize(header: Header, certificate: FinalityCertificate, valid: bool) returns (r: Reply<()>)
      requires Valid()
      modifies this
      ensures (State(), r) == DoFinalize(committee, old(State()), header, certificate, valid)
    {
      var verified := VerifyCertificate(committee, certificate, header, 1, _ => true);
      if verified.Err? {
        return Err(Consensus(verified.error));
      }
      if !ValidHeader(committee, header, valid) || (finalized.Some? && finalized.value != certificate.block) {
        return Err(Consensus(InvalidTransition));
      }
      finalized := Some(certificate.block);
      step := Finalized;
      return Ok(());
    }

    method Propose(expected: ValidatorId, header: Header, validRound: Option<PrevoteCertificate>, valid: bool,
                   outcome: WriteOutcome) returns (r: Reply<Proposal>)
      requires validRound.Some? ==> validRound.value.Shape()
      modifies this, signer
      ensures (State(), r)
           == DoPropose(committee, signer.validator, old(State()), expected, header, validRound, valid, outcome)
    {
      if step != AwaitingProposal || signer.validator != expected || !ValidHeader(committee, header, valid) {
        return Err(Consensus(InvalidTransition));
      }
      var claimed: Option<nat> := None;
      if validRound.Some? {
        claimed := Some(validRound.value.Round());
      }
      var body := ProposalBody(committee.chainId, signer.origin.genesis, committee.Root(), committee.height, round,
                               header.hash, signer.validator, claimed);
      if !ValidRoundMatches(committee, body, validRound) {
        return Err(Consensus(InvalidCertificate));
      }
      // The lock binds proposals as it binds prevotes.
      if !Permitted(locked, Some(body.block), validRound) {
        return Err(Consensus(InvalidTransition));
      }
      var signature := signer.SignProtected(
        Position(committee.height, round, PROPOSAL_PHASE), ProposalDigest(body),
        Safety(committee.Root(), locked), outcome);
      if signature.Err? {
        return Err(Signing(signature.error));
      }
      return Ok(Proposal(body, signature.value));
    }
  }
}
