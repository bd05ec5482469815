/** Prevote and finality certificates: batched verification, its one-by-one reference and its meaning. */
module Certificates {

  import opened Wrappers
  import opened Weights
  import opened Committee
  import Batch

  /** What every vote of one certificate must carry. */
  datatype Slot = Slot(phase: Phase, round: nat, block: Hash)

  predicate InSlot(vote: Vote, slot: Slot) {
    vote.body.phase == slot.phase && vote.body.round == slot.round && vote.body.block == Some(slot.block)
  }

  /** Cheap per-vote checks, in serial order, before any signature is decided. */
  function CheckVote(ctx: Context, vote: Vote, slot: Slot): Result<(nat, Request), ConsensusError> {
    if !InSlot(vote, slot) then Err(InvalidCertificate) else VoteCredentials(ctx, vote)
  }

  predicate Passes(ctx: Context, vote: Vote, slot: Slot) {
    var checked := CheckVote(ctx, vote, slot);
    checked.Ok? && checked.value.1.Verify()
  }

  /** Reference: check, verify and add the votes one by one from position `i`. */
  function SerialTally(ctx: Context, votes: seq<Vote>, slot: Slot, i: nat, total: nat): Result<nat, ConsensusError>
    requires i <= |votes|
    decreases |votes| - i
  {
    if i == |votes| then
      if total < QuorumOf(ctx) then Err(InvalidCertificate) else Ok(total)
    else
      var (power, request) :- CheckVote(ctx, votes[i], slot);
      if !request.Verify() then Err(InvalidProof)
      else if total + power > U128_MAX then Err(InvalidCertificate)
      else SerialTally(ctx, votes, slot, i + 1, total + power)
  }

  /** Checked total of the context, recomputed from its members. */
  function QuorumOf(ctx: Context): (q: nat)
    ensures DistinctIds(ctx.members) ==> q == ctx.Quorum()
  {
    SumIsTotal(ctx.members);
    QuorumPower(Sum(ctx.members))
  }

  predicate Ascending(votes: seq<Vote>) {
    forall i | 0 < i < |votes| :: votes[i - 1].body.voter < votes[i].body.voter
  }

  ghost function Signers(votes: seq<Vote>): set<ValidatorId> {
    set i | 0 <= i < |votes| :: votes[i].body.voter
  }

  lemma {:induction false} AscendingIsStrict(votes: seq<Vote>, i: nat, j: nat)
    requires Ascending(votes) && i < j < |votes|
    ensures votes[i].body.voter < votes[j].body.voter
  {
    if i + 1 < j {
      AscendingIsStrict(votes, i, j - 1);
    }
    assert votes[j - 1].body.voter < votes[j].body.voter;
  }

  /** A passing vote adds exactly its member's power to the weight of the signers before it. */
  lemma PassingVoteAddsPower(ctx: Context, votes: seq<Vote>, slot: Slot, i: nat)
    requires ctx.Valid() && Ascending(votes) && i < |votes|
    requires CheckVote(ctx, votes[i], slot).Ok?
    ensures Weight(ctx.members, Signers(votes[..i + 1]))
         == Weight(ctx.members, Signers(votes[..i])) + CheckVote(ctx, votes[i], slot).value.0 <= U128_MAX
  {
    var voter := votes[i].body.voter;
    var power := VotingPower(ctx.members, voter).value;
    var m :| 0 <= m < |ctx.members| && ctx.members[m] == Member(voter, power);
    var before := Signers(votes[..i]);
    if voter in before {
      var j :| 0 <= j < i && votes[..i][j].body.voter == voter;
      AscendingIsStrict(votes, j, i);
    }
    assert Signers(votes[..i + 1]) == before + {voter} by {
      assert votes[..i + 1][i] == votes[i];
      assert forall j | 0 <= j < i :: votes[..i + 1][j] == votes[..i][j];
    }
    WeightOfOneMore(ctx.members, before, m);
    WeightAtMostTotal(ctx.members, Signers(votes[..i + 1]));
  }

  lemma SerialStep(ctx: Context, votes: seq<Vote>, slot: Slot, i: nat)
    requires ctx.Valid() && Ascending(votes) && i < |votes| && Passes(ctx, votes[i], slot)
    ensures SerialTally(ctx, votes, slot, i, Weight(ctx.members, Signers(votes[..i])))
         == SerialTally(ctx, votes, slot, i + 1, Weight(ctx.members, Signers(votes[..i + 1])))
  {
    PassingVoteAddsPower(ctx, votes, slot, i);
  }

  /** After a passing prefix the serial loop stands exactly at the weight of its signers. */
  lemma {:induction false} SerialReaches(ctx: Context, votes: seq<Vote>, slot: Slot, k: nat)
    requires ctx.Valid() && Ascending(votes) && k <= |votes|
    requires forall i | 0 <= i < k :: Passes(ctx, votes[i], slot)
    ensures SerialTally(ctx, votes, slot, 0, 0)
         == SerialTally(ctx, votes, slot, k, Weight(ctx.members, Signers(votes[..k])))
  {
    if k == 0 {
      assert Signers(votes[..0]) == {};
      EmptySetWeighsNothing(ctx.members);
    } else {
      SerialReaches(ctx, votes, slot, k - 1);
      SerialStep(ctx, votes, slot, k - 1);
    }
  }

  lemma {:induction false} EmptySetWeighsNothing(members: seq<Member>)
    ensures Weight(members, {}) == 0
  {
    if members != [] {
      EmptySetWeighsNothing(members[1..]);
    }
  }

  /**
   * Two passes: structure and credentials up to the first vote refused on those grounds,
   * then the signatures of the votes before it in one batch. The outcome is the serial one.
   */
  method Tally(ctx: Context, votes: seq<Vote>, slot: Slot, workers: nat, spawns: nat -> bool)
    returns (r: Result<nat, ConsensusError>)
    requires ctx.Valid() && Ascending(votes)
    ensures r == SerialTally(ctx, votes, slot, 0, 0)
  {
    hide CheckVote;
    var batch, weights, rejected := Screen(ctx, votes, slot);
    var failure := Batch.FirstFailure(batch, workers, spawns);
    if failure.Some? {
      SerialReaches(ctx, votes, slot, failure.value);
      assert CheckVote(ctx, votes[failure.value], slot) == Ok((weights[failure.value], batch[failure.value]));
      return Err(InvalidProof);
    }
    SerialReaches(ctx, votes, slot, |batch|);
    if rejected.Some? {
      return Err(rejected.value);
    }
    var total := AddUp(ctx, votes, slot, batch, weights);
    assert votes[..|votes|] == votes;
    if total < QuorumOf(ctx) {
      return Err(InvalidCertificate);
    }
    return Ok(total);
  }

  /** The first pass: one request and one weight per vote, up to the first vote refused. */
  method Screen(ctx: Context, votes: seq<Vote>, slot: Slot)
    returns (batch: seq<Request>, weights: seq<nat>, rejected: Option<ConsensusError>)
    ensures |batch| == |weights| <= |votes| && (rejected.None? ==> |batch| == |votes|)
    ensures forall j | 0 <= j < |batch| :: CheckVote(ctx, votes[j], slot) == Ok((weights[j], batch[j]))
    ensures rejected.Some? ==> |batch| < |votes| && CheckVote(ctx, votes[|batch|], slot) == Err(rejected.value)
  {
    hide CheckVote;
    batch, weights, rejected := [], [], None;
    while |batch| < |votes|
      invariant |batch| == |weights| <= |votes|
      invariant forall j | 0 <= j < |batch| :: CheckVote(ctx, votes[j], slot) == Ok((weights[j], batch[j]))
      decreases |votes| - |batch|
    {
      match CheckVote(ctx, votes[|batch|], slot) {
        case Ok((power, request)) =>
          weights := weights + [power];
          batch := batch + [request];
        case Err(error) =>
          rejected := Some(error);
          return;
      }
    }
  }

  /** The last pass: the weights of distinct members that all signed add up to the weight of the set. */
  method AddUp(ctx: Context, votes: seq<Vote>, slot: Slot, batch: seq<Request>, weights: seq<nat>) returns (total: nat)
    requires ctx.Valid() && Ascending(votes) && |batch| == |weights| == |votes|
    requires forall j | 0 <= j < |votes| :: CheckVote(ctx, votes[j], slot) == Ok((weights[j], batch[j]))
    ensures total == Weight(ctx.members, Signers(votes))
  {
    total := 0;
    assert Signers(votes[..0]) == {};
    EmptySetWeighsNothing(ctx.members);
    for j := 0 to |weights|
      invariant total == Weight(ctx.members, Signers(votes[..j]))
    {
      PassingVoteAddsPower(ctx, votes, slot, j);
      // The checked addition of the source never overflows: distinct members weigh at most the total.
      assert total + weights[j] <= U128_MAX;
      total := total + weights[j];
    }
    assert votes[..|votes|] == votes;
  }

  /** What an accepted certificate proves: authentic votes of distinct members in one slot, weighing a quorum. */
  ghost predicate Certifies(ctx: Context, votes: seq<Vote>, slot: Slot) {
    && Ascending(votes)
    && (forall i | 0 <= i < |votes| :: InSlot(votes[i], slot) && VerifyVote(ctx, votes[i]).Ok?)
    && Weight(ctx.members, Signers(votes)) >= ctx.Quorum()
  }

  lemma TallyAcceptsExactlyQuorums(ctx: Context, votes: seq<Vote>, slot: Slot)
    requires ctx.Valid() && Ascending(votes)
    ensures SerialTally(ctx, votes, slot, 0, 0).Ok? <==> Certifies(ctx, votes, slot)
  {
    if forall i | 0 <= i < |votes| :: Passes(ctx, votes[i], slot) {
      SerialReaches(ctx, votes, slot, |votes|);
      assert votes[..|votes|] == votes;
    } else {
      var k := FirstThatFails(ctx, votes, slot);
      SerialReaches(ctx, votes, slot, k);
      assert !(InSlot(votes[k], slot) && VerifyVote(ctx, votes[k]).Ok?);
    }
  }

  /** Why this vote cannot count for the slot. */
  ghost function VoteFault(ctx: Context, vote: Vote, slot: Slot): Option<ConsensusError> {
    if !InSlot(vote, slot) then Some(InvalidCertificate)
    else if VerifyVote(ctx, vote).Err? then Some(VerifyVote(ctx, vote).error)
    else None
  }

  /** Votes are refused for the first one that cannot count, or for their weight if all can. */
  lemma TallyReports(ctx: Context, votes: seq<Vote>, slot: Slot) returns (k: nat)
    requires ctx.Valid() && Ascending(votes)
    ensures k <= |votes| && forall i | 0 <= i < k :: VoteFault(ctx, votes[i], slot).None?
    ensures k < |votes| ==>
              && VoteFault(ctx, votes[k], slot).Some?
              && SerialTally(ctx, votes, slot, 0, 0) == Err(VoteFault(ctx, votes[k], slot).value)
    ensures k == |votes| ==>
              var weight := Weight(ctx.members, Signers(votes));
              SerialTally(ctx, votes, slot, 0, 0)
              == if weight < ctx.Quorum() then Err(InvalidCertificate) else Ok(weight)
  {
    forall i | 0 <= i < |votes|
      ensures Passes(ctx, votes[i], slot) <==> VoteFault(ctx, votes[i], slot).None?
    {
    }
    if forall i | 0 <= i < |votes| :: Passes(ctx, votes[i], slot) {
      k := |votes|;
      assert votes[..|votes|] == votes;
    } else {
      k := FirstThatFails(ctx, votes, slot);
    }
    SerialReaches(ctx, votes, slot, k);
  }

  lemma FirstThatFails(ctx: Context, votes: seq<Vote>, slot: Slot) returns (k: nat)
    requires exists i :: 0 <= i < |votes| && !Passes(ctx, votes[i], slot)
    ensures k < |votes| && !Passes(ctx, votes[k], slot)
    ensures forall i | 0 <= i < k :: Passes(ctx, votes[i], slot)
  {
    k := 0;
    while Passes(ctx, votes[k], slot)
      invariant k < |votes|
      invariant forall i | 0 <= i < k :: Passes(ctx, votes[i], slot)
      decreases |votes| - k
    {
      if k + 1 == |votes| {
        assert forall i | 0 <= i < |votes| :: Passes(ctx, votes[i], slot);
      }
      k := k + 1;
    }
  }

  // Finality certificates.

  datatype Entry = Entry(voter: ValidatorId, signature: Signature)

  datatype FinalityCertificate = FinalityCertificate(
    chainId: nat, height: nat, round: nat, root: CommitteeRoot, block: Hash, signatures: seq<Entry>)

  /** The precommits whose digests the certificate's signatures cover. */
  function CertificateVotes(c: FinalityCertificate): seq<Vote> {
    seq(|c.signatures|, i requires 0 <= i < |c.signatures| =>
      Vote(VoteBody(c.chainId, c.root, c.height, c.round, Precommit, Some(c.block), c.signatures[i].voter),
           c.signatures[i].signature))
  }

  predicate CertificateShape(c: FinalityCertificate) {
    && 0 < |c.signatures| <= MAX_COMMITTEE_MEMBERS
    && Ascending(CertificateVotes(c))
  }

  predicate CertificateMatches(ctx: Context, c: FinalityCertificate, header: Header) {
    && header.height == ctx.height && header.root == ctx.Root()
    && c.chainId == ctx.chainId && c.height == ctx.height && c.root == ctx.Root()
    && c.block == header.hash
    && |c.signatures| <= |ctx.members|
  }

  /** Reference decision on a finality certificate, one signature after the other. */
  function CertificateDecision(ctx: Context, c: FinalityCertificate, header: Header): Result<(), ConsensusError> {
    if !CertificateShape(c) || !CertificateMatches(ctx, c, header) then Err(InvalidCertificate)
    else
      var _ :- SerialTally(ctx, CertificateVotes(c), Slot(Precommit, c.round, c.block), 0, 0);
      Ok(())
  }

  method VerifyCertificate(ctx: Context, c: FinalityCertificate, header: Header, workers: nat, spawns: nat -> bool)
    returns (r: Result<(), ConsensusError>)
    requires ctx.Valid()
    ensures r == CertificateDecision(ctx, c, header)
  {
    if !CertificateShape(c) || !CertificateMatches(ctx, c, header) {
      return Err(InvalidCertificate);
    }
    var total := Tally(ctx, CertificateVotes(c), Slot(Precommit, c.round, c.block), workers, spawns);
    return match total case Ok(_) => Ok(()) case Err(e) => Err(e);
  }

  /** Acceptance means: right context and header, and an authentic precommit quorum. */
  lemma CertificateMeaning(ctx: Context, c: FinalityCertificate, header: Header)
    requires ctx.Valid()
    ensures CertificateDecision(ctx, c, header).Ok? <==>
            && CertificateShape(c) && CertificateMatches(ctx, c, header)
            && Certifies(ctx, CertificateVotes(c), Slot(Precommit, c.round, c.block))
  {
    if CertificateShape(c) {
      TallyAcceptsExactlyQuorums(ctx, CertificateVotes(c), Slot(Precommit, c.round, c.block));
    }
  }

  /** The same field by field: this header, this context, one to 4096 signatures of members in ascending order. */
  lemma CertificateRules(ctx: Context, c: FinalityCertificate, header: Header)
    requires ctx.Valid()
    ensures CertificateDecision(ctx, c, header).Ok? <==>
            && header == Header(ctx.height, ctx.Root(), c.block)
            && c.chainId == ctx.chainId && c.height == ctx.height && c.root == ctx.Root()
            && 1 <= |c.signatures| <= 4096 && |c.signatures| <= |ctx.members|
            && (forall i, j | 0 <= i < j < |c.signatures| :: c.signatures[i].voter < c.signatures[j].voter)
            && Certifies(ctx, CertificateVotes(c), Slot(Precommit, c.round, c.block))
    ensures !(CertificateShape(c) && CertificateMatches(ctx, c, header)) ==>
              CertificateDecision(ctx, c, header) == Err(InvalidCertificate)
  {
    CertificateMeaning(ctx, c, header);
    var votes := CertificateVotes(c);
    assert forall i | 0 <= i < |votes| :: votes[i].body.voter == c.signatures[i].voter;
    if Ascending(votes) {
      forall i, j | 0 <= i < j < |c.signatures|
        ensures c.signatures[i].voter < c.signatures[j].voter
      {
        AscendingIsStrict(votes, i, j);
      }
    }
    hide Certifies;
  }

  // Prevote certificates.

  /** Verified prevotes; built only by `FromVotes`, against some committee. */
  datatype PrevoteCertificate = PrevoteCertificate(votes: seq<Vote>) {

    predicate Shape() {
      && 0 < |votes| <= MAX_COMMITTEE_MEMBERS
      && Ascending(votes)
      && votes[0].body.block.Some?
    }

    function Round(): nat
      requires Shape()
    {
      votes[0].body.round
    }

    function Block(): Hash
      requires Shape()
    {
      votes[0].body.block.value
    }

    function PrevoteSlot(): Slot
      requires Shape()
    {
      Slot(Prevote, Round(), Block())
    }

    /** The first vote names this context's chain, height and committee. */
    predicate VerifyContext(ctx: Context)
      requires Shape()
    {
      votes[0].body.chainId == ctx.chainId && votes[0].body.height == ctx.height && votes[0].body.root == ctx.Root()
    }
  }

  /** A proof has one to 4096 votes in ascending order of voter, the first of them for a block. */
  lemma ProofRules(proof: PrevoteCertificate)
    ensures proof.Shape() <==>
            && 1 <= |proof.votes| <= 4096 && proof.votes[0].body.block.Some?
            && forall i, j | 0 <= i < j < |proof.votes| :: proof.votes[i].body.voter < proof.votes[j].body.voter
  {
    if Ascending(proof.votes) {
      forall i, j | 0 <= i < j < |proof.votes|
        ensures proof.votes[i].body.voter < proof.votes[j].body.voter
      {
        AscendingIsStrict(proof.votes, i, j);
      }
    }
  }

  function FromVotesDecision(ctx: Context, votes: seq<Vote>): Result<PrevoteCertificate, ConsensusError> {
    var proof := PrevoteCertificate(votes);
    if !proof.Shape() then Err(InvalidCertificate)
    else
      var _ :- SerialTally(ctx, votes, proof.PrevoteSlot(), 0, 0);
      Ok(proof)
  }

  method FromVotes(ctx: Context, votes: seq<Vote>, workers: nat, spawns: nat -> bool)
    returns (r: Result<PrevoteCertificate, ConsensusError>)
    requires ctx.Valid()
    ensures r == FromVotesDecision(ctx, votes)
  {
    var proof := PrevoteCertificate(votes);
    if !proof.Shape() {
      return Err(InvalidCertificate);
    }
    var total := Tally(ctx, votes, proof.PrevoteSlot(), workers, spawns);
    return match total case Ok(_) => Ok(proof) case Err(e) => Err(e);
  }

  /** The type's own guarantee: every value came out of `FromVotes` for some valid committee. */
  ghost predicate Genuine(proof: PrevoteCertificate) {
    exists ctx: Context :: ctx.Valid() && FromVotesDecision(ctx, proof.votes) == Ok(proof)
  }

  /**
   * Comparing only the first vote's context is enough: a genuine proof that passes it
   * is a prevote quorum of exactly this committee, whatever committee it was built with.
   */
  lemma GenuineProofIsAQuorumHere(ctx: Context, proof: PrevoteCertificate)
    requires ctx.Valid() && Genuine(proof) && proof.Shape() && proof.VerifyContext(ctx)
    ensures Certifies(ctx, proof.votes, proof.PrevoteSlot())
    ensures FromVotesDecision(ctx, proof.votes) == Ok(proof)
  {
    var other: Context :| other.Valid() && FromVotesDecision(other, proof.votes) == Ok(proof);
    TallyAcceptsExactlyQuorums(other, proof.votes, proof.PrevoteSlot());
    assert VerifyVote(other, proof.votes[0]).Ok?;
    assert other.Root() == ctx.Root();
    assert other == ctx;
  }
}
