/** Portable double-vote evidence and accountability of conflicting certificates. */
module Evidence {

  import opened Wrappers
  import opened Weights
  import opened Committee
  import opened Certificates

  datatype DoubleVote = DoubleVote(first: Vote, second: Vote)

  /** Nil precedes every block. */
  predicate BlockBefore(a: Option<Hash>, b: Option<Hash>) {
    b.Some? && (a.None? || a.value < b.value)
  }

  predicate SameSlot(e: DoubleVote) {
    && e.first.body.chainId == e.second.body.chainId
    && e.first.body.height == e.second.body.height
    && e.first.body.root == e.second.body.root
    && e.first.body.round == e.second.body.round
    && e.first.body.phase == e.second.body.phase
    && e.first.body.voter == e.second.body.voter
    && BlockBefore(e.first.body.block, e.second.body.block)
  }

  function Verify(ctx: Context, e: DoubleVote): Result<(), ConsensusError> {
    if !SameSlot(e) then Err(InvalidTransition)
    else
      var _ :- VerifyVote(ctx, e.first);
      var _ :- VerifyVote(ctx, e.second);
      Ok(())
  }

  /** The votes in block order, if together they prove a conflict. */
  function FromVotes(ctx: Context, a: Vote, b: Vote): Result<DoubleVote, ConsensusError> {
    var e := if BlockBefore(a.body.block, b.body.block) then DoubleVote(a, b) else DoubleVote(b, a);
    var _ :- Verify(ctx, e);
    Ok(e)
  }

  /** One voter signed two different values in one slot, and both signatures are authentic. */
  ghost predicate Conflict(ctx: Context, a: Vote, b: Vote) {
    && VerifyVote(ctx, a).Ok? && VerifyVote(ctx, b).Ok?
    && a.body.voter == b.body.voter && a.body.round == b.body.round && a.body.phase == b.body.phase
    && a.body.block != b.body.block
  }

  /** Votes that are no conflict of one voter in one slot are refused as such; otherwise the first bad vote decides. */
  lemma EvidenceErrors(ctx: Context, a: Vote, b: Vote)
    requires ctx.Valid() && FromVotes(ctx, a, b).Err?
    ensures var (x, y) := if BlockBefore(a.body.block, b.body.block) then (a, b) else (b, a);
            FromVotes(ctx, a, b).error ==
            if a.body.(block := None) != b.body.(block := None) || a.body.block == b.body.block then InvalidTransition
            else if VerifyVote(ctx, x).Err? then VerifyVote(ctx, x).error
            else VerifyVote(ctx, y).error
  {
  }

  /** Evidence exists exactly for a conflict, and is the same whichever vote comes first. */
  lemma EvidenceIffConflict(ctx: Context, a: Vote, b: Vote)
    requires ctx.Valid()
    ensures FromVotes(ctx, a, b) == FromVotes(ctx, b, a)
    ensures FromVotes(ctx, a, b).Ok? <==> Conflict(ctx, a, b)
    ensures FromVotes(ctx, a, b).Ok? ==>
              && Verify(ctx, FromVotes(ctx, a, b).value).Ok?
              && {FromVotes(ctx, a, b).value.first, FromVotes(ctx, a, b).value.second} == {a, b}
              && var e := FromVotes(ctx, a, b).value;
                 var (x, y) := (e.first.body.block, e.second.body.block);
                 y.Some? && (x.None? || x.value < y.value)
  {
    assert a.body.block != b.body.block ==>
        BlockBefore(a.body.block, b.body.block) != BlockBefore(b.body.block, a.body.block);
  }

  /**
   * Two accepted certificates of one round for different blocks convict more than
   * one third of the power: every common signer yields verifiable evidence.
   */
  lemma ConflictingCertificatesConvict(ctx: Context, c1: FinalityCertificate, h1: Header, c2: FinalityCertificate,
                                       h2: Header)
    requires ctx.Valid() && c1.round == c2.round && c1.block != c2.block
    requires CertificateDecision(ctx, c1, h1).Ok? && CertificateDecision(ctx, c2, h2).Ok?
    ensures 3 * Weight(ctx.members, Signers(CertificateVotes(c1)) * Signers(CertificateVotes(c2))) > Total(ctx.members)
    ensures forall i, j | 0 <= i < |c1.signatures| && 0 <= j < |c2.signatures|
                         && c1.signatures[i].voter == c2.signatures[j].voter ::
              var a, b := CertificateVotes(c1)[i], CertificateVotes(c2)[j];
              && FromVotes(ctx, a, b).Ok? && FromVotes(ctx, a, b) == FromVotes(ctx, b, a)
              && FromVotes(ctx, a, b).value.first.body.voter == c1.signatures[i].voter
              && Verify(ctx, FromVotes(ctx, a, b).value).Ok?
  {
    CertificateMeaning(ctx, c1, h1);
    CertificateMeaning(ctx, c2, h2);
    var v1, v2 := CertificateVotes(c1), CertificateVotes(c2);
    QuorumsOverlap(ctx.members, Signers(v1), Signers(v2));
    forall i, j | 0 <= i < |c1.signatures| && 0 <= j < |c2.signatures|
                  && c1.signatures[i].voter == c2.signatures[j].voter
      ensures var a, b := v1[i], v2[j];
              && FromVotes(ctx, a, b).Ok? && FromVotes(ctx, a, b) == FromVotes(ctx, b, a)
              && FromVotes(ctx, a, b).value.first.body.voter == c1.signatures[i].voter
              && Verify(ctx, FromVotes(ctx, a, b).value).Ok?
    {
      assert InSlot(v1[i], Slot(Precommit, c1.round, c1.block)) && InSlot(v2[j], Slot(Precommit, c2.round, c2.block));
      EvidenceIffConflict(ctx, v1[i], v2[j]);
    }
  }
}
