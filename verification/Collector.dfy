/** Collects the votes of one height until they yield a certificate or evidence of a double vote. */
module Collector {

  import opened Wrappers
  import opened Weights
  import opened Committee
  import opened Certificates
  import opened Ordering
  import Evidence

  type VoteKey = (ValidatorId, Phase)
  type PowerKey = (Phase, Option<Hash>)

  /** Voters whose stored vote of this phase carries this value. */
  ghost function Supporters(votes: map<VoteKey, Vote>, phase: Phase, block: Option<Hash>): set<ValidatorId> {
    set k | k in votes && k.1 == phase && votes[k].body.block == block :: k.0
  }

  ghost predicate StoredOk(ctx: Context, round: nat, votes: map<VoteKey, Vote>) {
    forall k | k in votes ::
      && votes[k].body.voter == k.0 && votes[k].body.phase == k.1 && votes[k].body.round == round
      && VerifyVote(ctx, votes[k]).Ok?
  }

  ghost predicate PowerOk(ctx: Context, votes: map<VoteKey, Vote>, power: map<PowerKey, nat>) {
    forall phase, block ::
      (if (phase, block) in power then power[(phase, block)] else 0) ==
          Weight(ctx.members, Supporters(votes, phase, block))
  }

  ghost predicate ReachesQuorum(ctx: Context, votes: map<VoteKey, Vote>, block: Hash) {
    Weight(ctx.members, Supporters(votes, Precommit, Some(block))) >= ctx.Quorum()
  }

  function HeaderFor(ctx: Context, block: Hash): Header {
    Header(ctx.height, ctx.Root(), block)
  }

  ghost predicate CertificateOk(ctx: Context, round: nat, votes: map<VoteKey, Vote>, c: FinalityCertificate) {
    && ReachesQuorum(ctx, votes, c.block)
    && c.round == round
    && CertificateDecision(ctx, c, HeaderFor(ctx, c.block)).Ok?
    && Signers(CertificateVotes(c)) == Supporters(votes, Precommit, Some(c.block))
  }

  /** Stored votes of one phase and block, in identity order: authentic votes of distinct members in one slot. */
  lemma StoredVote(ctx: Context, round: nat, votes: map<VoteKey, Vote>, k: VoteKey)
    requires StoredOk(ctx, round, votes) && k in votes
    ensures votes[k].body.voter == k.0 && votes[k].body.phase == k.1 && votes[k].body.round == round
    ensures VerifyVote(ctx, votes[k]).Ok?
  {
    hide VerifyVote;
  }

  method StoredFor(ctx: Context, round: nat, votes: map<VoteKey, Vote>, phase: Phase, block: Hash)
    returns (r: seq<Vote>)
    requires ctx.Valid() && StoredOk(ctx, round, votes)
    ensures Ascending(r) && |r| <= |ctx.members| && Signers(r) == Supporters(votes, phase, Some(block))
    ensures forall i | 0 <= i < |r| :: InSlot(r[i], Slot(phase, round, block)) && VerifyVote(ctx, r[i]).Ok?
  {
    hide VerifyVote;
    hide StoredOk;
    ghost var supporters := Supporters(votes, phase, Some(block));
    var voters := InOrder(set k | k in votes && k.1 == phase && votes[k].body.block == Some(block) :: k.0);
    r := [];
    for i := 0 to |voters|
      invariant |r| == i
      invariant forall j | 0 <= j < i :: r[j].body.voter == voters[j]
      invariant forall j | 0 <= j < i :: InSlot(r[j], Slot(phase, round, block)) && VerifyVote(ctx, r[j]).Ok?
    {
      assert voters[i] in supporters;
      StoredVote(ctx, round, votes, (voters[i], phase));
      r := r + [votes[(voters[i], phase)]];
    }
    SignersInOrder(r, voters);
    VotersAreMembers(ctx, round, votes, phase, Some(block));
    AscendingSize(r);
  }

  lemma SignersInOrder(votes: seq<Vote>, voters: seq<ValidatorId>)
    requires |votes| == |voters| && Increasing(voters)
    requires forall j | 0 <= j < |votes| :: votes[j].body.voter == voters[j]
    ensures Signers(votes) == (set i | 0 <= i < |voters| :: voters[i]) && Ascending(votes)
  {
    var ids := set i | 0 <= i < |voters| :: voters[i];
    forall v | v in ids
      ensures v in Signers(votes)
    {
      var i :| 0 <= i < |voters| && voters[i] == v;
      assert votes[i].body.voter == v;
    }
  }

  lemma {:induction false} AscendingSize(votes: seq<Vote>)
    requires Ascending(votes)
    ensures |Signers(votes)| == |votes|
  {
    if votes != [] {
      var n := |votes| - 1;
      var shorter := votes[..n];
      assert forall i | 0 <= i < n :: shorter[i] == votes[i];
      AscendingSize(shorter);
      forall i | 0 <= i < n
        ensures shorter[i].body.voter != votes[n].body.voter
      {
        AscendingIsStrict(votes, i, n);
      }
      assert Signers(votes) == Signers(shorter) + {votes[n].body.voter};
    }
  }

  /** Different values of one phase never share a supporter, so at most one block reaches quorum. */
  lemma AtMostOneQuorum(ctx: Context, votes: map<VoteKey, Vote>, a: Hash, b: Hash)
    requires ReachesQuorum(ctx, votes, a) && ReachesQuorum(ctx, votes, b)
    ensures a == b
  {
    var sa, sb := Supporters(votes, Precommit, Some(a)), Supporters(votes, Precommit, Some(b));
    if a != b {
      QuorumsOverlap(ctx.members, sa, sb);
      assert sa * sb == {};
      EmptySetWeighsNothing(ctx.members);
    }
  }

  /** Every stored proof convicts the voter it is filed under. */
  ghost predicate EvidenceOk(ctx: Context, evidence: map<ValidatorId, Evidence.DoubleVote>) {
    forall v | v in evidence :: evidence[v].first.body.voter == v && Evidence.Verify(ctx, evidence[v]).Ok?
  }

  lemma RefusalIsNotEquivocation(ctx: Context, vote: Vote)
    ensures VerifyVote(ctx, vote) != Err(Equivocation)
  {
  }

  lemma AddEvidence(ctx: Context, round: nat, evidence: map<ValidatorId, Evidence.DoubleVote>, previous: Vote,
                    vote: Vote)
    requires ctx.Valid() && EvidenceOk(ctx, evidence)
    requires VerifyVote(ctx, previous).Ok? && VerifyVote(ctx, vote).Ok?
    requires previous.body.voter == vote.body.voter && previous.body.phase == vote.body.phase
    requires previous.body.round == vote.body.round == round && previous.body.block != vote.body.block
    ensures var proof := Evidence.FromVotes(ctx, previous, vote);
            proof.Ok? && EvidenceOk(ctx, evidence[vote.body.voter := proof.value])
  {
    Evidence.EvidenceIffConflict(ctx, previous, vote);
  }

  class BftFinalityEngine {
    const context: Context
    var round: nat
    var votes: map<VoteKey, Vote>
    var power: map<PowerKey, nat>
    var certificate: Option<FinalityCertificate>
    var evidence: map<ValidatorId, Evidence.DoubleVote>

    ghost predicate Valid()
      reads this
    {
      && context.Valid()
      && StoredOk(context, round, votes)
      && PowerOk(context, votes, power)
      && (certificate.Some? <==> exists block :: ReachesQuorum(context, votes, block))
      && (certificate.Some? ==> CertificateOk(context, round, votes, certificate.value))
      && EvidenceOk(context, evidence)
    }

    constructor (context: Context, round: nat)
      requires context.Valid()
      ensures Valid() && this.context == context && this.round == round
      ensures votes == map[] && power == map[] && certificate.None? && evidence == map[]
    {
      this.context, this.round := context, round;
      votes, power, certificate, evidence := map[], map[], None, map[];
      EmptySetWeighsNothing(context.members);
      assert forall phase, block :: Supporters(map[], phase, block) == {};
    }

    /** Opens the next round with empty tallies, unless a certificate exists or the round counter is full. */
    method AdvanceRound() returns (r: Result<(), ConsensusError>)
      requires Valid()
      modifies this
      ensures Valid() && certificate == old(certificate) && evidence == old(evidence)
      ensures r.Ok? <==> old(certificate).None? && old(round) < U32_MAX
      ensures r.Ok? ==> round == old(round) + 1 && votes == map[] && power == map[]
      ensures r.Err? ==>
                r.error == InvalidTransition && round == old(round) && votes == old(votes) && power == old(power)
    {
      if certificate.Some? || round >= U32_MAX {
        return Err(InvalidTransition);
      }
      round := round + 1;
      votes := map[];
      power := map[];
      EmptySetWeighsNothing(context.members);
      assert forall phase, block :: Supporters(votes, phase, block) == {};
      return Ok(());
    }

    /** The reply to a vote and the evidence it leaves behind. */
    ghost function Reply(vote: Vote): Result<(), ConsensusError>
      reads this
    {
      if vote.body.round != round then Err(InvalidTransition)
      else if VerifyVote(context, vote).Err? then Err(VerifyVote(context, vote).error)
      else if (vote.body.voter, vote.body.phase) in votes then
        if votes[(vote.body.voter, vote.body.phase)].body.block == vote.body.block then Err(DuplicateVote)
        else Err(Equivocation)
      else if certificate.Some? then Err(InvalidTransition)
      else Ok(())
    }

    method ReceiveVote(vote: Vote) returns (r: Result<(), ConsensusError>)
      requires Valid()
      modifies this
      ensures Valid() && round == old(round)
      ensures r == old(Reply(vote))
      ensures r.Ok? ==> votes == old(votes)[(vote.body.voter, vote.body.phase) := vote]
      ensures r.Err? ==> votes == old(votes) && power == old(power) && certificate == old(certificate)
      ensures r == Err(Equivocation) && vote.body.voter !in old(evidence) ==>
                && vote.body.voter in evidence
                && evidence == old(evidence)[vote.body.voter := evidence[vote.body.voter]]
                && (vote.body.voter, vote.body.phase) in old(votes)
                && Evidence.FromVotes(context, old(votes)[(vote.body.voter, vote.body.phase)], vote)
                   == Ok(evidence[vote.body.voter])
      ensures r != Err(Equivocation) || vote.body.voter in old(evidence) ==> evidence == old(evidence)
    {
      hide PowerOk;
      hide ReachesQuorum;
      hide CertificateOk;
      hide EvidenceOk;
      hide StoredOk;
      hide VerifyVote;
      hide Evidence.FromVotes;
      if vote.body.round != round {
        return Err(InvalidTransition);
      }
      var verified := VerifyVote(context, vote);
      if verified.Err? {
        RefusalIsNotEquivocation(context, vote);
        return Err(verified.error);
      }
      var key := (vote.body.voter, vote.body.phase);
      if key in votes {
        var previous := votes[key];
        StoredVote(context, round, votes, key);
        if previous.body.block == vote.body.block {
          return Err(DuplicateVote);
        }
        if vote.body.voter !in evidence {
          AddEvidence(context, round, evidence, previous, vote);
          var proof := Evidence.FromVotes(context, previous, vote);
          evidence := evidence[vote.body.voter := proof.value];
        }
        return Err(Equivocation);
      }
      if certificate.Some? {
        return Err(InvalidTransition);
      }
      Store(vote, verified.value);
      return Ok(());
    }

    /** Accounts for a fresh vote and issues the certificate when its block reaches quorum. */
    method Store(vote: Vote, weight: nat)
      requires Valid() && certificate.None? && vote.body.round == round
      requires VerifyVote(context, vote) == Ok(weight) && (vote.body.voter, vote.body.phase) !in votes
      modifies this`votes, this`power, this`certificate
      ensures Valid() && votes == old(votes)[(vote.body.voter, vote.body.phase) := vote]
    {
      hide StoredOk;
      hide ReachesQuorum;
      hide EvidenceOk;
      hide VerifyVote;
      hide Weight;
      hide Supporters;
      hide CertificateOk;
      hide PowerOk;
      var powerKey := (vote.body.phase, vote.body.block);
      var before := if powerKey in power then power[powerKey] else 0;
      OneMoreSupporter(context, votes, power, vote);
      // The checked addition never fails: stored votes come from distinct members.
      assert before + weight <= U128_MAX;
      var total := before + weight;
      var more, sums := votes[(vote.body.voter, vote.body.phase) := vote], power[powerKey := total];
      OnlyThisValueGains(context, votes, power, more, sums, powerKey);
      StoreOne(context, round, votes, vote);
      votes, power := more, sums;
      if vote.body.phase == Precommit && total >= QuorumOf(context) && vote.body.block.Some? {
        var built := Certify(context, round, votes, vote.body.block.value);
        certificate := Some(built);
      }
    }

    /** A proof for `block` exists exactly when the prevotes stored for it carry a quorum, and is then genuine. */
    method PrevoteProof(block: Hash) returns (r: Result<PrevoteCertificate, ConsensusError>)
      requires Valid()
      ensures r.Ok? <==> Weight(context.members, Supporters(votes, Prevote, Some(block))) >= context.Quorum()
      ensures r.Ok? ==> r.value.Shape() && r.value.Round() == round && r.value.Block() == block && Genuine(r.value)
    {
      var chosen := StoredFor(context, round, votes, Prevote, block);
      if |chosen| == 0 {
        assert Signers(chosen) == {};
        EmptySetWeighsNothing(context.members);
      } else {
        assert InSlot(chosen[0], Slot(Prevote, round, block));
        TallyAcceptsExactlyQuorums(context, chosen, Slot(Prevote, round, block));
      }
      r := FromVotes(context, chosen, 1, _ => true);
    }
  }

  /** Apart from the value whose sum changed, quorums are as before. */
  lemma OnlyThisValueGains(ctx: Context, votes: map<VoteKey, Vote>, power: map<PowerKey, nat>,
                           more: map<VoteKey, Vote>, sums: map<PowerKey, nat>, key: PowerKey)
    requires ctx.Valid() && PowerOk(ctx, votes, power) && PowerOk(ctx, more, sums)
    requires key in sums && sums == power[key := sums[key]]
    requires forall block: Hash :: !ReachesQuorum(ctx, votes, block)
    ensures forall block: Hash :: ReachesQuorum(ctx, more, block) ==> key == (Precommit, Some(block))
    ensures key.0 == Precommit && key.1.Some? ==> (ReachesQuorum(ctx, more, key.1.value) <==> sums[key] >= ctx.Quorum())
  {
    forall block: Hash | ReachesQuorum(ctx, more, block)
      ensures key == (Precommit, Some(block))
    {
      assert !ReachesQuorum(ctx, votes, block);
    }
  }

  /** The stored precommits of a block that reached quorum form a certificate that verifies. */
  method Certify(ctx: Context, round: nat, votes: map<VoteKey, Vote>, block: Hash) returns (c: FinalityCertificate)
    requires ctx.Valid() && StoredOk(ctx, round, votes) && ReachesQuorum(ctx, votes, block)
    ensures c.block == block && CertificateOk(ctx, round, votes, c)
  {
    var stored := StoredFor(ctx, round, votes, Precommit, block);
    var entries := seq(|stored|, i requires 0 <= i < |stored| => Entry(stored[i].body.voter, stored[i].signature));
    c := FinalityCertificate(ctx.chainId, ctx.height, round, ctx.Root(), block, entries);
    CertifiedByStored(ctx, round, stored, c);
  }

  lemma CertifiedByStored(ctx: Context, round: nat, stored: seq<Vote>, c: FinalityCertificate)
    requires ctx.Valid() && Certifies(ctx, stored, Slot(Precommit, round, c.block)) && |stored| <= |ctx.members|
    requires c == FinalityCertificate(ctx.chainId, ctx.height, round, ctx.Root(), c.block, c.signatures)
    requires |c.signatures| == |stored|
    requires forall i | 0 <= i < |stored| :: c.signatures[i] == Entry(stored[i].body.voter, stored[i].signature)
    ensures CertificateVotes(c) == stored
    ensures CertificateDecision(ctx, c, HeaderFor(ctx, c.block)).Ok?
  {
    forall i | 0 <= i < |stored|
      ensures CertificateVotes(c)[i] == stored[i]
    {
      assert InSlot(stored[i], Slot(Precommit, round, c.block)) && VerifyVote(ctx, stored[i]).Ok?;
    }
    assert CertificateVotes(c) == stored;
    if |stored| == 0 {
      assert Signers(stored) == {};
      EmptySetWeighsNothing(ctx.members);
    }
    CertificateMeaning(ctx, c, HeaderFor(ctx, c.block));
  }

  lemma VotersAreMembers(ctx: Context, round: nat, votes: map<VoteKey, Vote>, phase: Phase, block: Option<Hash>)
    requires ctx.Valid() && StoredOk(ctx, round, votes)
    ensures Supporters(votes, phase, block) <= Ids(ctx.members)
    ensures |Supporters(votes, phase, block)| <= |ctx.members|
  {
    var s := Supporters(votes, phase, block);
    forall v | v in s
      ensures v in Ids(ctx.members)
    {
      assert VerifyVote(ctx, votes[(v, phase)]).Ok?;
    }
    IdsCardinality(ctx.members);
    SubsetSize(s, Ids(ctx.members));
  }

  /** The new vote adds its power to its own value and to no other. */
  lemma StoreOne(ctx: Context, round: nat, votes: map<VoteKey, Vote>, vote: Vote)
    requires StoredOk(ctx, round, votes) && vote.body.round == round && VerifyVote(ctx, vote).Ok?
    ensures StoredOk(ctx, round, votes[(vote.body.voter, vote.body.phase) := vote])
  {
    hide VerifyVote;
  }

  lemma OneMoreSupporter(ctx: Context, votes: map<VoteKey, Vote>, power: map<PowerKey, nat>, vote: Vote)
    requires ctx.Valid() && PowerOk(ctx, votes, power) && VerifyVote(ctx, vote).Ok?
    requires (vote.body.voter, vote.body.phase) !in votes
    ensures var key := (vote.body.phase, vote.body.block);
            var total := (if key in power then power[key] else 0) + VerifyVote(ctx, vote).value;
            && total <= U128_MAX
            && PowerOk(ctx, votes[(vote.body.voter, vote.body.phase) := vote], power[key := total])
  {
    var voteKey := (vote.body.voter, vote.body.phase);
    var more := votes[voteKey := vote];
    var v := vote.body.voter;
    var weight := VerifyVote(ctx, vote).value;
    var m :| 0 <= m < |ctx.members| && ctx.members[m] == Member(v, weight);
    var phase, block := vote.body.phase, vote.body.block;
    var was := Supporters(votes, phase, block);
    assert v !in was;
    forall k | k in votes
      ensures k in more && more[k] == votes[k]
    {
    }
    assert Supporters(more, phase, block) == was + {v} by {
      assert voteKey in more && more[voteKey] == vote;
    }
    WeightOfOneMore(ctx.members, was, m);
    WeightAtMostTotal(ctx.members, was + {v});
    forall p, b | (p, b) != (phase, block)
      ensures Supporters(more, p, b) == Supporters(votes, p, b)
    {
    }
  }
}
