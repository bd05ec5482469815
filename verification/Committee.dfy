/** Fixed-height committee contexts, symbolic signatures and single-vote authentication. */
module Committee {

  import opened Wrappers
  import opened Weights

  const MAX_COMMITTEE_MEMBERS := 4096

  /** A 256-bit digest, ordered as its big-endian bytes. */
  type Hash = nat

  datatype ConsensusError =
    | InvalidCommittee | InvalidTransition | UnknownVoter | InvalidProof
    | InvalidCertificate | DuplicateVote | Equivocation

  /** The digest that binds a vote to its committee, kept symbolic: equal roots mean equal ordered member lists. */
  datatype CommitteeRoot = CommitteeRoot(chainId: nat, height: nat, members: seq<Member>)

  datatype Phase = Prevote | Precommit

  datatype VoteBody = VoteBody(
    chainId: nat, root: CommitteeRoot, height: nat, round: nat,
    phase: Phase, block: Option<Hash>, voter: ValidatorId)

  datatype ProposalBody = ProposalBody(
    chainId: nat, genesis: Hash, root: CommitteeRoot, height: nat, round: nat,
    block: Hash, proposer: ValidatorId, validRound: Option<nat>)

  /** Domain-separated signing digest: votes and proposals never share one. */
  datatype Digest = VoteDigest(vote: VoteBody) | ProposalDigest(proposal: ProposalBody)

  /** Symbolic signature: who signed what; `encoding` tells apart byte strings over the same message. */
  datatype Signature = Signature(signer: ValidatorId, digest: Digest, encoding: nat)

  datatype Vote = Vote(body: VoteBody, signature: Signature)

  /** Only the fields that consensus compares; `hash` is the header's own digest. */
  datatype Header = Header(height: nat, root: CommitteeRoot, hash: Hash)

  /** One strict signature verification request. */
  datatype Request = Request(key: ValidatorId, digest: Digest, signature: Signature) {
    predicate Verify() {
      signature.signer == key && signature.digest == digest
    }
  }

  ghost predicate ValidMembers(members: seq<Member>) {
    && 0 < |members| <= MAX_COMMITTEE_MEMBERS
    && DistinctIds(members)
    && (forall i | 0 <= i < |members| :: 0 < members[i].power)
    && Total(members) <= U128_MAX
  }

  /** One to 4096 seats, each of positive power and held by somebody else, with a total that fits 128 bits. */
  lemma CommitteeRules(members: seq<Member>)
    ensures ValidMembers(members) <==>
            && 1 <= |members| <= 4096 && Total(members) < 0x1_0000_0000_0000_0000_0000_0000_0000_0000
            && (forall i | 0 <= i < |members| :: 1 <= members[i].power)
            && forall i, j | 0 <= i < j < |members| :: members[i].id != members[j].id
  {
  }

  /** Accepts exactly the valid member lists, whose 128-bit total it computes without overflow. */
  method TotalPower(members: seq<Member>) returns (r: Result<nat, ConsensusError>)
    ensures r.Ok? <==> ValidMembers(members)
    ensures r.Ok? ==> r.value == Total(members)
    ensures r.Err? ==> r.error == InvalidCommittee
  {
    if |members| == 0 || |members| > MAX_COMMITTEE_MEMBERS {
      return Err(InvalidCommittee);
    }
    var seen: set<ValidatorId> := {};
    var total: nat := 0;
    for i := 0 to |members|
      invariant seen == Ids(members[..i])
      invariant DistinctIds(members[..i])
      invariant forall j | 0 <= j < i :: 0 < members[j].power
      invariant total == Total(members[..i]) <= U128_MAX
    {
      assert members[..i + 1] == members[..i] + [members[i]];
      if members[i].power == 0 || members[i].id in seen {
        if members[i].id in seen {
          var j :| 0 <= j < i && members[..i][j].id == members[i].id;
          assert members[j].id == members[i].id;
        }
        return Err(InvalidCommittee);
      }
      TotalOfOneMore(members[..i], members[i]);
      if total + members[i].power > U128_MAX {
        TotalOfPrefix(members, i + 1);
        return Err(InvalidCommittee);
      }
      total := total + members[i].power;
      seen := seen + {members[i].id};
    }
    assert members[..|members|] == members;
    return Ok(total);
  }

  lemma {:induction false} WeightOfConcat(a: seq<Member>, b: seq<Member>, s: set<ValidatorId>)
    ensures Weight(a + b, s) == Weight(a, s) + Weight(b, s)
  {
    if a == [] {
      assert a + b == b;
    } else {
      assert (a + b)[1..] == a[1..] + b;
      WeightOfConcat(a[1..], b, s);
    }
  }

  lemma TotalOfOneMore(members: seq<Member>, m: Member)
    requires m.id !in Ids(members)
    ensures Total(members + [m]) == Total(members) + m.power
    ensures Ids(members + [m]) == Ids(members) + {m.id}
  {
    var longer := members + [m];
    assert longer[|members|] == m;
    assert forall i | 0 <= i < |members| :: longer[i] == members[i];
    assert Ids(longer) == Ids(members) + {m.id};
    WeightOfConcat(members, [m], Ids(longer));
    WeightIgnoresStrangers(members, Ids(members), m.id);
    assert Weight([m], Ids(longer)) == m.power;
  }

  lemma {:induction false} SumIsTotal(members: seq<Member>)
    ensures DistinctIds(members) ==> Sum(members) == Total(members)
  {
    if members != [] && DistinctIds(members) {
      var n := |members| - 1;
      assert members == members[..n] + [members[n]];
      SumIsTotal(members[..n]);
      SumOfOneMore(members[..n], members[n]);
      TotalOfOneMore(members[..n], members[n]);
    }
  }

  lemma TotalOfPrefix(members: seq<Member>, n: nat)
    requires n <= |members|
    ensures Total(members[..n]) <= Total(members)
  {
    assert members == members[..n] + members[n..];
    WeightOfConcat(members[..n], members[n..], Ids(members));
    assert forall i | 0 <= i < n :: members[..n][i] == members[i];
    WeightMonotone(members[..n], Ids(members[..n]), Ids(members));
  }

  /** Immutable verification context; `registered` holds the identities derived from the supplied keys. */
  datatype Context = Context(chainId: nat, height: nat, members: seq<Member>, registered: set<ValidatorId>) {

    function Root(): CommitteeRoot {
      CommitteeRoot(chainId, height, members)
    }

    ghost predicate Valid() {
      ValidMembers(members) && registered == Ids(members)
    }

    ghost function Quorum(): nat {
      QuorumPower(Total(members))
    }
  }

  /** The weight listed for `id`, if it is listed at all. */
  function VotingPower(members: seq<Member>, id: ValidatorId): (power: Option<nat>)
    ensures power.None? <==> id !in Ids(members)
    ensures power.Some? ==> exists i :: 0 <= i < |members| && members[i] == Member(id, power.value)
  {
    if members == [] then None
    else if members[0].id == id then
      assert members[0] == Member(id, members[0].power);
      Some(members[0].power)
    else
      var rest := VotingPower(members[1..], id);
      assert Ids(members) == {members[0].id} + Ids(members[1..]);
      assert rest.Some? ==> exists i :: 0 <= i < |members| && members[i] == Member(id, rest.value) by {
        if rest.Some? {
          var i :| 0 <= i < |members[1..]| && members[1..][i] == Member(id, rest.value);
          assert members[i + 1] == Member(id, rest.value);
        }
      }
      rest
  }

  /** The first `n` keys are sound and belong to different members. */
  ghost predicate OneEach(members: seq<Member>, keys: seq<Option<ValidatorId>>, n: nat)
    requires n <= |keys|
  {
    && (forall i | 0 <= i < n :: keys[i].Some? && keys[i].value in Ids(members))
    && (forall i, j | 0 <= i < j < n :: keys[i] != keys[j])
  }

  /**
   * Requires one registered key per member and nothing else. `keys` lists the identity
   * derived from each supplied public key, or nothing for a malformed or weak key.
   */
  method Authenticate(chainId: nat, height: nat, members: seq<Member>, keys: seq<Option<ValidatorId>>)
    returns (r: Result<Context, ConsensusError>)
    ensures r.Ok? ==> r.value.Valid() && r.value.Root() == CommitteeRoot(chainId, height, members)
    ensures r.Ok? <==> ValidMembers(members) && |keys| == |members| && OneEach(members, keys, |keys|)
    ensures r == Err(InvalidProof) <==>
            && ValidMembers(members) && |keys| == |members|
            && exists i :: 0 <= i < |keys| && keys[i].None? && OneEach(members, keys, i)
    ensures r.Err? ==> r.error == InvalidProof || r.error == InvalidCommittee
  {
    hide OneEach;
    var total := TotalPower(members);
    if total.Err? {
      return Err(total.error);
    }
    if |keys| != |members| {
      return Err(InvalidCommittee);
    }
    var registered := Register(members, keys);
    if registered.Err? {
      return Err(registered.error);
    }
    IdsCardinality(members);
    SubsetOfSameSize(registered.value, Ids(members));
    return Ok(Context(chainId, height, members, registered.value));
  }

  /** The identities of the keys, all of them members; the first key that is refused decides the error. */
  method Register(members: seq<Member>, keys: seq<Option<ValidatorId>>)
    returns (r: Result<set<ValidatorId>, ConsensusError>)
    ensures r.Ok? <==> OneEach(members, keys, |keys|)
    ensures r.Ok? ==> r.value <= Ids(members) && |r.value| == |keys|
    ensures r == Err(InvalidProof) <==> exists i :: 0 <= i < |keys| && keys[i].None? && OneEach(members, keys, i)
    ensures r.Err? ==> r.error == InvalidProof || r.error == InvalidCommittee
  {
    assert OneEach(members, keys, 0) && Named(keys[..0]) == {};
    hide OneEach;
    hide Named;
    hide Ids;
    hide VotingPower;
    var registered: set<ValidatorId> := {};
    for i := 0 to |keys|
      invariant OneEach(members, keys, i) && |registered| == i
      invariant registered <= Ids(members)
      invariant registered == Named(keys[..i])
    {
      NextKey(members, keys, i);
      if keys[i].None? {
        return Err(InvalidProof);
      }
      var id := keys[i].value;
      if VotingPower(members, id).None? || id in registered {
        return Err(InvalidCommittee);
      }
      registered := registered + {id};
    }
    SoundKeys(members, keys, |keys|);
    return Ok(registered);
  }

  ghost function Named(keys: seq<Option<ValidatorId>>): set<ValidatorId> {
    set k | k in keys && k.Some? :: k.value
  }

  /** A key extends the list unless it is unsound, a stranger's or a repetition; then no longer list is good. */
  lemma NextKey(members: seq<Member>, keys: seq<Option<ValidatorId>>, i: nat)
    requires i < |keys| && OneEach(members, keys, i)
    ensures var good := keys[i].Some? && keys[i].value in Ids(members) && keys[i].value !in Named(keys[..i]);
            if good then OneEach(members, keys, i + 1)
            else forall n | i < n <= |keys| :: !OneEach(members, keys, n)
    ensures keys[i].Some? ==>
              && Named(keys[..i + 1]) == Named(keys[..i]) + {keys[i].value}
              && forall n | 0 <= n <= i :: keys[n].Some?
  {
    if keys[i].Some? && keys[i].value in Named(keys[..i]) {
      var j :| 0 <= j < i && keys[..i][j] == keys[i];
      assert keys[j] == keys[i];
    }
    assert keys[..i + 1] == keys[..i] + [keys[i]];
  }

  lemma SoundKeys(members: seq<Member>, keys: seq<Option<ValidatorId>>, n: nat)
    requires n <= |keys| && OneEach(members, keys, n)
    ensures forall i | 0 <= i < n :: keys[i].Some?
  {
  }

  lemma {:induction false} IdsCardinality(members: seq<Member>)
    requires DistinctIds(members)
    ensures |Ids(members)| == |members|
  {
    if members != [] {
      var last := |members| - 1;
      IdsCardinality(members[..last]);
      assert forall i | 0 <= i < last :: members[..last][i] == members[i];
      assert Ids(members) == Ids(members[..last]) + {members[last].id};
    }
  }

  lemma SubsetOfSameSize<T>(a: set<T>, b: set<T>)
    requires a <= b && |a| == |b|
    ensures a == b
  {
    assert |b - a| == 0;
  }

  /** Everything checked before the signature; its three errors have a fixed precedence. */
  function VoteCredentials(ctx: Context, vote: Vote): (r: Result<(nat, Request), ConsensusError>)
  {
    if vote.body.chainId != ctx.chainId || vote.body.height != ctx.height || vote.body.root != ctx.Root() then
      Err(InvalidTransition)
    else
      match VotingPower(ctx.members, vote.body.voter)
      case None => Err(UnknownVoter)
      case Some(power) =>
        if vote.body.voter !in ctx.registered then Err(InvalidProof)
        else Ok((power, Request(vote.body.voter, VoteDigest(vote.body), vote.signature)))
  }

  /** Acceptance means: same chain, height and committee, a listed voter that signed this very body, and its weight. */
  function VerifyVote(ctx: Context, vote: Vote): (r: Result<nat, ConsensusError>)
    ensures r.Ok? && ctx.Valid() ==>
              && vote.body.chainId == ctx.chainId && vote.body.height == ctx.height && vote.body.root == ctx.Root()
              && vote.signature.signer == vote.body.voter && vote.signature.digest == VoteDigest(vote.body)
              && VotingPower(ctx.members, vote.body.voter) == Some(r.value)
  {
    var credentials :- VoteCredentials(ctx, vote);
    if credentials.1.Verify() then Ok(credentials.0) else Err(InvalidProof)
  }

  /** Context first, then membership, then the signature; otherwise the vote counts with its member's power. */
  lemma VoteRules(ctx: Context, vote: Vote)
    requires ctx.Valid()
    ensures VerifyVote(ctx, vote) ==
            var b := vote.body;
            if b.chainId != ctx.chainId || b.height != ctx.height || b.root != ctx.Root() then Err(InvalidTransition)
            else if b.voter !in Ids(ctx.members) then Err(UnknownVoter)
            else if vote.signature.signer != b.voter || vote.signature.digest != VoteDigest(b) then Err(InvalidProof)
            else Ok(VotingPower(ctx.members, b.voter).value)
  {
  }

  /** For a registered member the missing-key branch never decides: rejections are context, membership or signature. */
  lemma RegisteredMembersHaveKeys(ctx: Context, vote: Vote)
    requires ctx.Valid()
    ensures VoteCredentials(ctx, vote) != Err(InvalidProof)
    ensures VerifyVote(ctx, vote) == Err(InvalidProof) <==>
            VoteCredentials(ctx, vote).Ok? && !VoteCredentials(ctx, vote).value.1.Verify()
  {
  }
}
