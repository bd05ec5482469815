/** Quorum arithmetic and weighted sets of committee members. */
module Weights {

  import opened Wrappers

  type ValidatorId = nat

  datatype Member = Member(id: ValidatorId, power: nat)

  /** The least power above two thirds of the total, computed within 128 bits. */
  function QuorumPower(total: nat): (q: nat)
    ensures 3 * q > 2 * total
    ensures 3 * (q - 1) <= 2 * total
    ensures 0 < total ==> q <= total
    ensures total <= U128_MAX ==> (total / 3) * 2 + (total % 3) * 2 / 3 + 1 <= U128_MAX
  {
    (total / 3) * 2 + (total % 3) * 2 / 3 + 1
  }

  /** Combined power of the members whose identity is in `s`. */
  ghost function Weight(members: seq<Member>, s: set<ValidatorId>): nat {
    if members == [] then 0
    else (if members[0].id in s then members[0].power else 0) + Weight(members[1..], s)
  }

  ghost function Ids(members: seq<Member>): set<ValidatorId> {
    set i | 0 <= i < |members| :: members[i].id
  }

  ghost function Total(members: seq<Member>): nat {
    Weight(members, Ids(members))
  }

  lemma {:induction false} WeightUnionAndIntersection(members: seq<Member>, a: set<ValidatorId>, b: set<ValidatorId>)
    ensures Weight(members, a) + Weight(members, b) == Weight(members, a + b) + Weight(members, a * b)
  {
    if members != [] {
      WeightUnionAndIntersection(members[1..], a, b);
    }
  }

  lemma {:induction false} WeightMonotone(members: seq<Member>, a: set<ValidatorId>, b: set<ValidatorId>)
    requires a * Ids(members) <= b
    ensures Weight(members, a) <= Weight(members, b)
  {
    if members != [] {
      assert members[0].id in Ids(members);
      assert forall x | x in Ids(members[1..]) :: x in Ids(members);
      WeightMonotone(members[1..], a, b);
    }
  }

  /** Any set weighs at most the whole committee. */
  lemma WeightAtMostTotal(members: seq<Member>, s: set<ValidatorId>)
    ensures Weight(members, s) <= Total(members)
  {
    WeightMonotone(members, s, Ids(members));
  }

  /** Two quorums always share strictly more than one third of the power. */
  lemma QuorumsOverlap(members: seq<Member>, a: set<ValidatorId>, b: set<ValidatorId>)
    requires Weight(members, a) >= QuorumPower(Total(members))
    requires Weight(members, b) >= QuorumPower(Total(members))
    ensures 3 * Weight(members, a * b) > Total(members)
  {
    WeightUnionAndIntersection(members, a, b);
    WeightAtMostTotal(members, a + b);
  }

  /** With at most one third faulty, two quorums share a member that is not faulty. */
  lemma HonestInBothQuorums(members: seq<Member>, faulty: set<ValidatorId>,
                            a: set<ValidatorId>, b: set<ValidatorId>) returns (v: ValidatorId)
    requires 3 * Weight(members, faulty) <= Total(members)
    requires Weight(members, a) >= QuorumPower(Total(members))
    requires Weight(members, b) >= QuorumPower(Total(members))
    ensures v in a && v in b && v !in faulty && v in Ids(members)
  {
    QuorumsOverlap(members, a, b);
    if a * b * Ids(members) <= faulty {
      WeightMonotone(members, a * b, faulty);
      assert false;
    }
    v :| v in a * b * Ids(members) && v !in faulty;
  }

  lemma {:induction false} WeightIgnoresStrangers(members: seq<Member>, a: set<ValidatorId>, x: ValidatorId)
    requires x !in Ids(members)
    ensures Weight(members, a + {x}) == Weight(members, a)
  {
    if members != [] {
      assert members[0].id in Ids(members);
      assert forall y | y in Ids(members[1..]) :: y in Ids(members);
      WeightIgnoresStrangers(members[1..], a, x);
    }
  }

  ghost predicate DistinctIds(members: seq<Member>) {
    forall i, j | 0 <= i < j < |members| :: members[i].id != members[j].id
  }

  /** Adding a member that was not counted adds exactly its power. */
  lemma {:induction false} WeightOfOneMore(members: seq<Member>, a: set<ValidatorId>, i: nat)
    requires i < |members| && DistinctIds(members) && members[i].id !in a
    ensures Weight(members, a + {members[i].id}) == Weight(members, a) + members[i].power
  {
    if i == 0 {
      assert members[0].id !in Ids(members[1..]);
      WeightIgnoresStrangers(members[1..], a, members[0].id);
    } else {
      assert members[1..][i - 1] == members[i];
      WeightOfOneMore(members[1..], a, i - 1);
    }
  }

  // Running sums in seat order.

  /** Power of the first `i` members. */
  function Upper(members: seq<Member>, i: nat): nat
    requires i <= |members|
  {
    if i == 0 then 0 else Upper(members, i - 1) + members[i - 1].power
  }

  function Sum(members: seq<Member>): nat {
    Upper(members, |members|)
  }

  lemma {:induction false} UpperGrows(members: seq<Member>, i: nat, j: nat)
    requires i <= j <= |members|
    ensures Upper(members, i) <= Upper(members, j)
  {
    if i < j {
      UpperGrows(members, i, j - 1);
    }
  }

  lemma SumOfOneMore(members: seq<Member>, m: Member)
    ensures Sum(members + [m]) == Sum(members) + m.power
  {
    SamePrefixSum(members + [m], members, |members|);
  }

  lemma {:induction false} SamePrefixSum(a: seq<Member>, b: seq<Member>, n: nat)
    requires n <= |a| && n <= |b| && a[..n] == b[..n]
    ensures Upper(a, n) == Upper(b, n)
  {
    if n > 0 {
      assert a[..n][..n - 1] == a[..n - 1] && b[..n][..n - 1] == b[..n - 1];
      assert a[n - 1] == a[..n][n - 1] == b[..n][n - 1] == b[n - 1];
      SamePrefixSum(a, b, n - 1);
    }
  }
}
