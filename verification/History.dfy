/** Committee history: an append-only frontier, its prover and its verifier. */
module History {

  import opened Wrappers
  import opened MerkleTree
  import opened Frontier

  datatype HistoryError = InvalidTransition | InvalidProof | LookupFailed

  /** What the accumulator needs of an authenticated committee. */
  datatype CommitteeId = CommitteeId(chainId: nat, height: nat, root: nat)

  datatype Proof = Proof(entries: nat, height: nat, committee: nat, siblings: seq<Hash>)

  type Lookup = nat -> Result<nat, HistoryError>

  /** Leaves for committee roots at contiguous heights from one. */
  function Leaves(chainId: nat, genesis: nat, roots: seq<nat>): (r: seq<Hash>)
    ensures |r| == |roots|
  {
    seq(|roots|, i requires 0 <= i < |roots| => Leaf(chainId, genesis, i + 1, roots[i]))
  }

  /** Height `h`, counted from one, is the `h`-th leaf, bound to chain, genesis and its own number. */
  lemma LeafOfHeight(chainId: nat, genesis: nat, roots: seq<nat>, h: nat)
    requires 1 <= h <= |roots|
    ensures Leaves(chainId, genesis, roots)[h - 1] == Leaf(chainId, genesis, h, roots[h - 1])
  {
  }

  lemma LeavesOfOneMore(chainId: nat, genesis: nat, roots: seq<nat>, root: nat)
    ensures Leaves(chainId, genesis, roots + [root])
         == Leaves(chainId, genesis, roots) + [Leaf(chainId, genesis, |roots| + 1, root)]
  {
  }

  lemma LeavesAreInjective(chainId: nat, genesis: nat, a: seq<nat>, b: seq<nat>)
    requires Leaves(chainId, genesis, a) == Leaves(chainId, genesis, b)
    ensures a == b
  {
    assert |a| == |b|;
    forall i | 0 <= i < |a|
      ensures a[i] == b[i]
    {
      assert Leaves(chainId, genesis, a)[i] == Leaves(chainId, genesis, b)[i];
    }
  }

  /** The lookup of the committee appended at position `i` succeeds. */
  ghost predicate Answers(lookup: Lookup, i: nat) {
    lookup(i + 1).Ok?
  }

  /** The lookups return exactly these roots. */
  ghost predicate AnswersAre(lookup: Lookup, roots: seq<nat>) {
    forall i | 0 <= i < |roots| :: Answers(lookup, i) && lookup(i + 1).value == roots[i]
  }

  /** What the first `n` lookups return, with a placeholder where they fail. */
  ghost function Found(lookup: Lookup, n: nat): (r: seq<nat>)
    ensures |r| == n
  {
    seq(n, i requires 0 <= i < n => if Answers(lookup, i) then lookup(i + 1).value else 0)
  }

  lemma FoundMeaning(lookup: Lookup, roots: seq<nat>)
    ensures var found := Found(lookup, |roots|);
            && (forall i | 0 <= i < 0 + |roots| && Answers(lookup, i) :: found[i] == lookup(i + 1).value)
            && (AnswersAre(lookup, roots) <==> found == roots && forall i | 0 <= i < |roots| :: Answers(lookup, i))
  {
    var found := Found(lookup, |roots|);
    assert forall i | 0 <= i < |roots| && Answers(lookup, i) :: found[i] == lookup(i + 1).value;
  }

  /** Depth of one entry in the tree, as the shape check counts it. */
  method Depth(height: nat, entries: nat, ghost d: seq<Hash>) returns (depth: nat)
    requires 0 < height <= entries == |d|
    ensures depth == |Path(height - 1, d)|
  {
    var index: nat, count: nat := height - 1, entries;
    depth := 0;
    ghost var rest := d;
    while count > 1
      invariant 0 <= index < count == |rest|
      invariant |Path(height - 1, d)| == |Path(index, rest)| + depth
      decreases count
    {
      var split := Split(count);
      if index < split {
        rest := rest[..split];
        count := split;
      } else {
        rest := rest[split..];
        index := index - split;
        count := count - split;
      }
      depth := depth + 1;
    }
  }

  /** The shifting loop of the verifier. */
  method WalkSiblings(height: nat, entries: nat, leaf: Hash, siblings: seq<Hash>) returns (r: Option<Hash>)
    requires 0 < height <= entries
    ensures r == Walk(height - 1, entries - 1, leaf, siblings)
  {
    var index: nat, last: nat, root := height - 1, entries - 1, leaf;
    for i := 0 to |siblings|
      invariant Walk(index, last, root, siblings[i..]) == Walk(height - 1, entries - 1, leaf, siblings)
    {
      if last == 0 {
        return None;
      }
      assert siblings[i..][0] == siblings[i] && siblings[i..][1..] == siblings[i + 1..];
      if index % 2 == 1 || index == last {
        root := Node(siblings[i], root);
        ghost var skipped := SkipEven(index, last);
        while index != 0 && index % 2 == 0
          invariant SkipEven(index, last) == skipped
          decreases index
        {
          index, last := index / 2, last / 2;
        }
      } else {
        root := Node(root, siblings[i]);
      }
      index, last := index / 2, last / 2;
    }
    assert siblings[|siblings|..] == [];
    return if last == 0 then Some(root) else None;
  }

  class CommitteeHistory {
    const chainId: nat
    const genesis: nat
    const frontier: array<Option<Hash>>
    var entries: nat
    ghost var roots: seq<nat>

    ghost function Entries(): seq<Hash>
      reads this
    {
      Leaves(chainId, genesis, roots)
    }

    ghost predicate Valid()
      reads this, frontier
    {
      && frontier.Length == LEVELS
      && entries == |roots| <= U64_MAX
      && forall l | 0 <= l < LEVELS :: frontier[l] == Peak(Entries(), l)
    }

    constructor (chainId: nat, genesis: nat)
      ensures Valid() && roots == [] && fresh(frontier)
      ensures this.chainId == chainId && this.genesis == genesis
    {
      this.chainId, this.genesis, this.entries, this.roots := chainId, genesis, 0, [];
      frontier := new Option<Hash>[LEVELS](_ => None);
      new;
      forall l | 0 <= l < LEVELS
        ensures Peak(Entries(), l).None?
      {
        EmptyLevel(Entries(), l);
      }
    }

    /** Adds exactly the next committee of this chain; any other input leaves the history unchanged. */
    method Append(context: CommitteeId) returns (r: Result<(), HistoryError>)
      requires Valid()
      modifies this, frontier
      ensures Valid()
      ensures r.Ok? <==> old(entries) < U64_MAX && context.chainId == chainId && context.height == old(entries) + 1
      ensures r.Ok? ==> roots == old(roots) + [context.root]
      ensures r.Err? ==> r.error == InvalidTransition && roots == old(roots) && frontier[..] == old(frontier[..])
    {
      if entries >= U64_MAX || context.chainId != chainId || context.height != entries + 1 {
        return Err(InvalidTransition);
      }
      var leaf := Leaf(chainId, genesis, entries + 1, context.root);
      LeavesOfOneMore(chainId, genesis, roots, context.root);
      Carry(Entries(), leaf);
      entries := entries + 1;
      roots := roots + [context.root];
      return Ok(());
    }

    /** Binary addition of one leaf: occupied levels merge upward until a free one takes the carry. */
    method Carry(ghost d: seq<Hash>, leaf: Hash)
      requires frontier.Length == LEVELS && |d| == entries < U64_MAX
      requires forall l | 0 <= l < LEVELS :: frontier[l] == Peak(d, l)
      modifies frontier
      ensures forall l | 0 <= l < LEVELS :: frontier[l] == Peak(d + [leaf], l)
    {
      hide Half;
      hide Level;
      ghost var e := d + [leaf];
      LevelZero(d);
      LevelZero(e);
      var carry, occupied, level := leaf, entries, 0;
      while occupied % 2 == 1
        invariant 0 <= level < LEVELS
        invariant 0 <= occupied == |Level(d, level)|
        invariant Level(e, level) == Level(d, level) + [carry]
        invariant entries + 1 == Shl(occupied + 1, level)
        invariant forall l | 0 <= l < level :: frontier[l].None? && Peak(e, l).None?
        invariant forall l | level <= l < LEVELS :: frontier[l] == Peak(d, l)
        decreases LEVELS - level
      {
        LevelUp(d, level);
        LevelUp(e, level);
        CarryStep(Level(d, level), carry);
        CarryFits(entries, occupied, level);
        var left := frontier[level].value;
        frontier[level] := None;
        carry := Node(left, carry);
        occupied := occupied / 2;
        level := level + 1;
      }
      LevelUp(d, level);
      LevelUp(e, level);
      CarryStep(Level(d, level), carry);
      frontier[level] := Some(carry);
      forall l | level < l < LEVELS
        ensures Peak(e, l) == Peak(d, l)
      {
        EqualAbove(d, e, level + 1, l);
      }
    }

    /** Folds the peaks from the lowest level: the Merkle root of everything appended. */
    method TreeRoot() returns (root: Hash)
      requires Valid()
      ensures root == Root(Entries())
    {
      var right: Option<Hash> := None;
      for l := 0 to LEVELS
        invariant RootWith(Level(Entries(), l), right) == Root(Entries())
      {
        FoldStep(Level(Entries(), l), right);
        right := FoldPeak(frontier[l], right);
      }
      LevelsRunOut(Entries());
      assert right.Some? ==> [] + [right.value] == [right.value];
      return if right.Some? then right.value else Empty;
    }

    /** Rebuilds one subtree from looked-up roots, collecting the siblings of `height`. */
    method Subtree(start: nat, count: nat, lookup: Lookup, height: nat, ghost found: seq<nat>)
      returns (r: Result<(Hash, nat, seq<Hash>), HistoryError>)
      requires 0 < count && start + count <= |found|
      requires forall i | start <= i < start + count && Answers(lookup, i) :: found[i] == lookup(i + 1).value
      ensures r.Ok? <==> forall i | start <= i < start + count :: Answers(lookup, i)
      ensures r.Ok? ==>
                var part := Leaves(chainId, genesis, found)[start..start + count];
                && r.value.0 == Root(part)
                && (start < height <= start + count ==>
                      r.value.1 == found[height - 1] && r.value.2 == Path(height - 1 - start, part))
      decreases count
    {
      hide Root;
      hide Path;
      ghost var all := Leaves(chainId, genesis, found);
      if count == 1 {
        var root := lookup(start + 1);
        if root.Err? {
          assert !Answers(lookup, start);
          return Err(root.error);
        }
        assert all[start..start + 1] == [all[start]];
        SingleEntry(all[start]);
        return Ok((Leaf(chainId, genesis, start + 1, root.value), root.value, []));
      }
      var split := Split(count);
      var left := Subtree(start, split, lookup, height, found);
      if left.Err? {
        return Err(left.error);
      }
      var right := Subtree(start + split, count - split, lookup, height, found);
      if right.Err? {
        return Err(right.error);
      }
      ghost var l, r' := all[start..start + split], all[start + split..start + count];
      StretchesJoin(all, start, split, count);
      RootThroughSplit(l, r');
      if start < height <= start + split {
        PathThroughLeft(height - 1 - start, l, r');
      } else if start + split < height <= start + count {
        PathThroughRight(height - 1 - start - split, l, r');
      }
      var inLeft := height <= start + split;
      var below := if inLeft then left.value else right.value;
      var sibling := if inLeft then right.value.0 else left.value.0;
      return Ok((Node(left.value.0, right.value.0), below.1, below.2 + [sibling]));
    }

    /**
     * Builds a proof from untrusted lookups. A proof comes out exactly when the lookups
     * are the appended roots, and then it is the one genuine proof for that height.
     */
    method Prove(height: nat, maximum: nat, lookup: Lookup) returns (r: Result<Proof, HistoryError>)
      requires Valid()
      ensures r.Ok? <==> 0 < height <= entries <= maximum && AnswersAre(lookup, roots)
      ensures r.Ok? ==> r.value == Genuine(height)
    {
      if height == 0 || height > entries || entries > maximum {
        return Err(InvalidTransition);
      }
      assert entries == |roots|;
      hide *;
      FoundMeaning(lookup, roots);
      EqualRootsEqualCommittees(chainId, genesis, Found(lookup, entries), roots);
      var built := Rebuild(height, lookup);
      if built.Err? {
        return Err(built.error);
      }
      var expected := TreeRoot();
      if built.value.0 != expected {
        return Err(InvalidProof);
      }
      return Ok(Proof(entries, height, built.value.1, built.value.2));
    }

    /** The whole tree from the looked-up roots. */
    method Rebuild(height: nat, lookup: Lookup) returns (r: Result<(Hash, nat, seq<Hash>), HistoryError>)
      requires 0 < height <= entries
      ensures r.Ok? <==> forall i | 0 <= i < entries :: Answers(lookup, i)
      ensures r.Ok? ==>
                var (found, leaves) := (Found(lookup, entries), Leaves(chainId, genesis, Found(lookup, entries)));
                r.value == (Root(leaves), found[height - 1], Path(height - 1, leaves))
    {
      hide Root;
      hide Path;
      ghost var found := Found(lookup, entries);
      FoundMeaning(lookup, found);
      r := Subtree(0, entries, lookup, height, found);
      ghost var leaves := Leaves(chainId, genesis, found);
      assert leaves[0..0 + entries] == leaves;
    }

    /** The only proof for `height`: its true committee root and its audit path. */
    ghost function Genuine(height: nat): Proof
      requires 0 < height <= |roots|
      reads this
    {
      Proof(|roots|, height, roots[height - 1], Path(height - 1, Entries()))
    }

    /**
     * Checks a proof against this trusted history. Accepted proofs are exactly the
     * genuine ones presented with the committee that was appended at their height.
     */
    method Verify(proof: Proof, context: CommitteeId) returns (r: Result<(), HistoryError>)
      requires Valid()
      ensures r.Ok? <==>
              && 0 < proof.height <= |roots| && proof == Genuine(proof.height)
              && context == CommitteeId(chainId, proof.height, roots[proof.height - 1])
    {
      hide Peak;
      hide Root;
      hide Path;
      hide Walk;
      if proof.height == 0 || proof.height > proof.entries || |proof.siblings| > 64 {
        GenuineIsShort();
        return Err(InvalidProof);
      }
      ghost var anyEntries := seq(proof.entries, i => Empty);
      var depth := Depth(proof.height, proof.entries, if proof.entries == |roots| then Entries() else anyEntries);
      if |proof.siblings| != depth {
        return Err(InvalidProof);
      }
      if proof.entries != entries || context.chainId != chainId || context.height != proof.height
         || context.root != proof.committee {
        return Err(InvalidProof);
      }
      var leaf := Leaf(chainId, genesis, proof.height, proof.committee);
      var walked := WalkSiblings(proof.height, proof.entries, leaf, proof.siblings);
      var root := TreeRoot();
      OnlyTheGenuineProofWalks(Entries(), proof.height - 1, leaf, proof.siblings);
      if walked != Some(root) {
        return Err(InvalidProof);
      }
      return Ok(());
    }

    lemma GenuineIsShort()
      requires Valid()
      ensures forall height | 0 < height <= |roots| :: |Genuine(height).siblings| <= 64
    {
      Pow2Of64();
      forall height | 0 < height <= |roots|
        ensures |Genuine(height).siblings| <= 64
      {
        PathLength(height - 1, Entries(), 64);
      }
    }
  }

  lemma LevelZero(d: seq<Hash>)
    ensures Level(d, 0) == d && Shl(|d| + 1, 0) == |d| + 1
  {
  }

  lemma LevelUp(d: seq<Hash>, level: nat)
    ensures Level(d, level + 1) == Half(Level(d, level))
    ensures |Half(Level(d, level))| == |Level(d, level)| / 2
  {
  }

  lemma StretchesJoin(all: seq<Hash>, start: nat, split: nat, count: nat)
    requires split <= count && start + count <= |all|
    ensures all[start..start + split] + all[start + split..start + count] == all[start..start + count]
  {
  }

  lemma SingleEntry(h: Hash)
    ensures Root([h]) == h && Path(0, [h]) == []
  {
  }

  lemma RootThroughSplit(l: seq<Hash>, r: seq<Hash>)
    requires 2 <= |l + r| && |l| == Split(|l + r|)
    ensures Root(l + r) == Node(Root(l), Root(r))
  {
    assert (l + r)[..|l|] == l && (l + r)[|l|..] == r;
  }

  lemma EqualRootsEqualCommittees(chainId: nat, genesis: nat, a: seq<nat>, b: seq<nat>)
    requires |a| == |b|
    ensures |Leaves(chainId, genesis, a)| == |a|
    ensures Leaves(chainId, genesis, a)[0..|a|] == Leaves(chainId, genesis, a)
    ensures Root(Leaves(chainId, genesis, a)) == Root(Leaves(chainId, genesis, b)) <==> a == b
  {
    hide Root;
    if Root(Leaves(chainId, genesis, a)) == Root(Leaves(chainId, genesis, b)) {
      RootIsInjective(Leaves(chainId, genesis, a), Leaves(chainId, genesis, b));
      LeavesAreInjective(chainId, genesis, a, b);
    }
  }

  /** Among sibling lists of the right length, exactly the audit path walks from the true leaf to the root. */
  lemma OnlyTheGenuineProofWalks(d: seq<Hash>, m: nat, leaf: Hash, siblings: seq<Hash>)
    requires m < |d| && |siblings| == |Path(m, d)|
    ensures Walk(m, |d| - 1, leaf, siblings) == Some(Root(d)) <==> leaf == d[m] && siblings == Path(m, d)
  {
    WalkAcceptsPath(m, d);
    if Walk(m, |d| - 1, leaf, siblings) == Some(Root(d)) {
      WalkIsInjective(m, |d| - 1, leaf, siblings, d[m], Path(m, d));
    }
  }

  lemma {:induction false} EmptyLevel(d: seq<Hash>, level: nat)
    requires d == []
    ensures Level(d, level) == []
  {
    if level > 0 {
      EmptyLevel(d, level - 1);
    }
  }

  lemma LevelsRunOut(d: seq<Hash>)
    requires |d| <= U64_MAX
    ensures Level(d, LEVELS) == []
  {
    Pow2Of64();
    if Level(d, LEVELS) != [] {
      LevelEntry(d, LEVELS, 0);
      assert false;
    }
  }

  /** With fewer than two to the 64 entries after the append, the carry stops below level 64. */
  lemma CarryFits(entries: nat, occupied: nat, level: nat)
    requires level < LEVELS && occupied % 2 == 1 && entries < U64_MAX
    requires entries + 1 == Shl(occupied + 1, level)
    ensures entries + 1 == Shl(occupied / 2 + 1, level + 1)
    ensures level + 1 < LEVELS
  {
    ShlOfOneMore(occupied / 2, level + 1);
    Pow2Of64();
  }
}
