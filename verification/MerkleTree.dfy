/**
 * The Merkle tree of section 2.1 of RFC 9162 over symbolic hashes: its recursive
 * definition, its audit paths, and the bottom-up view the frontier and the verifier use.
 */
module MerkleTree {

  import opened Wrappers

  /** Domain-separated digests; distinct inputs give distinct values. */
  datatype Hash =
    | Empty
    | Leaf(chainId: nat, genesis: nat, height: nat, committee: nat)
    | Node(left: Hash, right: Hash)

  function Pow2(n: nat): (p: nat)
    ensures 0 < p
  {
    if n == 0 then 1 else 2 * Pow2(n - 1)
  }

  function Ilog2(n: nat): nat
    requires 0 < n
  {
    if n == 1 then 0 else 1 + Ilog2(n / 2)
  }

  /** Largest power of two strictly below `count`. */
  function Split(count: nat): (k: nat)
    requires 2 <= count
    ensures 0 < k < count <= 2 * k
  {
    SplitBounds(count - 1);
    Pow2(Ilog2(count - 1))
  }

  lemma {:induction false} SplitBounds(n: nat)
    requires 0 < n
    ensures Pow2(Ilog2(n)) <= n < 2 * Pow2(Ilog2(n))
  {
    if n != 1 {
      SplitBounds(n / 2);
    }
  }

  /** Halving the count halves the split. */
  lemma SplitHalves(count: nat)
    requires 3 <= count
    ensures Split(count) == 2 * Split((count + 1) / 2)
  {
    assert (count + 1) / 2 - 1 == (count - 1) / 2;
  }

  /** Merkle tree hash of an ordered list. */
  function Root(d: seq<Hash>): Hash {
    if |d| == 0 then Empty
    else if |d| == 1 then d[0]
    else
      var k := Split(|d|);
      Node(Root(d[..k]), Root(d[k..]))
  }

  /** Audit path of entry `m`, from the entry upward. */
  function Path(m: nat, d: seq<Hash>): seq<Hash>
    requires m < |d|
  {
    if |d| == 1 then []
    else
      var k := Split(|d|);
      if m < k then Path(m, d[..k]) + [Root(d[k..])]
      else Path(m - k, d[k..]) + [Root(d[..k])]
  }

  /** Equal roots over equally many entries mean equal entries. */
  lemma {:induction false} RootIsInjective(a: seq<Hash>, b: seq<Hash>)
    requires |a| == |b| && Root(a) == Root(b)
    ensures a == b
  {
    if |a| >= 2 {
      var k := Split(|a|);
      RootIsInjective(a[..k], b[..k]);
      RootIsInjective(a[k..], b[k..]);
      assert a == a[..k] + a[k..] && b == b[..k] + b[k..];
    }
  }

  // Bottom-up view.

  /** Complete pairs of one level. */
  function Half(d: seq<Hash>): (r: seq<Hash>)
    ensures |r| == |d| / 2
  {
    seq(|d| / 2, i requires 0 <= i < |d| / 2 => Node(d[2 * i], d[2 * i + 1]))
  }

  /** The next level: complete pairs, and an unpaired last entry promoted unchanged. */
  function Up(d: seq<Hash>): (r: seq<Hash>)
    ensures |r| == (|d| + 1) / 2
  {
    Half(d) + if |d| % 2 == 1 then [d[|d| - 1]] else []
  }

  lemma UpOfConcat(a: seq<Hash>, b: seq<Hash>)
    requires |a| % 2 == 0
    ensures Up(a + b) == Up(a) + Up(b)
  {
    var l, r := Up(a + b), Up(a) + Up(b);
    assert |l| == |r|;
    forall i | 0 <= i < |l|
      ensures l[i] == r[i]
    {
      if i < |a| / 2 {
        assert (a + b)[2 * i] == a[2 * i] && (a + b)[2 * i + 1] == a[2 * i + 1];
      } else if i < |a + b| / 2 {
        var j := i - |a| / 2;
        assert (a + b)[2 * i] == b[2 * j] && (a + b)[2 * i + 1] == b[2 * j + 1];
      }
    }
  }

  /** `d` splits as the tree does, and so does the level above it, at half the position. */
  lemma UpSplits(d: seq<Hash>)
    requires 3 <= |d|
    ensures var k := Split(|d|);
            && k % 2 == 0 && Split(|Up(d)|) == k / 2
            && Up(d)[..k / 2] == Up(d[..k]) && Up(d)[k / 2..] == Up(d[k..])
  {
    var k := Split(|d|);
    SplitHalves(|d|);
    assert d == d[..k] + d[k..];
    UpOfConcat(d[..k], d[k..]);
  }

  /** Climbing one level does not change the root. */
  lemma {:induction false} RootOfUp(d: seq<Hash>)
    ensures Root(Up(d)) == Root(d)
    decreases |d|
  {
    if |d| >= 3 {
      var k := Split(|d|);
      UpSplits(d);
      RootOfUp(d[..k]);
      RootOfUp(d[k..]);
    } else if |d| == 2 {
      assert Up(d) == [Node(d[0], d[1])];
      assert Split(2) == 1 && d[..1] == [d[0]] && d[1..] == [d[1]];
    } else if |d| == 1 {
      assert Up(d) == d;
    } else {
      assert Up(d) == d;
    }
  }

  /** Sibling of entry `m` on its own level; the unpaired last entry has none. */
  function Sibling(m: nat, d: seq<Hash>): seq<Hash>
    requires m < |d|
  {
    if m % 2 == 1 then [d[m - 1]]
    else if m + 1 < |d| then [d[m + 1]]
    else []
  }

  lemma PathOfPair(m: nat, d: seq<Hash>)
    requires m < |d| == 2
    ensures Path(m, d) == Sibling(m, d) && |Up(d)| == 1
  {
    assert Split(2) == 1 && d[..1] == [d[0]] && d[1..] == [d[1]];
    assert Path(0, d[..1]) == [] && Path(0, d[1..]) == [];
  }

  /** How a path through `l + r` divides, when the tree divides there. */
  lemma PathThroughLeft(m: nat, l: seq<Hash>, r: seq<Hash>)
    requires m < |l| && 2 <= |l + r| && |l| == Split(|l + r|)
    ensures Path(m, l + r) == Path(m, l) + [Root(r)]
  {
    assert (l + r)[..|l|] == l && (l + r)[|l|..] == r;
  }

  lemma PathThroughRight(m: nat, l: seq<Hash>, r: seq<Hash>)
    requires m < |r| && 2 <= |l + r| && |l| == Split(|l + r|)
    ensures Path(|l| + m, l + r) == Path(m, r) + [Root(l)]
  {
    assert (l + r)[..|l|] == l && (l + r)[|l|..] == r;
  }

  lemma SiblingSplits(m: nat, l: seq<Hash>, r: seq<Hash>)
    requires m < |l + r| && |l| % 2 == 0
    ensures m < |l| ==> Sibling(m, l) == Sibling(m, l + r)
    ensures |l| <= m ==> Sibling(m - |l|, r) == Sibling(m, l + r)
  {
  }

  /** An audit path is the sibling on this level followed by the path on the next. */
  lemma {:induction false} PathClimbs(m: nat, d: seq<Hash>)
    requires m < |d| && 2 <= |d|
    ensures Path(m, d) == Sibling(m, d) + Path(m / 2, Up(d))
    decreases |d|, 1
  {
    if |d| == 2 {
      PathOfPair(m, d);
      assert Path(m / 2, Up(d)) == [];
    } else {
      var k := Split(|d|);
      PathClimbsSplit(m, d[..k], d[k..]);
      assert d == d[..k] + d[k..];
    }
  }

  lemma LevelAboveDividesToo(l: seq<Hash>, r: seq<Hash>)
    requires 3 <= |l + r| && |l| == Split(|l + r|)
    ensures |l| % 2 == 0 && 2 <= |Up(l) + Up(r)| && |Up(l)| == |l| / 2 == Split(|Up(l) + Up(r)|)
  {
    SplitHalves(|l + r|);
  }

  lemma {:induction false} PathClimbsSplit(m: nat, l: seq<Hash>, r: seq<Hash>)
    requires m < |l + r| && 3 <= |l + r| && |l| == Split(|l + r|)
    ensures Path(m, l + r) == Sibling(m, l + r) + Path(m / 2, Up(l + r))
    decreases |l + r|, 0
  {
    LevelAboveDividesToo(l, r);
    var above := if m < |l| then Path(m / 2, Up(l)) else Path((m - |l|) / 2, Up(r));
    var top := if m < |l| then Root(r) else Root(l);
    assert Path(m / 2, Up(l + r)) == above + [top] by {
      PathAbove(m, l, r);
    }
    assert Path(m, l + r) == (Sibling(m, l + r) + above) + [top] by {
      SiblingSplits(m, l, r);
      if m < |l| {
        PathClimbs(m, l);
        PathThroughLeft(m, l, r);
      } else {
        PathThroughRight(m - |l|, l, r);
        if |r| == 1 {
          assert Up(r) == r && Sibling(0, r) == [];
        } else {
          PathClimbs(m - |l|, r);
        }
      }
    }
    PrefixesAgree(Path(m, l + r), Sibling(m, l + r), above, top);
  }

  lemma PathAbove(m: nat, l: seq<Hash>, r: seq<Hash>)
    requires m < |l + r| && 3 <= |l + r| && |l| == Split(|l + r|)
    ensures m < |l| ==> m / 2 < |Up(l)| && Path(m / 2, Up(l + r)) == Path(m / 2, Up(l)) + [Root(r)]
    ensures |l| <= m ==>
              (m - |l|) / 2 < |Up(r)| && Path(m / 2, Up(l + r)) == Path((m - |l|) / 2, Up(r)) + [Root(l)]
  {
    LevelAboveDividesToo(l, r);
    UpOfConcat(l, r);
    if m < |l| {
      RootOfUp(r);
      PathThroughLeft(m / 2, Up(l), Up(r));
    } else {
      RootOfUp(l);
      assert m / 2 == |Up(l)| + (m - |l|) / 2;
      PathThroughRight((m - |l|) / 2, Up(l), Up(r));
    }
  }

  lemma PrefixesAgree(whole: seq<Hash>, first: seq<Hash>, rest: seq<Hash>, top: Hash)
    requires whole == (first + rest) + [top]
    ensures whole == first + (rest + [top])
  {
  }

  /** Both children of the entry above `m` are `m` and its sibling. */
  lemma EntryAbove(m: nat, d: seq<Hash>)
    requires m < |d| && 2 <= |d|
    ensures m % 2 == 1 ==> Up(d)[m / 2] == Node(d[m - 1], d[m])
    ensures m % 2 == 0 && m + 1 < |d| ==> Up(d)[m / 2] == Node(d[m], d[m + 1])
    ensures m % 2 == 0 && m + 1 == |d| ==> Up(d)[m / 2] == d[m]
  {
  }

  /** A tree of at most two to the `h` entries has paths of at most `h` siblings. */
  lemma {:induction false} PathLength(m: nat, d: seq<Hash>, h: nat)
    requires m < |d| <= Pow2(h)
    ensures |Path(m, d)| <= h
    decreases |d|
  {
    hide Up;
    hide Path;
    hide Sibling;
    if |d| >= 2 {
      PathClimbs(m, d);
      OneSibling(m, d);
      PathLength(m / 2, Up(d), h - 1);
    } else {
      NoSiblings(d);
    }
  }

  lemma OneSibling(m: nat, d: seq<Hash>)
    requires m < |d|
    ensures |Sibling(m, d)| <= 1
  {
  }

  lemma NoSiblings(d: seq<Hash>)
    requires |d| == 1
    ensures Path(0, d) == []
  {
  }

  // The iterative check of section 2.1.3.2 of RFC 9162.

  /** Right-shifts both numbers until the index is odd or zero. */
  function SkipEven(index: nat, last: nat): (r: (nat, nat))
    ensures r.0 == 0 || r.0 % 2 == 1
  {
    if index != 0 && index % 2 == 0 then SkipEven(index / 2, last / 2) else (index, last)
  }

  /** Root reached from `r` by consuming the siblings, or None when the shape does not fit. */
  function Walk(index: nat, last: nat, r: Hash, siblings: seq<Hash>): Option<Hash>
    decreases |siblings|
  {
    if siblings == [] then (if last == 0 then Some(r) else None)
    else if last == 0 then None
    else if index % 2 == 1 || index == last then
      var (i, l) := SkipEven(index, last);
      Walk(i / 2, l / 2, Node(siblings[0], r), siblings[1..])
    else
      Walk(index / 2, last / 2, Node(r, siblings[0]), siblings[1..])
  }

  /** A promoted entry is checked exactly as on the next level. */
  lemma WalkSkipsPromotion(m: nat, r: Hash, siblings: seq<Hash>)
    requires 0 < m && m % 2 == 0
    ensures Walk(m, m, r, siblings) == Walk(m / 2, m / 2, r, siblings)
  {
    if siblings != [] {
      assert SkipEven(m, m) == SkipEven(m / 2, m / 2);
      SkipEvenKeepsEqual(m / 2);
    }
  }

  lemma {:induction false} SkipEvenKeepsEqual(m: nat)
    ensures SkipEven(m, m).0 == SkipEven(m, m).1
    ensures m % 2 == 1 ==> SkipEven(m, m) == (m, m)
  {
    if m != 0 && m % 2 == 0 {
      SkipEvenKeepsEqual(m / 2);
    }
  }

  /** One step of the check on a level with a sibling, or a promotion without one. */
  lemma WalkClimbs(m: nat, d: seq<Hash>, above: seq<Hash>)
    requires m < |d| && 2 <= |d|
    ensures Walk(m, |d| - 1, d[m], Sibling(m, d) + above) == Walk(m / 2, |Up(d)| - 1, Up(d)[m / 2], above)
  {
    EntryAbove(m, d);
    var all := Sibling(m, d) + above;
    if m % 2 == 1 {
      assert all[0] == d[m - 1] && all[1..] == above;
      assert SkipEven(m, |d| - 1) == (m, |d| - 1);
    } else if m + 1 < |d| {
      assert all[0] == d[m + 1] && all[1..] == above;
    } else {
      assert all == above;
      WalkSkipsPromotion(m, d[m], above);
    }
  }

  /** Completeness: the audit path of every entry is accepted and leads to the root. */
  lemma {:induction false} WalkAcceptsPath(m: nat, d: seq<Hash>)
    requires m < |d|
    ensures Walk(m, |d| - 1, d[m], Path(m, d)) == Some(Root(d))
    decreases |d|
  {
    hide Root;
    hide Path;
    hide Walk;
    hide Up;
    hide Sibling;
    if |d| == 1 {
      WalkOfOne(d);
    } else {
      PathClimbs(m, d);
      WalkClimbs(m, d, Path(m / 2, Up(d)));
      WalkAcceptsPath(m / 2, Up(d));
      RootOfUp(d);
    }
  }

  lemma WalkOfOne(d: seq<Hash>)
    requires |d| == 1
    ensures Walk(0, 0, d[0], Path(0, d)) == Some(Root(d))
  {
  }

  /** Soundness: along fixed positions, equal roots force equal starting hashes and equal siblings. */
  lemma {:induction false} WalkIsInjective(index: nat, last: nat, r: Hash, s: seq<Hash>, r': Hash, s': seq<Hash>)
    requires |s| == |s'| && Walk(index, last, r, s).Some? && Walk(index, last, r, s) == Walk(index, last, r', s')
    ensures r == r' && s == s'
    decreases |s|
  {
    if s != [] {
      if index % 2 == 1 || index == last {
        var (i, l) := SkipEven(index, last);
        WalkIsInjective(i / 2, l / 2, Node(s[0], r), s[1..], Node(s'[0], r'), s'[1..]);
      } else {
        WalkIsInjective(index / 2, last / 2, Node(r, s[0]), s[1..], Node(r', s'[0]), s'[1..]);
      }
      assert s == [s[0]] + s[1..] && s' == [s'[0]] + s'[1..];
    }
  }
}
