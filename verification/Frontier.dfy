/** The binary-counter view of a Merkle tree: levels of complete pairs and the peaks left over. */
module Frontier {

  import opened Wrappers
  import opened MerkleTree

  const LEVELS := 64

  /** Complete subtrees of two to the `level` entries, in order. */
  function Level(d: seq<Hash>, level: nat): seq<Hash> {
    if level == 0 then d else Half(Level(d, level - 1))
  }

  /** The unpaired subtree of one level, if its number is odd. */
  function Top(d: seq<Hash>): Option<Hash> {
    if |d| % 2 == 1 then Some(d[|d| - 1]) else None
  }

  function Peak(d: seq<Hash>, level: nat): Option<Hash> {
    Top(Level(d, level))
  }

  /** Right shift. */
  function Shr(n: nat, places: nat): nat {
    if places == 0 then n else Shr(n, places - 1) / 2
  }

  /** Left shift. */
  function Shl(n: nat, places: nat): nat
    decreases places
  {
    if places == 0 then n else Shl(2 * n, places - 1)
  }

  lemma {:induction false} ShlOfOneMore(n: nat, places: nat)
    ensures Shl(n + 1, places) == Shl(n, places) + Pow2(places)
    decreases places
  {
    if places > 0 {
      ShlOfOneMore(2 * n, places - 1);
      ShlOfOneMore(2 * n + 1, places - 1);
    }
  }

  lemma {:induction false} LevelCount(d: seq<Hash>, level: nat)
    ensures |Level(d, level)| == Shr(|d|, level)
  {
    if level > 0 {
      LevelCount(d, level - 1);
    }
  }

  lemma LevelPair(d: seq<Hash>, level: nat, i: nat)
    requires 0 < level && i < |Level(d, level)|
    ensures var below := Level(d, level - 1);
            2 * i + 1 < |below| && Level(d, level)[i] == Node(below[2 * i], below[2 * i + 1])
  {
  }

  /** Every subtree of a level is the root of its own stretch of entries. */
  lemma {:induction false} LevelEntry(d: seq<Hash>, level: nat, i: nat)
    requires i < |Level(d, level)|
    ensures Shl(i, level) + Pow2(level) <= |d|
    ensures Level(d, level)[i] == Root(d[Shl(i, level)..Shl(i, level) + Pow2(level)])
  {
    hide Root;
    hide Half;
    if level == 0 {
      RootOfOne(d, i);
    } else {
      LevelPair(d, level, i);
      LevelEntry(d, level - 1, 2 * i);
      LevelEntry(d, level - 1, 2 * i + 1);
      ShlOfOneMore(2 * i, level - 1);
      TwoHalves(d, Shl(2 * i, level - 1), level);
    }
  }

  lemma RootOfOne(d: seq<Hash>, i: nat)
    requires i < |d|
    ensures Root(d[i..i + 1]) == d[i]
  {
  }

  lemma TwoHalves(d: seq<Hash>, from: nat, level: nat)
    requires 0 < level && from + Pow2(level) <= |d|
    ensures var p := Pow2(level - 1);
            Root(d[from..from + 2 * p]) == Node(Root(d[from..from + p]), Root(d[from + p..from + 2 * p]))
  {
    hide Root;
    var p := Pow2(level - 1);
    var part := d[from..from + 2 * p];
    assert part[..p] == d[from..from + p] && part[p..] == d[from + p..from + 2 * p];
    RootOfComplete(part, level);
  }

  lemma RootOfComplete(part: seq<Hash>, level: nat)
    requires 0 < level && |part| == Pow2(level)
    ensures Root(part) == Node(Root(part[..Pow2(level - 1)]), Root(part[Pow2(level - 1)..]))
  {
    CompleteSplit(level);
  }

  lemma {:induction false} CompleteSplit(level: nat)
    requires 0 < level
    ensures Split(Pow2(level)) == Pow2(level - 1)
  {
    if level > 1 {
      CompleteSplit(level - 1);
      SplitHalves(Pow2(level));
      assert (Pow2(level) + 1) / 2 == Pow2(level - 1);
    } else {
      assert Pow2(1) == 2;
    }
  }

  /**
   * Occupied levels are exactly the set bits of the count, and the peak on such a
   * level is the root of the complete subtree that bit stands for.
   */
  lemma PeaksAreTheBitsOfTheCount(d: seq<Hash>, level: nat)
    ensures Peak(d, level).Some? <==> Shr(|d|, level) % 2 == 1
    ensures Peak(d, level).Some? ==>
              var at := Shl(Shr(|d|, level) - 1, level);
              && at + Pow2(level) <= |d|
              && Peak(d, level).value == Root(d[at..at + Pow2(level)])
  {
    hide Root;
    hide Level;
    hide Shr;
    hide Shl;
    LevelCount(d, level);
    var q := Shr(|d|, level);
    if q % 2 == 1 {
      LevelEntry(d, level, q - 1);
    }
  }

  // Appending: the carry chain.

  lemma HalfOfOneMore(d: seq<Hash>, x: Hash)
    ensures |d| % 2 == 0 ==> Half(d + [x]) == Half(d)
    ensures |d| % 2 == 1 ==> Half(d + [x]) == Half(d) + [Node(d[|d| - 1], x)]
  {
  }

  /** An odd level passes a carry to the next; an even one absorbs it. */
  lemma CarryStep(d: seq<Hash>, carry: Hash)
    ensures |d| % 2 == 1 ==>
              Top(d + [carry]).None? && Half(d + [carry]) == Half(d) + [Node(Top(d).value, carry)]
    ensures |d| % 2 == 0 ==> Top(d + [carry]) == Some(carry) && Half(d + [carry]) == Half(d)
  {
    HalfOfOneMore(d, carry);
  }

  lemma {:induction false} EqualAbove(d: seq<Hash>, e: seq<Hash>, level: nat, above: nat)
    requires Level(d, level) == Level(e, level) && level <= above
    ensures Level(d, above) == Level(e, above)
    decreases above
  {
    if level < above {
      EqualAbove(d, e, level, above - 1);
    }
  }

  // Folding the peaks from the lowest level up gives the root.

  /** Root of `d` followed by an incomplete right-hand part. */
  function RootWith(d: seq<Hash>, right: Option<Hash>): Hash {
    if right.None? then Root(d) else Root(d + [right.value])
  }

  function FoldPeak(peak: Option<Hash>, right: Option<Hash>): Option<Hash> {
    if peak.None? then right
    else Some(if right.None? then peak.value else Node(peak.value, right.value))
  }

  lemma FoldStep(d: seq<Hash>, right: Option<Hash>)
    ensures RootWith(Half(d), FoldPeak(Top(d), right)) == RootWith(d, right)
  {
    if right.None? {
      RootOfUp(d);
      if |d| % 2 == 0 {
        assert Up(d) == Half(d);
      }
    } else {
      var e := d + [right.value];
      RootOfUp(e);
      HalfOfOneMore(d, right.value);
      if |d| % 2 == 0 {
        assert Up(e) == Half(d) + [right.value];
      } else {
        assert Up(e) == Half(d) + [Node(d[|d| - 1], right.value)];
      }
    }
  }

  lemma Pow2Of64()
    ensures Pow2(64) == 0x1_0000_0000_0000_0000
  {
    assert Pow2(8) == 256;
    hide Pow2;
    Pow2Adds(8, 8);
    Pow2Adds(16, 16);
    Pow2Adds(32, 32);
  }

  lemma {:induction false} Pow2Adds(a: nat, b: nat)
    ensures Pow2(a + b) == Pow2(a) * Pow2(b)
  {
    if b > 0 {
      Pow2Adds(a, b - 1);
      assert Pow2(a) * (2 * Pow2(b - 1)) == 2 * (Pow2(a) * Pow2(b - 1));
    } else {
      assert Pow2(0) == 1;
    }
  }
}
