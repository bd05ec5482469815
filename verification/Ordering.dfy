/** Ascending enumeration of finite sets of numbers. */
module Ordering {

  ghost predicate Increasing(s: seq<nat>) {
    forall i, j | 0 <= i < j < |s| :: s[i] < s[j]
  }

  ghost predicate IsLeast(s: set<nat>, m: nat) {
    m in s && forall x | x in s :: m <= x
  }

  lemma {:induction false} HasLeast(s: set<nat>) returns (m: nat)
    requires s != {}
    ensures IsLeast(s, m)
    decreases |s|
  {
    m :| m in s;
    var rest := s - {m};
    if rest != {} {
      var y := HasLeast(rest);
      assert forall x | x in s :: x == m || x in rest;
      m := if m <= y then m else y;
    } else {
      assert s == {m};
    }
  }

  lemma Appended(r: seq<nat>, m: nat)
    requires Increasing(r) && (r != [] ==> r[|r| - 1] < m)
    ensures Increasing(r + [m])
    ensures (set i | 0 <= i < |r + [m]| :: (r + [m])[i]) == (set i | 0 <= i < |r| :: r[i]) + {m}
  {
    var longer := r + [m];
    assert forall i | 0 <= i < |r| :: longer[i] == r[i];
    assert longer[|r|] == m;
  }

  /** The elements in ascending order, as ordered collections iterate them. */
  method InOrder(s: set<nat>) returns (r: seq<nat>)
    ensures Increasing(r)
    ensures (set i | 0 <= i < |r| :: r[i]) == s
  {
    r := [];
    var rest := s;
    while rest != {}
      invariant rest <= s
      invariant Increasing(r)
      invariant (set i | 0 <= i < |r| :: r[i]) == s - rest
      invariant r != [] ==> forall x | x in rest :: r[|r| - 1] < x
      decreases rest
    {
      ghost var least := HasLeast(rest);
      assert exists m :: m in rest && forall x | x in rest :: m <= x;
      var m :| m in rest && forall x | x in rest :: m <= x;
      Appended(r, m);
      r := r + [m];
      rest := rest - {m};
    }
  }

  lemma SubsetSize<T>(a: set<T>, b: set<T>)
    requires a <= b
    ensures |a| <= |b| && (|a| == |b| ==> a == b)
  {
    assert b == a + (b - a);
    assert |b| == |a| + |b - a|;
  }

  lemma InAppended(s: seq<nat>, x: nat, y: nat)
    ensures y in s + [x] <==> y in s || y == x
  {
  }

  lemma AppendIncreasing(s: seq<nat>, x: nat)
    requires Increasing(s) && forall y | y in s :: y < x
    ensures Increasing(s + [x])
  {
    assert forall t | 0 <= t < |s| :: s[t] in s;
  }

  lemma LastIsLargest(s: seq<nat>)
    requires Increasing(s) && s != []
    ensures s[|s| - 1] in s && forall y | y in s :: y <= s[|s| - 1]
  {
  }
}
