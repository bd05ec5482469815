/** The wave plan: every transaction in the wave numbered by its longest clash chain. */
module Waves {

  import opened Wrappers
  import opened Ledger
  import opened Ordering
  import opened Scheduler

  /** Length of the longest chain of clashes that ends in `j`. */
  ghost function Depth(txs: Block, j: nat): nat
    requires j < |txs|
    decreases j, j + 1
  {
    DepthOver(txs, j, j)
  }

  /** The same, over predecessors below `m` only. */
  ghost function DepthOver(txs: Block, j: nat, m: nat): nat
    requires m <= j < |txs|
    decreases j, m
  {
    if m == 0 then 0
    else
      var rest := DepthOver(txs, j, m - 1);
      if Clash(txs, m - 1, j) then Max(rest, Depth(txs, m - 1) + 1) else rest
  }

  lemma {:induction false} DepthOverBounds(txs: Block, j: nat, m: nat)
    requires m <= j < |txs|
    ensures forall i | 0 <= i < m && Clash(txs, i, j) :: Depth(txs, i) < DepthOver(txs, j, m)
    ensures DepthOver(txs, j, m) == 0
         || exists i | 0 <= i < m :: Clash(txs, i, j) && Depth(txs, i) + 1 == DepthOver(txs, j, m)
  {
    if m > 0 {
      DepthOverBounds(txs, j, m - 1);
    }
  }

  /** Depth is one more than the deepest clashing predecessor, and that determines it. */
  ghost predicate IsDepth(txs: Block, j: nat, d: nat)
    requires j < |txs|
  {
    && (forall i | 0 <= i < j && Clash(txs, i, j) :: Depth(txs, i) < d)
    && (d == 0 || exists i | 0 <= i < j :: Clash(txs, i, j) && Depth(txs, i) + 1 == d)
  }

  lemma DepthIs(txs: Block, j: nat, d: nat)
    requires j < |txs|
    ensures IsDepth(txs, j, d) <==> d == Depth(txs, j)
  {
    DepthOverBounds(txs, j, j);
  }

  /** Clashing transactions lie in different waves, in block order. */
  lemma WavesAreConflictFree(txs: Block, i: nat, j: nat)
    requires Before(txs, i, j)
    ensures Depth(txs, i) < Depth(txs, j)
  {
    hide Depth;
    DepthIs(txs, j, Depth(txs, j));
  }

  /** No assignment of waves that keeps clashes in order places anything earlier. */
  lemma {:induction false} WavesAreMinimal(txs: Block, wave: nat -> nat, j: nat)
    requires j < |txs| && forall a: nat, b: nat | Before(txs, a, b) :: wave(a) < wave(b)
    ensures Depth(txs, j) <= wave(j)
  {
    hide Depth;
    DepthIs(txs, j, Depth(txs, j));
    if Depth(txs, j) > 0 {
      var i :| 0 <= i < j && Clash(txs, i, j) && Depth(txs, i) + 1 == Depth(txs, j);
      WavesAreMinimal(txs, wave, i);
      assert Before(txs, i, j);
    }
  }

  /** A chain of clashes of exactly this depth ends in `j`. */
  lemma {:induction false} DeepestChain(txs: Block, j: nat) returns (path: seq<nat>)
    requires j < |txs|
    ensures |path| == Depth(txs, j) + 1 && path[|path| - 1] == j && IsChain(ClashEdges(txs), path)
  {
    hide Depth;
    DepthIs(txs, j, Depth(txs, j));
    if Depth(txs, j) == 0 {
      path := [j];
    } else {
      var i: nat :| i < j && Clash(txs, i, j) && Depth(txs, i) + 1 == Depth(txs, j);
      var before := DeepestChain(txs, i);
      assert ClashEdges(txs)(i, j);
      path := before + [j];
    }
  }

  /** No chain of clashes that ends in `j` is longer. */
  lemma {:induction false} NoLongerChain(txs: Block, path: seq<nat>)
    requires IsChain(ClashEdges(txs), path) && path[|path| - 1] < |txs|
    ensures |path| <= Depth(txs, path[|path| - 1]) + 1
  {
    hide Depth;
    var n := |path| - 1;
    if n > 0 {
      assert ClashEdges(txs)(path[n - 1], path[n]);
      NoLongerChain(txs, path[..n]);
      WavesAreConflictFree(txs, path[n - 1], path[n]);
    }
  }

  datatype KeyHistory = KeyHistory(writer: Option<nat>, lastAccess: nat)

  /** The deepest transaction below `upTo` that satisfies `p` has depth `d`. */
  ghost predicate Deepest(txs: Block, upTo: nat, p: nat -> bool, d: nat)
    requires upTo <= |txs|
  {
    && (exists i: nat :: i < upTo && p(i) && Depth(txs, i) == d)
    && (forall i: nat | i < upTo && p(i) :: Depth(txs, i) <= d)
  }

  ghost function Touching(txs: Block, k: Key): nat -> bool {
    (i: nat) => i < |txs| && Touches(txs[i], k)
  }

  ghost function Writing(txs: Block, k: Key): nat -> bool {
    (i: nat) => i < |txs| && Writes(txs[i], k)
  }

  ghost function SentBy(txs: Block, s: Address): nat -> bool {
    (i: nat) => i < |txs| && txs[i].sender == s
  }

  ghost predicate Nothing(upTo: nat, p: nat -> bool) {
    forall i: nat | i < upTo :: !p(i)
  }

  ghost predicate KeyOk(txs: Block, upTo: nat, history: map<Key, KeyHistory>, k: Key)
    requires upTo <= |txs|
  {
    if k !in history then Nothing(upTo, Touching(txs, k))
    else
      && Deepest(txs, upTo, Touching(txs, k), history[k].lastAccess)
      && (if history[k].writer.None? then Nothing(upTo, Writing(txs, k))
          else Deepest(txs, upTo, Writing(txs, k), history[k].writer.value))
  }

  ghost predicate SenderOk(txs: Block, upTo: nat, last: map<Address, nat>, s: Address)
    requires upTo <= |txs|
  {
    if s !in last then Nothing(upTo, SentBy(txs, s)) else Deepest(txs, upTo, SentBy(txs, s), last[s])
  }

  ghost predicate KeysOk(txs: Block, upTo: nat, history: map<Key, KeyHistory>)
    requires upTo <= |txs|
  {
    forall k :: KeyOk(txs, upTo, history, k)
  }

  ghost predicate SendersOk(txs: Block, upTo: nat, last: map<Address, nat>)
    requires upTo <= |txs|
  {
    forall s :: SenderOk(txs, upTo, last, s)
  }

  /** Wave `w` lists exactly the transactions of depth `w` below `upTo`, ascending. */
  ghost predicate IsWave(txs: Block, upTo: nat, w: nat, wave: seq<nat>)
    requires upTo <= |txs|
  {
    && wave != []
    && Increasing(wave)
    && (forall i: nat :: i in wave <==> i < upTo && Depth(txs, i) == w)
  }

  ghost predicate IsPlan(txs: Block, upTo: nat, waves: seq<seq<nat>>)
    requires upTo <= |txs|
  {
    && (forall w | 0 <= w < |waves| :: IsWave(txs, upTo, w, waves[w]))
    && (forall i | 0 <= i < upTo :: Depth(txs, i) < |waves|)
  }

  method Plan(txs: Block) returns (waves: seq<seq<nat>>)
    ensures IsPlan(txs, |txs|, waves)
  {
    hide Depth;
    var history: map<Key, KeyHistory> := map[];
    var senders: map<Address, nat> := map[];
    waves := [];
    for index := 0 to |txs|
      invariant IsPlan(txs, index, waves)
      invariant KeysOk(txs, index, history)
      invariant SendersOk(txs, index, senders)
    {
      var wave := WaveOf(txs, index, history, senders);
      assert wave <= |waves| by {
        DepthIs(txs, index, wave);
      }
      if wave == |waves| {
        NewWave(txs, index, waves);
        waves := waves + [[index]];
      } else {
        LongerWave(txs, index, waves);
        waves := waves[wave := waves[wave] + [index]];
      }
      history := Note(txs, index, history, wave);
      NoteSenders(txs, index, senders, wave);
      senders := senders[txs[index].sender := wave];
    }
  }

  lemma WaveStays(txs: Block, index: nat, w: nat, wave: seq<nat>)
    requires index < |txs| && IsWave(txs, index, w, wave) && Depth(txs, index) != w
    ensures IsWave(txs, index + 1, w, wave)
  {
    hide Depth;
  }

  lemma WaveGrows(txs: Block, index: nat, wave: seq<nat>)
    requires index < |txs| && IsWave(txs, index, Depth(txs, index), wave)
    ensures IsWave(txs, index + 1, Depth(txs, index), wave + [index])
  {
    hide Depth;
    var d := Depth(txs, index);
    AppendIncreasing(wave, index);
    forall i: nat
      ensures i in wave + [index] <==> i < index + 1 && Depth(txs, i) == d
    {
      InAppended(wave, index, i);
    }
  }

  lemma NewWave(txs: Block, index: nat, waves: seq<seq<nat>>)
    requires index < |txs| && IsPlan(txs, index, waves) && Depth(txs, index) == |waves|
    ensures IsPlan(txs, index + 1, waves + [[index]])
  {
    hide Depth;
    assert IsWave(txs, index + 1, |waves|, [index]);
    hide IsWave;
    forall w | 0 <= w < |waves|
      ensures IsWave(txs, index + 1, w, waves[w])
    {
      WaveStays(txs, index, w, waves[w]);
    }
  }

  lemma LongerWave(txs: Block, index: nat, waves: seq<seq<nat>>)
    requires index < |txs| && IsPlan(txs, index, waves) && Depth(txs, index) < |waves|
    ensures var d := Depth(txs, index); IsPlan(txs, index + 1, waves[d := waves[d] + [index]])
  {
    hide Depth;
    hide IsWave;
    var d := Depth(txs, index);
    WaveGrows(txs, index, waves[d]);
    forall w | 0 <= w < |waves| && w != d
      ensures IsWave(txs, index + 1, w, waves[w])
    {
      WaveStays(txs, index, w, waves[w]);
    }
  }

  /** One past the latest wave that a declared key or the sender forces. */
  method WaveOf(txs: Block, index: nat, history: map<Key, KeyHistory>, senders: map<Address, nat>) returns (wave: nat)
    requires index < |txs|
    requires KeysOk(txs, index, history)
    requires SendersOk(txs, index, senders)
    ensures wave == Depth(txs, index)
  {
    hide Depth;
    var tx := txs[index];
    wave := 0;
    for p := 0 to |tx.accessList|
      invariant wave == 0 || exists i | 0 <= i < index :: Clash(txs, i, index) && Depth(txs, i) + 1 == wave
      invariant forall i, q | 0 <= i < index && 0 <= q < p && ClashOn(txs, i, index, tx.accessList[q]) ::
                  Depth(txs, i) < wave
    {
      var k := tx.accessList[p];
      assert KeyOk(txs, index, history, k);
      if k in history {
        var h := history[k];
        var previous := if Writes(tx, k) then Some(h.lastAccess) else h.writer;
        KeyForces(txs, index, history, k, previous);
        if previous.Some? {
          wave := Max(wave, previous.value + 1);
        }
      } else {
        NothingTouches(txs, index, k);
      }
      assert forall i | 0 <= i < index && ClashOn(txs, i, index, k) :: Depth(txs, i) < wave;
    }
    var s := tx.sender;
    assert SenderOk(txs, index, senders, s);
    if s in senders {
      SenderForces(txs, index, senders, s);
      wave := Max(wave, senders[s] + 1);
    } else {
      NobodySent(txs, index, s);
    }
    assert IsDepth(txs, index, wave);
    DepthIs(txs, index, wave);
  }

  lemma NothingTouches(txs: Block, index: nat, k: Key)
    requires index < |txs| && Nothing(index, Touching(txs, k))
    ensures forall i | 0 <= i < index :: !Touches(txs[i], k)
  {
    assert forall i: nat | i < index :: Touching(txs, k)(i) <==> Touches(txs[i], k);
  }

  lemma NobodySent(txs: Block, index: nat, s: Address)
    requires index < |txs| && Nothing(index, SentBy(txs, s))
    ensures forall i | 0 <= i < index :: txs[i].sender != s
  {
    assert forall i: nat | i < index :: SentBy(txs, s)(i) <==> txs[i].sender == s;
  }

  lemma KeyForces(txs: Block, index: nat, history: map<Key, KeyHistory>, k: Key, previous: Option<nat>)
    requires index < |txs| && k in history && KeyOk(txs, index, history, k) && Touches(txs[index], k)
    requires previous == if Writes(txs[index], k) then Some(history[k].lastAccess) else history[k].writer
    ensures forall i | 0 <= i < index && ClashOn(txs, i, index, k) :: previous.Some? && Depth(txs, i) <= previous.value
    ensures previous.Some? ==> exists i | 0 <= i < index :: Clash(txs, i, index) && Depth(txs, i) == previous.value
  {
    hide Depth;
    if Writes(txs[index], k) {
      assert forall i: nat | i < index && Touches(txs[i], k) :: Touching(txs, k)(i);
      var i: nat :| i < index && Touching(txs, k)(i) && Depth(txs, i) == history[k].lastAccess;
      assert ClashOn(txs, i, index, k);
    } else {
      assert forall i: nat | i < index && Writes(txs[i], k) :: Writing(txs, k)(i);
      if history[k].writer.Some? {
        var i: nat :| i < index && Writing(txs, k)(i) && Depth(txs, i) == history[k].writer.value;
        assert ClashOn(txs, i, index, k);
      }
    }
  }

  lemma SenderForces(txs: Block, index: nat, senders: map<Address, nat>, s: Address)
    requires index < |txs| && s == txs[index].sender && s in senders && SenderOk(txs, index, senders, s)
    ensures forall i | 0 <= i < index && txs[i].sender == s :: Depth(txs, i) <= senders[s]
    ensures exists i | 0 <= i < index :: Clash(txs, i, index) && Depth(txs, i) == senders[s]
  {
    hide Depth;
    assert forall i: nat | i < index && txs[i].sender == s :: SentBy(txs, s)(i);
    var i: nat :| i < index && SentBy(txs, s)(i) && Depth(txs, i) == senders[s];
    assert Clash(txs, i, index);
  }

  /** The wave becomes the latest of its keys; an independent reader never lowers it. */
  lemma OtherKeys(txs: Block, upTo: nat, was: map<Key, KeyHistory>, now: map<Key, KeyHistory>, k: Key)
    requires upTo <= |txs| && k in now && now == was[k := now[k]]
    ensures forall j | j != k :: KeyOk(txs, upTo, now, j) <==> KeyOk(txs, upTo, was, j)
  {
    hide Deepest;
  }

  method Note(txs: Block, index: nat, history: map<Key, KeyHistory>, wave: nat) returns (r: map<Key, KeyHistory>)
    requires index < |txs| && wave == Depth(txs, index)
    requires KeysOk(txs, index, history)
    ensures KeysOk(txs, index + 1, r)
  {
    hide Depth;
    hide KeyOk;
    var tx := txs[index];
    r := history;
    for p := 0 to |tx.accessList|
      invariant forall k :: KeyOk(txs, if k in tx.accessList[..p] then index + 1 else index, r, k)
    {
      var k := tx.accessList[p];
      ghost var was := r;
      assert KeyOk(txs, if k in tx.accessList[..p] then index + 1 else index, was, k);
      var write := Writes(tx, k);
      if k in r {
        r := r[k := KeyHistory(if write then Some(wave) else r[k].writer, Max(r[k].lastAccess, wave))];
      } else {
        r := r[k := KeyHistory(if write then Some(wave) else None, wave)];
      }
      NoteKey(txs, index, was, r, k);
      OtherKeys(txs, index, was, r, k);
      OtherKeys(txs, index + 1, was, r, k);
      assert tx.accessList[..p + 1] == tx.accessList[..p] + [k];
    }
    assert tx.accessList[..|tx.accessList|] == tx.accessList;
    ghost var next := index + 1;
    forall k
      ensures KeyOk(txs, next, r, k)
    {
      if k !in tx.accessList {
        KeyUntouched(txs, index, r, k);
      }
    }
  }

  lemma NoteKey(txs: Block, index: nat, was: map<Key, KeyHistory>, now: map<Key, KeyHistory>, k: Key)
    requires index < |txs| && Touches(txs[index], k)
    requires KeyOk(txs, index, was, k) || KeyOk(txs, index + 1, was, k)
    requires var (write, wave) := (Writes(txs[index], k), Depth(txs, index));
             k in now && now[k] == if k in was
                                   then KeyHistory(if write then Some(wave) else was[k].writer,
                                                   Max(was[k].lastAccess, wave))
                                   else KeyHistory(if write then Some(wave) else None, wave)
    ensures KeyOk(txs, index + 1, now, k)
  {
    hide Depth;
    var (touching, writing) := (Touching(txs, k), Writing(txs, k));
    assert touching(index) && (writing(index) <==> Writes(txs[index], k));
    assert forall i: nat | writing(i) :: touching(i);
    if writing(index) {
      forall i: nat | i < index && writing(i)
        ensures Depth(txs, i) < Depth(txs, index)
      {
        assert ClashOn(txs, i, index, k);
        WavesAreConflictFree(txs, i, index);
      }
    }
  }

  lemma KeyUntouched(txs: Block, index: nat, history: map<Key, KeyHistory>, k: Key)
    requires index < |txs| && k !in txs[index].accessList && KeyOk(txs, index, history, k)
    ensures KeyOk(txs, index + 1, history, k)
  {
    hide Depth;
    assert !Touching(txs, k)(index) && !Writing(txs, k)(index);
  }

  lemma NoteSenders(txs: Block, index: nat, senders: map<Address, nat>, wave: nat)
    requires index < |txs| && wave == Depth(txs, index) && SendersOk(txs, index, senders)
    ensures SendersOk(txs, index + 1, senders[txs[index].sender := wave])
  {
    hide Depth;
    var (next, after) := (index + 1, senders[txs[index].sender := wave]);
    forall s
      ensures SenderOk(txs, next, after, s)
    {
      NoteSender(txs, index, senders, wave, s);
    }
  }

  lemma NoteSender(txs: Block, index: nat, senders: map<Address, nat>, wave: nat, s: Address)
    requires index < |txs| && wave == Depth(txs, index) && SenderOk(txs, index, senders, s)
    ensures SenderOk(txs, index + 1, senders[txs[index].sender := wave], s)
  {
    hide Depth;
    var sent := SentBy(txs, s);
    if s == txs[index].sender {
      assert sent(index);
      forall i: nat | i < index && sent(i)
        ensures Depth(txs, i) < Depth(txs, index)
      {
        assert Clash(txs, i, index);
        WavesAreConflictFree(txs, i, index);
      }
    } else {
      assert !sent(index);
    }
  }

  /** Transactions that clash with nothing before them run in the first wave. */
  lemma IndependentRunFirst(txs: Block, j: nat)
    requires j < |txs| && forall i | 0 <= i < j :: !Clash(txs, i, j)
    ensures Depth(txs, j) == 0
  {
    hide Depth;
    DepthIs(txs, j, Depth(txs, j));
  }

  /** No conflict-respecting assignment uses fewer waves than the plan. */
  lemma PlanIsShortest(txs: Block, waves: seq<seq<nat>>, wave: nat -> nat, count: nat)
    requires IsPlan(txs, |txs|, waves)
    requires forall a: nat, b: nat | Before(txs, a, b) :: wave(a) < wave(b)
    requires forall j: nat | j < |txs| :: wave(j) < count
    ensures |waves| <= count
  {
    hide Depth;
    if waves != [] {
      var w := |waves| - 1;
      assert IsWave(txs, |txs|, w, waves[w]);
      var j := waves[w][0];
      assert j in waves[w];
      WavesAreMinimal(txs, wave, j);
    }
  }
}
