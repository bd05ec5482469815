/** Conflict dependencies and conflict-free waves. */
module Scheduler {

  import opened Wrappers
  import opened Ledger
  import opened Ordering

  type Block = seq<Transaction>

  /** Both declare `k` and at least one of them in write mode. */
  predicate ClashOn(txs: Block, i: nat, j: nat, k: Key)
    requires i < |txs| && j < |txs|
  {
    Touches(txs[i], k) && Touches(txs[j], k) && (Writes(txs[i], k) || Writes(txs[j], k))
  }

  /** Block order between these two matters. */
  ghost predicate Clash(txs: Block, i: nat, j: nat)
    requires i < |txs| && j < |txs|
  {
    txs[i].sender == txs[j].sender || exists k :: ClashOn(txs, i, j, k)
  }

  /** The code of the contract that a call runs, which the call cannot change. */
  ghost predicate OwnCode(tx: Transaction, k: Key) {
    tx.lane == Contracts && tx.payload.Call? && k == CodeKey(tx.payload.trocto, tx.payload.address)
  }

  /** Order matters between two uses of one account, and over any declared key that is not mere code to both. */
  lemma ClashMeaning(txs: Block, i: nat, j: nat)
    requires i < |txs| && j < |txs|
    ensures Clash(txs, i, j) <==>
            || txs[i].sender == txs[j].sender
            || exists k | k in txs[i].accessList && k in txs[j].accessList ::
                 !(OwnCode(txs[i], k) && OwnCode(txs[j], k))
  {
    forall k
      ensures ClashOn(txs, i, j, k) <==>
              k in txs[i].accessList && k in txs[j].accessList && !(OwnCode(txs[i], k) && OwnCode(txs[j], k))
    {
    }
  }

  /** Calls of different senders that share nothing but the code they run can run side by side. */
  lemma SharedCodeIsNoClash(txs: Block, i: nat, j: nat)
    requires i < |txs| && j < |txs| && txs[i].sender != txs[j].sender
    requires txs[i].lane == txs[j].lane == Contracts && txs[i].payload.Call? && txs[j].payload.Call?
    requires txs[i].payload.trocto == txs[j].payload.trocto && txs[i].payload.address == txs[j].payload.address
    requires forall k | k in txs[i].accessList && k in txs[j].accessList ::
               k == CodeKey(txs[i].payload.trocto, txs[i].payload.address)
    ensures !Clash(txs, i, j)
  {
    ClashMeaning(txs, i, j);
  }

  ghost predicate Before(txs: Block, i: nat, j: nat) {
    i < j < |txs| && Clash(txs, i, j)
  }

  ghost predicate NoWriterBetween(txs: Block, k: Key, i: nat, j: nat)
    requires j <= |txs|
  {
    forall m | i < m < j :: !Writes(txs[m], k)
  }

  ghost predicate NobodyBetween(txs: Block, sender: Address, i: nat, j: nat)
    requires j <= |txs|
  {
    forall m | i < m < j :: txs[m].sender != sender
  }

  ghost predicate DirectOn(txs: Block, i: nat, j: nat, k: Key) {
    i < j < |txs| && ClashOn(txs, i, j, k) && NoWriterBetween(txs, k, i, j)
  }

  /** The immediate predecessors that the dependency lists record. */
  ghost predicate Direct(txs: Block, i: nat, j: nat) {
    && i < j < |txs|
    && ((exists k :: DirectOn(txs, i, j, k))
        || (txs[i].sender == txs[j].sender && NobodyBetween(txs, txs[i].sender, i, j)))
  }

  lemma DirectIsAClash(txs: Block, i: nat, j: nat)
    requires Direct(txs, i, j)
    ensures Before(txs, i, j)
  {
  }

  // Chains.

  /** Consecutive elements of `path` are related by `e`. */
  ghost predicate IsChain(e: (nat, nat) -> bool, path: seq<nat>) {
    path != [] && forall i | 0 < i < |path| :: e(path[i - 1], path[i])
  }

  /** Some non-trivial chain of `e` leads from `i` to `j`. */
  ghost predicate Forces(e: (nat, nat) -> bool, i: nat, j: nat) {
    exists path :: Links(e, path, i, j)
  }

  ghost predicate Links(e: (nat, nat) -> bool, path: seq<nat>, i: nat, j: nat) {
    IsChain(e, path) && |path| >= 2 && path[0] == i && path[|path| - 1] == j
  }

  lemma ForcesIsTransitive(e: (nat, nat) -> bool, i: nat, j: nat, k: nat)
    requires Forces(e, i, j) && Forces(e, j, k)
    ensures Forces(e, i, k)
  {
    var p: seq<nat> :| Links(e, p, i, j);
    var q: seq<nat> :| Links(e, q, j, k);
    var joined := p + q[1..];
    assert forall t | 0 < t < |joined| :: e(joined[t - 1], joined[t]) by {
      forall t | 0 < t < |joined|
        ensures e(joined[t - 1], joined[t])
      {
        if t >= |p| {
          assert joined[t] == q[t - |p| + 1] && joined[t - 1] == q[t - |p|];
        }
      }
    }
    assert Links(e, joined, i, k);
  }

  lemma EdgeForces(e: (nat, nat) -> bool, i: nat, j: nat)
    requires e(i, j)
    ensures Forces(e, i, j)
  {
    assert Links(e, [i, j], i, j);
  }

  ghost function DirectEdges(txs: Block): (nat, nat) -> bool {
    (i: nat, j: nat) => Direct(txs, i, j)
  }

  ghost function ClashEdges(txs: Block): (nat, nat) -> bool {
    (i: nat, j: nat) => Before(txs, i, j)
  }

  /** A clash is either recorded itself or passes through a later writer or the same sender. */
  lemma {:induction false} ClashSplits(txs: Block, i: nat, j: nat) returns (m: nat)
    requires Before(txs, i, j) && !Direct(txs, i, j)
    ensures i < m < j && Before(txs, i, m) && Before(txs, m, j)
  {
    if txs[i].sender == txs[j].sender {
      m :| i < m < j && txs[m].sender == txs[i].sender;
    } else {
      var k :| ClashOn(txs, i, j, k);
      assert !DirectOn(txs, i, j, k);
      m :| i < m < j && Writes(txs[m], k);
      assert ClashOn(txs, i, m, k) && ClashOn(txs, m, j, k);
    }
  }

  lemma {:induction false} ClashIsForced(txs: Block, i: nat, j: nat)
    requires Before(txs, i, j)
    ensures Forces(DirectEdges(txs), i, j)
    decreases j - i
  {
    if Direct(txs, i, j) {
      EdgeForces(DirectEdges(txs), i, j);
    } else {
      var m := ClashSplits(txs, i, j);
      ClashIsForced(txs, i, m);
      ClashIsForced(txs, m, j);
      ForcesIsTransitive(DirectEdges(txs), i, m, j);
    }
  }

  /** Edges that each imply a chain of other edges give nothing new along chains. */
  lemma {:induction false} ForcedChains(e: (nat, nat) -> bool, f: (nat, nat) -> bool, path: seq<nat>)
    requires forall i: nat, j: nat | e(i, j) :: Forces(f, i, j)
    requires IsChain(e, path) && |path| >= 2
    ensures Forces(f, path[0], path[|path| - 1])
  {
    var n := |path| - 1;
    assert e(path[n - 1], path[n]);
    if n > 1 {
      assert IsChain(e, path[..n]);
      ForcedChains(e, f, path[..n]);
      ForcesIsTransitive(f, path[0], path[n - 1], path[n]);
    }
  }

  /** The recorded dependencies order exactly the pairs that chains of clashes order. */
  lemma DependenciesOrderExactlyClashes(txs: Block, i: nat, j: nat)
    ensures Forces(DirectEdges(txs), i, j) <==> Forces(ClashEdges(txs), i, j)
  {
    var (d, c) := (DirectEdges(txs), ClashEdges(txs));
    if Forces(d, i, j) {
      forall a: nat, b: nat | d(a, b)
        ensures Forces(c, a, b)
      {
        DirectIsAClash(txs, a, b);
        EdgeForces(c, a, b);
      }
      var path: seq<nat> :| Links(d, path, i, j);
      ForcedChains(d, c, path);
    }
    if Forces(c, i, j) {
      forall a: nat, b: nat | c(a, b)
        ensures Forces(d, a, b)
      {
        ClashIsForced(txs, a, b);
      }
      var path: seq<nat> :| Links(c, path, i, j);
      ForcedChains(c, d, path);
    }
  }

  /** A set that holds the recorded predecessors of its members holds all clashing ones. */
  ghost predicate ClosedBelow(txs: Block, done: set<nat>) {
    forall i: nat, j | j in done && Direct(txs, i, j) :: i in done
  }

  lemma {:induction false} ClosedUnderClashes(txs: Block, done: set<nat>, i: nat, j: nat)
    requires ClosedBelow(txs, done) && j in done && Before(txs, i, j)
    ensures i in done
    decreases j - i
  {
    if !Direct(txs, i, j) {
      var m := ClashSplits(txs, i, j);
      ClosedUnderClashes(txs, done, m, j);
      ClosedUnderClashes(txs, done, i, m);
    }
  }

  // The dependency lists.

  datatype History = History(writer: Option<nat>, readers: seq<nat>)

  function HistoryOf(histories: map<Key, History>, k: Key): History {
    if k in histories then histories[k] else History(None, [])
  }

  /** `h` names the last writer of `k` below `upTo` and the readers since. */
  ghost predicate HistoryOk(txs: Block, upTo: nat, k: Key, h: History)
    requires upTo <= |txs|
  {
    && (h.writer.None? ==> forall i | 0 <= i < upTo :: !Writes(txs[i], k))
    && (h.writer.Some? ==>
          var w := h.writer.value; w < upTo && Writes(txs[w], k) && NoWriterBetween(txs, k, w, upTo))
    && (forall i: nat :: i in h.readers <==>
          i < upTo && Touches(txs[i], k) && !Writes(txs[i], k) && NoWriterBetween(txs, k, i, upTo))
  }

  ghost predicate HistoriesOk(txs: Block, upTo: nat, histories: map<Key, History>)
    requires upTo <= |txs|
  {
    forall k :: HistoryOk(txs, upTo, k, HistoryOf(histories, k))
  }

  /** `last` names the latest transaction of every sender below `upTo`. */
  ghost predicate SendersOk(txs: Block, upTo: nat, last: map<Address, nat>)
    requires upTo <= |txs|
  {
    && (forall i | 0 <= i < upTo :: txs[i].sender in last)
    && (forall s | s in last :: last[s] < upTo && txs[last[s]].sender == s && NobodyBetween(txs, s, last[s], upTo))
  }

  /** Exact block-order predecessors of every transaction, each list ascending. */
  method Dependencies(txs: Block) returns (deps: seq<seq<nat>>)
    ensures |deps| == |txs|
    ensures forall j | 0 <= j < |txs| :: IsDependencyList(txs, j, deps[j])
  {
    hide Direct;
    hide HistoryOk;
    hide NobodyBetween;
    var histories: map<Key, History> := NoHistory(txs);
    var senders: map<Address, nat> := map[];
    deps := [];
    for index := 0 to |txs|
      invariant |deps| == index
      invariant forall j | 0 <= j < index :: IsDependencyList(txs, j, deps[j])
      invariant HistoriesOk(txs, index, histories)
      invariant SendersOk(txs, index, senders)
    {
      var previous := Previous(txs, index, histories, senders);
      var list := InOrder(previous);
      assert forall i: nat :: i in list <==> i in (set t | 0 <= t < |list| :: list[t]);
      deps := deps + [list];
      NoteSender(txs, index, senders);
      senders := senders[txs[index].sender := index];
      histories := Record(txs, index, histories);
    }
  }

  method NoHistory(ghost txs: Block) returns (r: map<Key, History>)
    ensures HistoriesOk(txs, 0, r)
  {
    r := map[];
  }

  lemma NoteSender(txs: Block, index: nat, last: map<Address, nat>)
    requires index < |txs| && SendersOk(txs, index, last)
    ensures SendersOk(txs, index + 1, last[txs[index].sender := index])
  {
  }

  ghost predicate IsDependencyList(txs: Block, j: nat, list: seq<nat>) {
    && Increasing(list)
    && (forall i: nat :: i in list <==> Direct(txs, i, j))
  }

  method Previous(txs: Block, index: nat, histories: map<Key, History>, senders: map<Address, nat>)
    returns (previous: set<nat>)
    requires index < |txs|
    requires HistoriesOk(txs, index, histories)
    requires SendersOk(txs, index, senders)
    ensures forall i: nat :: i in previous <==> Direct(txs, i, index)
  {
    var tx := txs[index];
    previous := {};
    for p := 0 to |tx.accessList|
      invariant forall i: nat :: i in previous <==> exists q :: 0 <= q < p && DirectOn(txs, i, index, tx.accessList[q])
    {
      var k := tx.accessList[p];
      var h := HistoryOf(histories, k);
      var found := (if h.writer.Some? then {h.writer.value} else {})
                   + (if Writes(tx, k) then set i | i in h.readers else {});
      forall i: nat
        ensures i in found <==> DirectOn(txs, i, index, k)
      {
        FoundIsDirect(txs, index, k, h, i);
      }
      previous := previous + found;
    }
    assert forall i: nat :: i in previous <==> exists k :: DirectOn(txs, i, index, k);
    if tx.sender in senders {
      previous := previous + {senders[tx.sender]};
    }
  }

  lemma FoundIsDirect(txs: Block, index: nat, k: Key, h: History, i: nat)
    requires index < |txs| && HistoryOk(txs, index, k, h) && Touches(txs[index], k)
    ensures DirectOn(txs, i, index, k) <==> h.writer == Some(i) || (Writes(txs[index], k) && i in h.readers)
  {
    if DirectOn(txs, i, index, k) && Writes(txs[i], k) {
      assert h.writer.Some?;
      assert !(i < h.writer.value) && !(h.writer.value < i);
    }
  }

  /** Makes `index` the latest toucher of each key it declares; runs once its own dependencies are known. */
  method Record(txs: Block, index: nat, histories: map<Key, History>) returns (r: map<Key, History>)
    requires index < |txs|
    requires HistoriesOk(txs, index, histories)
    ensures HistoriesOk(txs, index + 1, r)
  {
    hide HistoryOk;
    hide Writes;
    var tx := txs[index];
    r := histories;
    for p := 0 to |tx.accessList|
      invariant forall k | k in tx.accessList[..p] :: HistoryOk(txs, index + 1, k, HistoryOf(r, k))
      invariant forall k | k !in tx.accessList[..p] :: HistoryOf(r, k) == HistoryOf(histories, k)
    {
      var k := tx.accessList[p];
      var h := HistoryOf(r, k);
      var next: History;
      if !Writes(tx, k) {
        next := if h.readers != [] && h.readers[|h.readers| - 1] == index then h
        else History(h.writer, h.readers + [index]);
        RecordRead(txs, index, k, h, next);
      } else {
        next := History(Some(index), []);
        RecordWrite(txs, index, k);
      }
      r := r[k := next];
      assert tx.accessList[..p + 1] == tx.accessList[..p] + [k];
    }
    forall k | k !in tx.accessList
      ensures HistoryOk(txs, index + 1, k, HistoryOf(r, k))
    {
      Untouched(txs, index, k, HistoryOf(r, k));
    }
    assert tx.accessList[..|tx.accessList|] == tx.accessList;
  }

  lemma RecordWrite(txs: Block, index: nat, k: Key)
    requires index < |txs| && Writes(txs[index], k)
    ensures HistoryOk(txs, index + 1, k, History(Some(index), []))
  {
    var next := index + 1;
    forall i: nat | i < index
      ensures !NoWriterBetween(txs, k, i, next)
    {
      assert Writes(txs[index], k);
    }
  }

  lemma RecordRead(txs: Block, index: nat, k: Key, h: History, next: History)
    requires index < |txs| && Touches(txs[index], k) && !Writes(txs[index], k)
    requires HistoryOk(txs, index, k, h) || HistoryOk(txs, index + 1, k, h)
    requires next == if h.readers != [] && h.readers[|h.readers| - 1] == index then h
                     else History(h.writer, h.readers + [index])
    ensures HistoryOk(txs, index + 1, k, next)
  {
    if h.writer.Some? {
      assert NoWriterBetween(txs, k, h.writer.value, index) <==> NoWriterBetween(txs, k, h.writer.value, index + 1);
    }
    forall i: nat
      ensures i in next.readers <==> i < index + 1 && Touches(txs[i], k) && !Writes(txs[i], k)
                                     && NoWriterBetween(txs, k, i, index + 1)
    {
      if i < index {
        assert NoWriterBetween(txs, k, i, index) <==> NoWriterBetween(txs, k, i, index + 1);
      }
    }
  }

  lemma Untouched(txs: Block, index: nat, k: Key, h: History)
    requires index < |txs| && k !in txs[index].accessList && HistoryOk(txs, index, k, h)
    ensures HistoryOk(txs, index + 1, k, h)
  {
    if h.writer.Some? {
      assert NoWriterBetween(txs, k, h.writer.value, index + 1);
    }
    forall i: nat
      ensures i in h.readers <==> i < index + 1 && Touches(txs[i], k) && !Writes(txs[i], k)
                                  && NoWriterBetween(txs, k, i, index + 1)
    {
      if i < index {
        assert NoWriterBetween(txs, k, i, index) <==> NoWriterBetween(txs, k, i, index + 1);
      }
    }
  }
}
