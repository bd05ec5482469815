/** Why out-of-order execution over an overlay sees exactly what serial execution sees. */
module Speculation {

  import opened Ledger
  import opened Scheduler

  /** State before transaction `i` when all earlier ones ran in block order. */
  ghost function SerialState(env: Env, txs: Block, s: State, i: nat): State
    requires i <= |txs|
  {
    if i == 0 then s
    else
      var before := SerialState(env, txs, s, i - 1);
      var output := Exec(env, txs[i - 1], before);
      if output.Ok? then Apply(before, output.value.diff) else before
  }

  /** What transaction `i` yields in block order. */
  ghost function SerialOutput(env: Env, txs: Block, s: State, i: nat): Outcome
    requires i < |txs|
  {
    Exec(env, txs[i], SerialState(env, txs, s, i))
  }

  /** Executor assumptions: declarations cover all accesses and the engine respects them. */
  ghost predicate Sound(env: Env, txs: Block) {
    EngineConfined(env) && forall i | 0 <= i < |txs| :: Covered(txs[i])
  }

  /** As far as `k` is concerned, `done` is the first `c` transactions. */
  ghost predicate Cut(txs: Block, done: set<nat>, k: Key, c: nat) {
    c <= |txs| && forall w: nat | w < |txs| && MayWrite(txs[w], k) :: w in done <==> w < c
  }

  /** Wherever `done` cuts the writers of a key, the view holds the serial value at that cut. */
  ghost predicate Matches(env: Env, txs: Block, s: State, done: set<nat>, view: State) {
    forall k, c: nat | Cut(txs, done, k, c) :: Get(view, k) == Get(SerialState(env, txs, s, c), k)
  }

  /** `i` is not done and all its recorded predecessors are. */
  ghost predicate Ready(txs: Block, done: set<nat>, i: nat) {
    i < |txs| && i !in done && forall p: nat | Direct(txs, p, i) :: p in done
  }

  lemma ReadyKeepsClosed(txs: Block, done: set<nat>, i: nat)
    requires ClosedBelow(txs, done) && Ready(txs, done, i)
    ensures ClosedBelow(txs, done + {i})
  {
  }

  lemma {:induction false} UnwrittenStays(env: Env, txs: Block, s: State, k: Key, from: nat, to: nat)
    requires Sound(env, txs) && from <= to <= |txs|
    requires forall w: nat | from <= w < to :: !MayWrite(txs[w], k)
    ensures Get(SerialState(env, txs, s, from), k) == Get(SerialState(env, txs, s, to), k)
  {
    hide Exec;
    hide EngineConfined;
    hide Covered;
    if from < to {
      UnwrittenStays(env, txs, s, k, from, to - 1);
      SerialStep(env, txs, s, to - 1);
      var output := SerialOutput(env, txs, s, to - 1);
      if output.Ok? && k in output.value.diff {
        ExecWritesDeclared(env, txs[to - 1], SerialState(env, txs, s, to - 1), k);
        assert false;
      }
    }
  }

  lemma SerialStep(env: Env, txs: Block, s: State, i: nat)
    requires i < |txs|
    ensures SerialOutput(env, txs, s, i).Ok? ==>
              SerialState(env, txs, s, i + 1) ==
                  Apply(SerialState(env, txs, s, i), SerialOutput(env, txs, s, i).value.diff)
    ensures SerialOutput(env, txs, s, i).Err? ==> SerialState(env, txs, s, i + 1) == SerialState(env, txs, s, i)
  {
  }

  /** Every key a ready transaction may read is cut exactly at its own position. */
  lemma ReadyCutsReads(txs: Block, done: set<nat>, i: nat, k: Key)
    requires ClosedBelow(txs, done) && Ready(txs, done, i) && MayRead(txs[i], k)
    ensures Cut(txs, done, k, i)
  {
    ReadyKeepsClosed(txs, done, i);
    forall w: nat | w < |txs| && MayWrite(txs[w], k)
      ensures w in done <==> w < i
    {
      if w < i {
        assert ClashOn(txs, w, i, k);
        ClosedUnderClashes(txs, done + {i}, w, i);
      } else if w > i && w in done {
        assert ClashOn(txs, i, w, k);
        ClosedUnderClashes(txs, done, i, w);
      }
    }
  }

  /** A ready transaction, executed on any matching view, yields its serial output. */
  lemma ReadyRunsAsSerial(env: Env, txs: Block, s: State, done: set<nat>, view: State, i: nat)
    requires Sound(env, txs) && ClosedBelow(txs, done) && Ready(txs, done, i) && Matches(env, txs, s, done, view)
    ensures Exec(env, txs[i], view) == SerialOutput(env, txs, s, i)
  {
    hide Exec;
    hide EngineConfined;
    hide SerialState;
    forall k | MayRead(txs[i], k)
      ensures Get(view, k) == Get(SerialState(env, txs, s, i), k)
    {
      ReadyCutsReads(txs, done, i, k);
    }
    ExecReadsDeclared(env, txs[i], view, SerialState(env, txs, s, i));
  }

  /** Publishing the serial diff of a ready transaction keeps the view matching. */
  lemma PublishingKeepsMatch(env: Env, txs: Block, s: State, done: set<nat>, view: State, i: nat)
    requires Sound(env, txs) && ClosedBelow(txs, done) && Ready(txs, done, i) && Matches(env, txs, s, done, view)
    requires SerialOutput(env, txs, s, i).Ok?
    ensures Matches(env, txs, s, done + {i}, Apply(view, SerialOutput(env, txs, s, i).value.diff))
  {
    hide SerialState;
    hide SerialOutput;
    var diff := SerialOutput(env, txs, s, i).value.diff;
    var (more, next) := (done + {i}, Apply(view, diff));
    forall k, c: nat | Cut(txs, more, k, c)
      ensures Get(next, k) == Get(SerialState(env, txs, s, c), k)
    {
      if MayWrite(txs[i], k) {
        PublishedKey(env, txs, s, done, view, i, k, c);
      } else {
        UnpublishedKey(env, txs, s, done, i, k);
        assert Cut(txs, done, k, c);
      }
    }
  }

  lemma UnpublishedKey(env: Env, txs: Block, s: State, done: set<nat>, i: nat, k: Key)
    requires Sound(env, txs) && i < |txs| && !MayWrite(txs[i], k) && SerialOutput(env, txs, s, i).Ok?
    ensures k !in SerialOutput(env, txs, s, i).value.diff
  {
    hide Exec;
    hide EngineConfined;
    hide Covered;
    if k in SerialOutput(env, txs, s, i).value.diff {
      ExecWritesDeclared(env, txs[i], SerialState(env, txs, s, i), k);
    }
  }

  lemma PublishedKey(env: Env, txs: Block, s: State, done: set<nat>, view: State, i: nat, k: Key, c: nat)
    requires Sound(env, txs) && ClosedBelow(txs, done) && Ready(txs, done, i) && Matches(env, txs, s, done, view)
    requires SerialOutput(env, txs, s, i).Ok? && MayWrite(txs[i], k) && Cut(txs, done + {i}, k, c)
    ensures Get(Apply(view, SerialOutput(env, txs, s, i).value.diff), k) == Get(SerialState(env, txs, s, c), k)
  {
    hide SerialState;
    hide SerialOutput;
    hide EngineConfined;
    hide Covered;
    ReadyCutsReads(txs, done, i, k);
    assert i < c;
    assert forall w: nat | i < w < c :: !MayWrite(txs[w], k);
    UnwrittenStays(env, txs, s, k, i + 1, c);
    SerialStep(env, txs, s, i);
  }

  /** Nothing done yet: the parent itself matches. */
  lemma ParentMatches(env: Env, txs: Block, s: State)
    requires Sound(env, txs)
    ensures Matches(env, txs, s, {}, s)
  {
    hide SerialState;
    forall k, c: nat | Cut(txs, {}, k, c)
      ensures Get(s, k) == Get(SerialState(env, txs, s, c), k)
    {
      UnwrittenStays(env, txs, s, k, 0, c);
      StartsAtParent(env, txs, s);
    }
  }

  lemma StartsAtParent(env: Env, txs: Block, s: State)
    ensures SerialState(env, txs, s, 0) == s
  {
  }

  /** Everything done: a matching view is the serial end state. */
  lemma AllDoneIsSerial(env: Env, txs: Block, s: State, done: set<nat>, view: State)
    requires Matches(env, txs, s, done, view) && forall i: nat | i < |txs| :: i in done
    ensures view == SerialState(env, txs, s, |txs|)
  {
    hide SerialState;
    forall k
      ensures Get(view, k) == Get(SerialState(env, txs, s, |txs|), k)
    {
      assert Cut(txs, done, k, |txs|);
    }
    SameState(view, SerialState(env, txs, s, |txs|));
  }
}
