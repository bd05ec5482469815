/** One worker's job: consecutive transactions in a private session over a frozen view. */
module Jobs {

  import opened Wrappers
  import opened Ledger
  import opened Ordering
  import opened Payments
  import opened Scheduler
  import opened Speculation

  /** Unbounded resource sums. */
  datatype Sum = Sum(compute: nat, memory: nat, io: nat, bandwidth: nat) {

    function Plus(r: Resources): Sum {
      Sum(compute + r.compute, memory + r.memory, io + r.io, bandwidth + r.bandwidth)
    }

    predicate Within(limit: Resources) {
      compute <= limit.compute && memory <= limit.memory && io <= limit.io && bandwidth <= limit.bandwidth
    }

    predicate AtMost(other: Sum) {
      compute <= other.compute && memory <= other.memory && io <= other.io && bandwidth <= other.bandwidth
    }
  }

  ghost function AsSum(r: Resources): Sum {
    Sum(r.compute, r.memory, r.io, r.bandwidth)
  }

  ghost predicate Indexes(txs: Block, indexes: seq<nat>) {
    forall t | 0 <= t < |indexes| :: indexes[t] < |txs|
  }

  /** `outputs` are the results of the first transactions of the job, each seeing the ones before. */
  ghost predicate IsRun(env: Env, txs: Block, view: State, indexes: seq<nat>, outputs: seq<Output>)
    requires Indexes(txs, indexes)
    decreases outputs
  {
    outputs == []
    || (&& indexes != []
        && Exec(env, txs[indexes[0]], view) == Ok(outputs[0])
        && IsRun(env, txs, Apply(view, outputs[0].diff), indexes[1..], outputs[1..]))
  }

  ghost function ViewAfter(view: State, outputs: seq<Output>): State
    decreases outputs
  {
    if outputs == [] then view else ViewAfter(Apply(view, outputs[0].diff), outputs[1..])
  }

  ghost function UsageAfter(used: Sum, outputs: seq<Output>): Sum
    decreases outputs
  {
    if outputs == [] then used else UsageAfter(used.Plus(outputs[0].resources), outputs[1..])
  }

  lemma {:induction false} RunExtends(env: Env, txs: Block, view: State, indexes: seq<nat>, outputs: seq<Output>,
                                      next: Output)
    requires Indexes(txs, indexes) && IsRun(env, txs, view, indexes, outputs) && |outputs| < |indexes|
    requires Exec(env, txs[indexes[|outputs|]], ViewAfter(view, outputs)) == Ok(next)
    ensures IsRun(env, txs, view, indexes, outputs + [next])
    ensures ViewAfter(view, outputs + [next]) == Apply(ViewAfter(view, outputs), next.diff)
    decreases outputs
  {
    hide Exec;
    var longer := outputs + [next];
    if outputs == [] {
      assert longer[1..] == [];
    } else {
      assert longer[1..] == outputs[1..] + [next];
      RunExtends(env, txs, Apply(view, outputs[0].diff), indexes[1..], outputs[1..], next);
    }
  }

  lemma {:induction false} UsageExtends(used: Sum, outputs: seq<Output>, next: Output)
    ensures UsageAfter(used, outputs + [next]) == UsageAfter(used, outputs).Plus(next.resources)
    decreases outputs
  {
    var longer := outputs + [next];
    if outputs == [] {
      assert longer[1..] == [];
    } else {
      assert longer[1..] == outputs[1..] + [next];
      UsageExtends(used.Plus(outputs[0].resources), outputs[1..], next);
    }
  }

  const NOTHING := Sum(0, 0, 0, 0)

  /** Why a job stopped after `outputs`: its next transaction fails, or the session's capacity is spent. */
  ghost predicate Stops(env: Env, txs: Block, view: State, indexes: seq<nat>, outputs: seq<Output>, e: ExecutionError)
    requires Indexes(txs, indexes)
  {
    && IsRun(env, txs, view, indexes, outputs) && |outputs| < |indexes|
    && var next := Exec(env, txs[indexes[|outputs|]], ViewAfter(view, outputs));
       next == Err(e)
       || (next.Ok? && e == ResourceLimit && !UsageAfter(NOTHING, outputs + [next.value]).Within(env.capacity))
  }

  lemma NothingRan(env: Env, txs: Block, view: State, indexes: seq<nat>)
    requires Indexes(txs, indexes)
    ensures IsRun(env, txs, view, indexes, []) && ViewAfter(view, []) == view
    ensures UsageAfter(NOTHING, []) == NOTHING == AsSum(ZERO)
  {
  }

  /** Runs the indexes in order in one session over `view`. */
  method RunJob(env: Env, txs: Block, view: State, indexes: seq<nat>)
    returns (r: Result<seq<Output>, ExecutionError>, ghost ran: seq<Output>)
    requires Indexes(txs, indexes)
    ensures r.Ok? ==> ran == r.value && |ran| == |indexes| && IsRun(env, txs, view, indexes, ran)
    ensures r.Err? ==> Stops(env, txs, view, indexes, ran, r.error)
  {
    hide Exec;
    hide SessionStep;
    hide IsRun;
    hide ViewAfter;
    hide UsageAfter;
    NothingRan(env, txs, view, indexes);
    var session := new SignedSession(env, view);
    var outputs: seq<Output> := [];
    for t := 0 to |indexes|
      invariant session.env == env && fresh(session)
      invariant |outputs| == t && IsRun(env, txs, view, indexes, outputs)
      invariant session.View() == ViewAfter(view, outputs)
      invariant AsSum(session.used) == UsageAfter(NOTHING, outputs)
    {
      ghost var (seen, spent) := (session.View(), session.used);
      var output := session.Execute(txs[indexes[t]]);
      StepMeaning(env, seen, spent, txs[indexes[t]], output);
      ghost var next := Exec(env, txs[indexes[t]], seen);
      if next.Ok? {
        UsageExtends(NOTHING, outputs, next.value);
      }
      if output.Err? {
        return Err(output.error), outputs;
      }
      RunExtends(env, txs, view, indexes, outputs, output.value);
      outputs := outputs + [output.value];
    }
    return Ok(outputs), outputs;
  }

  lemma StepMeaning(env: Env, view: State, used: Resources, tx: Transaction, r: Outcome)
    requires var step := SessionStep(env, view, used, tx);
             r == if step.Ok? then Ok(step.value.0) else Err(step.error)
    ensures var next := Exec(env, tx, view);
            && (r.Ok? <==> next.Ok? && AsSum(used).Plus(next.value.resources).Within(env.capacity))
            && (r.Ok? ==> r == next && var total := used.CheckedAdd(r.value.resources);
                                       total.Some? && AsSum(total.value) == AsSum(used).Plus(r.value.resources))
            && (r.Err? ==> r == next || (next.Ok? && r.error == ResourceLimit))
    ensures var step := SessionStep(env, view, used, tx);
            step.Ok? ==> r.Ok? && AsSum(step.value.1) == AsSum(used).Plus(r.value.resources)
  {
    hide Exec;
  }

  // A job of ready transactions.

  /** Each index is ready once `done` and the indexes before it are. */
  ghost predicate Extends(txs: Block, done: set<nat>, indexes: seq<nat>)
    decreases indexes
  {
    indexes == [] || (Ready(txs, done, indexes[0]) && Extends(txs, done + {indexes[0]}, indexes[1..]))
  }

  lemma {:induction false} ExtendsByOne(txs: Block, done: set<nat>, indexes: seq<nat>, next: nat)
    requires Extends(txs, done, indexes) && Ready(txs, done + (set i | i in indexes), next)
    ensures Extends(txs, done, indexes + [next])
    decreases indexes
  {
    hide Ready;
    var longer := indexes + [next];
    if indexes == [] {
      assert done + (set i | i in indexes) == done && longer[1..] == [];
    } else {
      assert longer[1..] == indexes[1..] + [next];
      assert done + (set i | i in indexes) == done + {indexes[0]} + (set i | i in indexes[1..]) by {
        assert indexes == [indexes[0]] + indexes[1..];
      }
      ExtendsByOne(txs, done + {indexes[0]}, indexes[1..], next);
    }
  }

  /** More completed transactions, none of them of this job, keep it ready. */
  lemma {:induction false} ExtendsWithMore(txs: Block, done: set<nat>, more: set<nat>, indexes: seq<nat>)
    requires Extends(txs, done, indexes) && done <= more && forall i | i in indexes :: i !in more
    ensures Extends(txs, more, indexes)
    decreases indexes
  {
    if indexes != [] {
      assert indexes[0] in indexes;
      forall i | i in indexes[1..]
        ensures i !in more + {indexes[0]}
      {
        ExtendsIsDistinct(txs, done, indexes, i);
      }
      ExtendsWithMore(txs, done + {indexes[0]}, more + {indexes[0]}, indexes[1..]);
    }
  }

  lemma {:induction false} ExtendsAvoidsDone(txs: Block, done: set<nat>, indexes: seq<nat>, i: nat)
    requires Extends(txs, done, indexes) && i in indexes
    ensures i !in done && i < |txs|
    decreases indexes
  {
    if i != indexes[0] {
      ExtendsAvoidsDone(txs, done + {indexes[0]}, indexes[1..], i);
    }
  }

  lemma ExtendsIsDistinct(txs: Block, done: set<nat>, indexes: seq<nat>, i: nat)
    requires indexes != [] && Extends(txs, done, indexes) && i in indexes[1..]
    ensures i != indexes[0] && i in indexes
  {
    ExtendsAvoidsDone(txs, done + {indexes[0]}, indexes[1..], i);
  }

  lemma {:induction false} ExtendsAreIndexes(txs: Block, done: set<nat>, indexes: seq<nat>)
    requires Extends(txs, done, indexes)
    ensures Indexes(txs, indexes)
  {
    forall t | 0 <= t < |indexes|
      ensures indexes[t] < |txs|
    {
      ExtendsAvoidsDone(txs, done, indexes, indexes[t]);
    }
  }

  ghost predicate SameForJob(txs: Block, indexes: seq<nat>, a: State, b: State)
    requires Indexes(txs, indexes)
  {
    forall t, k | 0 <= t < |indexes| && MayRead(txs[indexes[t]], k) :: Get(a, k) == Get(b, k)
  }

  /** Every output of the run is the serial output of its transaction. */
  ghost predicate SerialRun(env: Env, txs: Block, s: State, indexes: seq<nat>, outputs: seq<Output>)
    requires Indexes(txs, indexes)
  {
    |outputs| <= |indexes| && forall t | 0 <= t < |outputs| :: SerialOutput(env, txs, s, indexes[t]) == Ok(outputs[t])
  }

  /**
   * A job of ready transactions, run on a view that agrees with a matching one on all
   * keys its transactions may read, yields serial outputs and would yield the serial
   * result for its next transaction.
   */
  lemma {:induction false} JobRunsAsSerial(env: Env, txs: Block, s: State, done: set<nat>, full: State, frozen: State,
                                           indexes: seq<nat>, outputs: seq<Output>)
    requires Sound(env, txs) && ClosedBelow(txs, done) && Matches(env, txs, s, done, full)
    requires Extends(txs, done, indexes) && Indexes(txs, indexes) && SameForJob(txs, indexes, full, frozen)
    requires IsRun(env, txs, frozen, indexes, outputs)
    ensures SerialRun(env, txs, s, indexes, outputs)
    ensures |outputs| < |indexes| ==>
              Exec(env, txs[indexes[|outputs|]], ViewAfter(frozen, outputs)) ==
                  SerialOutput(env, txs, s, indexes[|outputs|])
    decreases indexes
  {
    hide Exec;
    hide SerialOutput;
    hide Matches;
    hide Sound;
    hide ClosedBelow;
    hide Ready;
    hide SameForJob;
    hide SerialRun;
    if indexes == [] {
      NothingSerial(env, txs, s, indexes);
    } else {
      var i := indexes[0];
      ReadyRunsAsSerial(env, txs, s, done, full, i);
      FirstAgrees(env, txs, indexes, full, frozen);
      if outputs == [] {
        NothingSerial(env, txs, s, indexes);
      } else {
        var diff := outputs[0].diff;
        PublishingKeepsMatch(env, txs, s, done, full, i);
        ReadyKeepsClosed(txs, done, i);
        RestAgrees(txs, indexes, full, frozen, diff);
        JobRunsAsSerial(env, txs, s, done + {i}, Apply(full, diff), Apply(frozen, diff), indexes[1..], outputs[1..]);
        SerialRunCons(env, txs, s, indexes, outputs);
      }
    }
  }

  lemma NothingSerial(env: Env, txs: Block, s: State, indexes: seq<nat>)
    requires Indexes(txs, indexes)
    ensures SerialRun(env, txs, s, indexes, [])
  {
  }

  lemma FirstAgrees(env: Env, txs: Block, indexes: seq<nat>, a: State, b: State)
    requires Sound(env, txs) && indexes != [] && Indexes(txs, indexes) && SameForJob(txs, indexes, a, b)
    ensures Exec(env, txs[indexes[0]], a) == Exec(env, txs[indexes[0]], b)
  {
    hide Exec;
    hide EngineConfined;
    assert forall k | MayRead(txs[indexes[0]], k) :: Get(a, k) == Get(b, k);
    ExecReadsDeclared(env, txs[indexes[0]], a, b);
  }

  lemma RestAgrees(txs: Block, indexes: seq<nat>, a: State, b: State, diff: Diff)
    requires indexes != [] && Indexes(txs, indexes) && SameForJob(txs, indexes, a, b)
    ensures SameForJob(txs, indexes[1..], Apply(a, diff), Apply(b, diff))
  {
    forall t, k | 0 <= t < |indexes[1..]| && MayRead(txs[indexes[1..][t]], k)
      ensures Get(Apply(a, diff), k) == Get(Apply(b, diff), k)
    {
      assert MayRead(txs[indexes[t + 1]], k);
    }
  }

  lemma SerialRunCons(env: Env, txs: Block, s: State, indexes: seq<nat>, outputs: seq<Output>)
    requires indexes != [] && outputs != [] && Indexes(txs, indexes)
    requires SerialOutput(env, txs, s, indexes[0]) == Ok(outputs[0])
    requires SerialRun(env, txs, s, indexes[1..], outputs[1..])
    ensures SerialRun(env, txs, s, indexes, outputs)
  {
    hide SerialOutput;
    forall t | 0 <= t < |outputs|
      ensures SerialOutput(env, txs, s, indexes[t]) == Ok(outputs[t])
    {
      if t > 0 {
        assert indexes[t] == indexes[1..][t - 1] && outputs[t] == outputs[1..][t - 1];
      }
    }
  }

  /** The overlay values restricted to keys that the job declares. */
  function Frozen(txs: Block, values: Diff, indexes: seq<nat>): Diff
    requires forall t | 0 <= t < |indexes| :: indexes[t] < |txs|
  {
    map k | k in values && (exists t | 0 <= t < |indexes| :: k in txs[indexes[t]].accessList) :: values[k]
  }

  lemma FrozenAgrees(env: Env, txs: Block, s: State, done: set<nat>, values: Diff, indexes: seq<nat>)
    requires Matches(env, txs, s, done, Apply(s, values)) && Indexes(txs, indexes)
    ensures SameForJob(txs, indexes, Apply(s, values), Apply(s, Frozen(txs, values, indexes)))
  {
    hide SerialState;
    var (full, frozen) := (Apply(s, values), Apply(s, Frozen(txs, values, indexes)));
    forall t, k | 0 <= t < |indexes| && MayRead(txs[indexes[t]], k)
      ensures Get(full, k) == Get(frozen, k)
    {
      if k !in txs[indexes[t]].accessList {
        assert Cut(txs, done, RuntimeKey, 0);
        StartsAtParent(env, txs, s);
      }
    }
  }

  // Usage of a job against usage of the block.

  ghost function SerialUsage(env: Env, txs: Block, s: State, upTo: nat): Sum
    requires upTo <= |txs|
  {
    if upTo == 0 then NOTHING
    else
      var output := SerialOutput(env, txs, s, upTo - 1);
      var before := SerialUsage(env, txs, s, upTo - 1);
      if output.Ok? then before.Plus(output.value.resources) else before
  }

  /** The whole block runs serially: every transaction succeeds and the total fits the capacity. */
  ghost predicate SerialSucceeds(env: Env, txs: Block, s: State) {
    && (forall i | 0 <= i < |txs| :: SerialOutput(env, txs, s, i).Ok?)
    && SerialUsage(env, txs, s, |txs|).Within(env.capacity)
  }

  lemma {:induction false} JobUsageBounded(env: Env, txs: Block, s: State, indexes: seq<nat>, outputs: seq<Output>,
                                           upTo: nat)
    requires Indexes(txs, indexes) && Increasing(indexes) && SerialRun(env, txs, s, indexes, outputs)
    requires upTo <= |txs| && forall t | 0 <= t < |outputs| :: indexes[t] < upTo
    ensures UsageAfter(NOTHING, outputs).AtMost(SerialUsage(env, txs, s, upTo))
    decreases upTo
  {
    hide SerialOutput;
    if outputs != [] {
      var n := |outputs| - 1;
      if indexes[n] == upTo - 1 {
        JobUsageBounded(env, txs, s, indexes, outputs[..n], upTo - 1);
        UsageExtends(NOTHING, outputs[..n], outputs[n]);
        assert outputs == outputs[..n] + [outputs[n]];
      } else {
        JobUsageBounded(env, txs, s, indexes, outputs, upTo - 1);
      }
    }
  }

  lemma {:induction false} UsageGrows(env: Env, txs: Block, s: State, from: nat, to: nat)
    requires from <= to <= |txs|
    ensures SerialUsage(env, txs, s, from).AtMost(SerialUsage(env, txs, s, to))
  {
    hide SerialOutput;
    if from < to {
      UsageGrows(env, txs, s, from, to - 1);
    }
  }
}
