/** The readiness coordinator: jobs complete in any order, outputs are serial. */
module ReadyDag {

  import opened Wrappers
  import opened Ledger
  import opened Ordering
  import opened Scheduler
  import opened Speculation
  import opened Jobs

  /** A submitted job: its transactions and the view frozen for it. */
  datatype Job = Job(indexes: seq<nat>, view: State)

  /** However far the job runs, it yields serial outputs and meets the serial result next. */
  ghost predicate Faithful(env: Env, txs: Block, s: State, job: Job) {
    && Indexes(txs, job.indexes) && job.indexes != [] && Increasing(job.indexes)
    && forall outputs | IsRun(env, txs, job.view, job.indexes, outputs) ::
         && SerialRun(env, txs, s, job.indexes, outputs)
         && (|outputs| < |job.indexes| ==> NextIsSerial(env, txs, s, job, outputs))
  }

  ghost predicate NextIsSerial(env: Env, txs: Block, s: State, job: Job, outputs: seq<Output>)
    requires Indexes(txs, job.indexes) && |outputs| < |job.indexes|
  {
    var i := job.indexes[|outputs|];
    Exec(env, txs[i], ViewAfter(job.view, outputs)) == SerialOutput(env, txs, s, i)
  }

  /** A local native failure is reported only if some transaction really meets it in block order. */
  ghost predicate OnlyIfNative(env: Env, txs: Block, s: State, e: ExecutionError) {
    e == NativeUnavailable ==> exists i: nat :: i < |txs| && SerialOutput(env, txs, s, i) == Err(NativeUnavailable)
  }

  lemma FrozenJobIsFaithful(env: Env, txs: Block, s: State, done: set<nat>, values: Diff, indexes: seq<nat>)
    requires Sound(env, txs) && ClosedBelow(txs, done) && Matches(env, txs, s, done, Apply(s, values))
    requires Extends(txs, done, indexes) && indexes != [] && Increasing(indexes) && Indexes(txs, indexes)
    ensures Faithful(env, txs, s, Job(indexes, Apply(s, Frozen(txs, values, indexes))))
  {
    hide Matches;
    hide Extends;
    hide Sound;
    hide IsRun;
    hide SerialRun;
    hide SerialOutput;
    hide Exec;
    var view := Apply(s, Frozen(txs, values, indexes));
    var job := Job(indexes, view);
    FrozenAgrees(env, txs, s, done, values, indexes);
    forall outputs | IsRun(env, txs, view, indexes, outputs)
      ensures SerialRun(env, txs, s, indexes, outputs)
      ensures |outputs| < |indexes| ==> NextIsSerial(env, txs, s, job, outputs)
    {
      JobRunsAsSerial(env, txs, s, done, Apply(s, values), view, indexes, outputs);
    }
  }

  ghost predicate AreSuccessors(deps: seq<seq<nat>>, successors: seq<seq<nat>>) {
    && |successors| == |deps|
    && (forall i | 0 <= i < |deps| :: Increasing(successors[i]))
    && (forall i: nat, j: nat | i < |deps| :: j in successors[i] <==> DependsOn(deps, j, i))
  }

  ghost predicate DependsOn(deps: seq<seq<nat>>, j: nat, i: nat) {
    j < |deps| && i in deps[j]
  }

  /** Inverts the dependency lists. */
  method SuccessorIndexes(deps: seq<seq<nat>>) returns (successors: seq<seq<nat>>)
    requires forall j, i | 0 <= j < |deps| && i in deps[j] :: i < |deps|
    requires forall j | 0 <= j < |deps| :: Increasing(deps[j])
    ensures AreSuccessors(deps, successors)
  {
    successors := seq(|deps|, _ => []);
    for index := 0 to |deps|
      invariant |successors| == |deps|
      invariant forall i | 0 <= i < |deps| :: Increasing(successors[i])
      invariant forall i: nat, j: nat | i < |deps| :: j in successors[i] <==> j < index && DependsOn(deps, j, i)
    {
      var predecessors := deps[index];
      for p := 0 to |predecessors|
        invariant |successors| == |deps|
        invariant forall i | 0 <= i < |deps| :: Increasing(successors[i])
        invariant forall i: nat, j: nat | i < |deps| :: j in successors[i] <==>
                    (j < index && DependsOn(deps, j, i)) || (j == index && i in predecessors[..p])
      {
        var previous := predecessors[p];
        assert previous in deps[index];
        assert previous !in predecessors[..p];
        var longer := successors[previous] + [index];
        AppendIncreasing(successors[previous], index);
        assert predecessors[..p + 1] == predecessors[..p] + [previous];
        successors := successors[previous := longer];
      }
      assert predecessors[..|predecessors|] == predecessors;
    }
  }

  /** Recorded predecessors that have not completed. */
  ghost function Undone(deps: seq<seq<nat>>, done: set<nat>, j: nat): set<nat>
    requires j < |deps|
  {
    set i | i in deps[j] && i !in done
  }

  /** Shared plan of one block. */
  ghost predicate IsPlanned(txs: Block, deps: seq<seq<nat>>, successors: seq<seq<nat>>) {
    && |deps| == |txs|
    && (forall j | 0 <= j < |txs| :: IsDependencyList(txs, j, deps[j]))
    && AreSuccessors(deps, successors)
  }

  /** The overlay and the outputs are those of a dependency-closed set. */
  ghost predicate Published(env: Env, txs: Block, s: State, done: set<nat>, values: Diff, outputs: seq<Option<Output>>,
                            completed: nat)
  {
    && ClosedBelow(txs, done) && Matches(env, txs, s, done, Apply(s, values))
    && (forall i | i in done :: i < |txs|) && completed == |done|
    && SerialSlots(env, txs, s, done, outputs)
  }

  /** Filled slots are exactly the completed transactions and hold their serial outputs. */
  ghost predicate SerialSlots(env: Env, txs: Block, s: State, done: set<nat>, outputs: seq<Option<Output>>) {
    && |outputs| == |txs|
    && (forall i | 0 <= i < |txs| :: outputs[i].Some? <==> i in done)
    && (forall i | 0 <= i < |txs| && i in done :: SerialOutput(env, txs, s, i) == Ok(outputs[i].value))
  }

  /** Each counter is the number of recorded predecessors still to complete. */
  ghost predicate Counted(deps: seq<seq<nat>>, done: set<nat>, remaining: seq<nat>) {
    |remaining| == |deps| && forall j | 0 <= j < |deps| :: remaining[j] == |Undone(deps, done, j)|
  }

  ghost predicate ReadyOk(ready: set<nat>, started: seq<bool>, remaining: seq<nat>) {
    && |started| == |remaining|
    && forall i: nat :: i in ready <==> i < |started| && !started[i] && remaining[i] == 0
  }

  /** `i` belongs to a job in flight or to results still being published. */
  ghost predicate Flying(jobs: map<nat, Job>, current: seq<nat>, i: nat) {
    i in current || exists w :: w in jobs && i in jobs[w].indexes
  }

  ghost predicate StartedOk(started: seq<bool>, done: set<nat>, jobs: map<nat, Job>, current: seq<nat>) {
    forall i | 0 <= i < |started| :: started[i] <==> i in done || Flying(jobs, current, i)
  }

  /** Jobs in flight are faithful, remain ready and share no transaction. */
  ghost predicate JobsOk(env: Env, txs: Block, s: State, done: set<nat>, jobs: map<nat, Job>, current: seq<nat>) {
    && Extends(txs, done, current)
    && (forall w | w in jobs :: Faithful(env, txs, s, jobs[w]) && Extends(txs, done, jobs[w].indexes))
    && (forall v, w, i | v in jobs && w in jobs && i in jobs[v].indexes && i in jobs[w].indexes :: v == w)
    && (forall w, i | w in jobs && i in jobs[w].indexes :: i !in current)
  }

  /** `next` alone waits for `i`, waits for nothing else, and has not been started. */
  ghost predicate Follows(successors: seq<seq<nat>>, remaining: seq<nat>, started: seq<bool>, i: nat, next: nat) {
    && i < |successors| && successors[i] == [next]
    && next < |remaining| && remaining[next] == 1 && next < |started| && !started[next]
  }

  ghost predicate IsPath(successors: seq<seq<nat>>, remaining: seq<nat>, started: seq<bool>, indexes: seq<nat>) {
    forall p, q | 0 <= p < q < |indexes| && q == p + 1 ::
      Follows(successors, remaining, started, indexes[p], indexes[q])
  }

  ghost predicate Ends(successors: seq<seq<nat>>, remaining: seq<nat>, started: seq<bool>, i: nat) {
    forall next :: !Follows(successors, remaining, started, i, next)
  }

  lemma SinglePath(successors: seq<seq<nat>>, remaining: seq<nat>, started: seq<bool>, index: nat)
    ensures IsPath(successors, remaining, started, [index])
  {
  }

  lemma PathGrows(successors: seq<seq<nat>>, remaining: seq<nat>, started: seq<bool>, indexes: seq<nat>, next: nat)
    requires indexes != [] && IsPath(successors, remaining, started, indexes)
    requires Follows(successors, remaining, started, indexes[|indexes| - 1], next)
    ensures IsPath(successors, remaining, started, indexes + [next])
  {
  }

  class Coordinator {
    const env: Env
    const txs: Block
    const parent: State
    const successors: seq<seq<nat>>
    const workers: nat
    ghost const deps: seq<seq<nat>>

    var remaining: seq<nat>
    var ready: set<nat>
    var started: seq<bool>
    var outputs: seq<Option<Output>>
    var values: Diff
    var jobs: map<nat, Job>
    var completed: nat
    ghost var done: set<nat>

    ghost predicate Planned() {
      Sound(env, txs) && IsPlanned(txs, deps, successors) && 0 < workers
    }

    ghost predicate Sized()
      reads this
    {
      && |remaining| == |started| == |outputs| == |txs|
      && (forall w | w in jobs :: w < workers)
    }

    ghost predicate Valid(current: seq<nat>)
      reads this
    {
      && Planned() && Sized()
      && Published(env, txs, parent, done, values, outputs, completed)
      && Counted(deps, done, remaining) && ReadyOk(ready, started, remaining)
      && StartedOk(started, done, jobs, current) && JobsOk(env, txs, parent, done, jobs, current)
    }

    constructor (env: Env, txs: Block, parent: State, deps: seq<seq<nat>>, successors: seq<seq<nat>>, workers: nat)
      requires Sound(env, txs) && IsPlanned(txs, deps, successors) && 0 < workers
      ensures Valid([]) && fresh(this) && done == {}
      ensures this.env == env && this.txs == txs && this.parent == parent && this.workers == workers
    {
      this.env, this.txs, this.parent, this.workers := env, txs, parent, workers;
      this.deps, this.successors := deps, successors;
      remaining := seq(|deps|, j requires 0 <= j < |deps| => |deps[j]|);
      ready := set j | 0 <= j < |deps| && |deps[j]| == 0;
      started := seq(|txs|, _ => false);
      outputs := seq(|txs|, _ => None);
      values, jobs, completed, done := map[], map[], 0, {};
      new;
      ParentMatches(env, txs, parent);
      SameState(Apply(parent, values), parent);
      forall j | 0 <= j < |deps|
        ensures remaining[j] == |Undone(deps, done, j)|
      {
        IncreasingSize(deps[j]);
        assert Undone(deps, done, j) == AsSet(deps[j]);
      }
    }

    method IdleWorker() returns (r: Option<nat>)
      ensures r.None? <==> forall w: nat | w < workers :: w in jobs
      ensures r.Some? ==> r.value < workers && r.value !in jobs
    {
      for w := 0 to workers
        invariant forall v: nat | v < w :: v in jobs
      {
        if w !in jobs {
          return Some(w);
        }
      }
      return None;
    }

    /** Follows the linear path of unstarted single successors from a ready transaction, as far as it goes. */
    method Fuse(index: nat) returns (indexes: seq<nat>)
      requires Valid([]) && index in ready
      ensures indexes != [] && Increasing(indexes) && Extends(txs, done, indexes)
      ensures forall i | i in indexes :: i < |txs| && !started[i] && (i in ready ==> i == index)
      ensures index in indexes
      ensures indexes[0] == index && IsPath(successors, remaining, started, indexes)
      ensures Ends(successors, remaining, started, indexes[|indexes| - 1])
    {
      hide Published;
      hide JobsOk;
      hide Sound;
      hide Direct;
      hide Extends;
      hide IsPath;
      SinglePath(successors, remaining, started, index);
      ReadyMeansReady(txs, deps, done, index);
      indexes := [index];
      SingletonExtends(txs, done, index);
      var tail := index;
      while |successors[tail]| == 1 && remaining[successors[tail][0]] == 1 && !started[successors[tail][0]]
        invariant indexes != [] && indexes[0] == index && indexes[|indexes| - 1] == tail < |txs|
        invariant |successors[tail]| == 1 ==> successors[tail][0] in successors[tail]
        invariant IsPath(successors, remaining, started, indexes)
        invariant Increasing(indexes) && Extends(txs, done, indexes)
        invariant forall i | i in indexes :: i < |txs| && !started[i] && (i in ready ==> i == index)
        invariant index in indexes
        decreases |txs| - tail
      {
        var next := successors[tail][0];
        assert next in successors[tail] && DependsOn(deps, next, tail);
        DependencyIsEarlier(txs, next, deps[next], tail);
        LastIsLargest(indexes);
        PathReady(txs, deps, done, tail, next, set i | i in indexes);
        ExtendsByOne(txs, done, indexes, next);
        AppendIncreasing(indexes, next);
        PathGrows(successors, remaining, started, indexes, next);
        indexes := indexes + [next];
        tail := next;
      }
    }

    /** Hands a fused path to an idle worker with a private copy of the declared overlay keys. */
    method Submit(worker: nat, index: nat, indexes: seq<nat>)
      requires Valid([]) && worker < workers && worker !in jobs
      requires indexes != [] && Increasing(indexes) && Extends(txs, done, indexes) && index in indexes
      requires forall i | i in indexes :: i < |txs| && !started[i] && (i in ready ==> i == index)
      modifies this`started, this`ready, this`jobs
      ensures Valid([]) && jobs.Keys == old(jobs.Keys) + {worker} && ready == old(ready) - {index}
    {
      hide Sound;
      hide ReadyOk;
      hide StartedOk;
      hide JobsOk;
      hide Extends;
      hide Published;
      hide Counted;
      hide IsPlanned;
      hide Faithful;
      LaunchedIsFaithful(env, txs, parent, done, values, outputs, completed, indexes);
      var job := Job(indexes, Apply(parent, Frozen(txs, values, indexes)));
      var was := started;
      var now := seq(|was|, i requires 0 <= i < |was| => was[i] || i in indexes);
      ReadyWithout(ready, was, now, remaining, index, indexes);
      StartedWith(was, now, done, jobs, worker, job);
      JobsWith(env, txs, parent, was, done, jobs, worker, job);
      jobs, started, ready := jobs[worker := job], now, ready - {index};
    }

    /** Starts ready paths until no worker is idle or nothing is ready. */
    method Launch()
      requires Valid([])
      modifies this`started, this`ready, this`jobs
      ensures Valid([]) && (ready == {} || forall w: nat | w < workers :: w in jobs)
    {
      hide Valid;
      var worker: Option<nat> := IdleWorker();
      while worker.Some? && ready != {}
        invariant Valid([])
        invariant worker.None? <==> forall w: nat | w < workers :: w in jobs
        invariant worker.Some? ==> worker.value < workers && worker.value !in jobs
        decreases ready
      {
        ghost var least := HasLeast(ready);
        assert exists m :: m in ready && forall x | x in ready :: m <= x;
        var index :| index in ready && forall x | x in ready :: index <= x;
        var indexes := Fuse(index);
        Submit(worker.value, index, indexes);
        worker := IdleWorker();
      }
    }

    /** One more predecessor of each successor has completed. */
    method Release(index: nat)
      requires Planned() && Sized() && index < |txs| && index in done && ReadyOk(ready, started, remaining)
      requires Counted(deps, done - {index}, remaining)
      modifies this`remaining, this`ready
      ensures Sized() && Counted(deps, done, remaining) && ReadyOk(ready, started, remaining)
    {
      hide Sound;
      var next := successors[index];
      for p := 0 to |next|
        invariant Sized() && ReadyOk(ready, started, remaining)
        invariant forall j | 0 <= j < |txs| ::
                    remaining[j] ==
                      if j in next[..p] then |Undone(deps, done, j)| else |Undone(deps, done - {index}, j)|
      {
        var j := next[p];
        assert j in successors[index];
        assert j !in next[..p] && next[..p + 1] == next[..p] + [j];
        OneLess(deps, done, index, j);
        remaining := remaining[j := remaining[j] - 1];
        if remaining[j] == 0 && !started[j] {
          ready := ready + {j};
        }
      }
      assert next[..|next|] == next;
      forall j | 0 <= j < |txs|
        ensures remaining[j] == |Undone(deps, done, j)|
      {
        if j !in next {
          assert !DependsOn(deps, j, index);
          assert Undone(deps, done, j) == Undone(deps, done - {index}, j);
        }
      }
    }

    /** Publishes one result to the overlay and the output slots. */
    method Publish(index: nat, output: Output, rest: seq<nat>)
      requires Valid([index] + rest) && index < |txs| && SerialOutput(env, txs, parent, index) == Ok(output)
      modifies this`remaining, this`ready, this`outputs, this`values, this`completed, this`done
      ensures Valid(rest) && done == old(done) + {index} && index !in old(done)
    {
      hide Sound;
      hide Published;
      hide Counted;
      hide ReadyOk;
      hide StartedOk;
      hide JobsOk;
      hide AreSuccessors;
      hide SerialOutput;
      hide Ready;
      NextIsReady(env, txs, parent, done, jobs, index, rest);
      PublishSlot(env, txs, parent, done, values, outputs, completed, index, output);
      StartedAfter(started, done, jobs, index, rest);
      JobsAfter(env, txs, parent, done, jobs, index, rest);
      ghost var before := done;
      values := values + output.diff;
      outputs := outputs[index := Some(output)];
      completed := completed + 1;
      done := done + {index};
      assert done - {index} == before;
      Release(index);
    }

    /** Some worker finishes; its results are published in job order. */
    method Complete() returns (r: Option<ExecutionError>)
      requires Valid([]) && jobs.Keys != {}
      modifies this
      ensures r.None? ==> Valid([]) && old(done) < done
      ensures r.Some? ==> !SerialSucceeds(env, txs, parent) && OnlyIfNative(env, txs, parent, r.value)
    {
      hide Sound;
      hide Published;
      hide Counted;
      hide ReadyOk;
      hide StartedOk;
      hide JobsOk;
      hide IsPlanned;
      hide SerialOutput;
      hide SerialSucceeds;
      hide OnlyIfNative;
      hide Faithful;
      hide SerialRun;
      var worker :| worker in jobs;
      var job := jobs[worker];
      JobLands(env, txs, parent, started, done, jobs, worker);
      FaithfulMeaning(env, txs, parent, job);
      jobs := jobs - {worker};
      var results, ran := RunJob(env, txs, job.view, job.indexes);
      JobOutcome(env, txs, parent, job, results, ran);
      if results.Err? {
        return Some(results.error);
      }
      PublishJob(job.indexes, results.value);
      return None;
    }

    /** Publishes all results of one job in order. */
    method PublishJob(indexes: seq<nat>, results: seq<Output>)
      requires Valid(indexes) && indexes != [] && Indexes(txs, indexes)
      requires |results| == |indexes| && SerialRun(env, txs, parent, indexes, results)
      modifies this`remaining, this`ready, this`outputs, this`values, this`completed, this`done
      ensures Valid([]) && old(done) < done
    {
      hide Valid;
      hide SerialOutput;
      assert indexes[0..] == indexes;
      for t := 0 to |indexes|
        invariant Valid(indexes[t..])
        invariant old(done) <= done && (t > 0 ==> old(done) < done)
      {
        assert indexes[t..] == [indexes[t]] + indexes[t + 1..];
        Publish(indexes[t], results[t], indexes[t + 1..]);
      }
      assert indexes[|indexes|..] == [];
    }
  }

  lemma FaithfulMeaning(env: Env, txs: Block, s: State, job: Job)
    requires Faithful(env, txs, s, job)
    ensures Indexes(txs, job.indexes) && job.indexes != []
  {
  }

  lemma ReadyMeansReady(txs: Block, deps: seq<seq<nat>>, done: set<nat>, i: nat)
    requires i < |txs| == |deps| && IsDependencyList(txs, i, deps[i]) && |Undone(deps, done, i)| == 0 && i !in done
    ensures Ready(txs, done, i)
  {
    hide Direct;
    forall p: nat | Direct(txs, p, i)
      ensures p in done
    {
      assert p in Undone(deps, done, i) || p in done;
    }
  }

  /** The one unfinished predecessor of `next` is the tail of the path. */
  lemma PathReady(txs: Block, deps: seq<seq<nat>>, done: set<nat>, tail: nat, next: nat, path: set<nat>)
    requires next < |txs| == |deps| && IsDependencyList(txs, next, deps[next]) && |Undone(deps, done, next)| == 1
    requires tail in deps[next] && tail !in done && next !in done && tail in path && next !in path
    ensures Ready(txs, done + path, next)
  {
    hide Direct;
    OnlyMember(Undone(deps, done, next), tail);
    forall p: nat | Direct(txs, p, next)
      ensures p in done + path
    {
      if p !in done {
        assert p in Undone(deps, done, next);
      }
    }
  }

  lemma OneLess(deps: seq<seq<nat>>, done: set<nat>, index: nat, j: nat)
    requires j < |deps| && index in deps[j] && index in done
    ensures |Undone(deps, done - {index}, j)| == |Undone(deps, done, j)| + 1
  {
    assert Undone(deps, done - {index}, j) == Undone(deps, done, j) + {index};
  }

  lemma OthersStayReady(txs: Block, done: set<nat>, index: nat, indexes: seq<nat>)
    requires Extends(txs, done, indexes) && index !in indexes
    ensures Extends(txs, done + {index}, indexes)
  {
    hide Extends;
    forall i | i in indexes
      ensures i !in done + {index}
    {
      ExtendsAvoidsDone(txs, done, indexes, i);
    }
    ExtendsWithMore(txs, done, done + {index}, indexes);
  }

  lemma LaunchedIsFaithful(env: Env, txs: Block, s: State, done: set<nat>, values: Diff, outputs: seq<Option<Output>>,
                           completed: nat, indexes: seq<nat>)
    requires Sound(env, txs) && Published(env, txs, s, done, values, outputs, completed)
    requires Extends(txs, done, indexes) && indexes != [] && Increasing(indexes)
    ensures Indexes(txs, indexes)
    ensures Faithful(env, txs, s, Job(indexes, Apply(s, Frozen(txs, values, indexes))))
  {
    hide Faithful;
    ExtendsAreIndexes(txs, done, indexes);
    FrozenJobIsFaithful(env, txs, s, done, values, indexes);
  }

  lemma JobLands(env: Env, txs: Block, s: State, started: seq<bool>, done: set<nat>, jobs: map<nat, Job>, worker: nat)
    requires StartedOk(started, done, jobs, []) && JobsOk(env, txs, s, done, jobs, []) && worker in jobs
    ensures Faithful(env, txs, s, jobs[worker])
    ensures StartedOk(started, done, jobs - {worker}, jobs[worker].indexes)
    ensures JobsOk(env, txs, s, done, jobs - {worker}, jobs[worker].indexes)
  {
    hide Faithful;
    hide Extends;
    var (others, landed) := (jobs - {worker}, jobs[worker].indexes);
    forall i | 0 <= i < |started|
      ensures started[i] <==> i in done || Flying(others, landed, i)
    {
      assert Flying(jobs, [], i) <==> Flying(others, landed, i) by {
        assert forall w | w in jobs :: w == worker || (w in others && others[w] == jobs[w]);
      }
    }
  }

  /** A faithful job returns serial outputs, or the block does not run serially either. */
  lemma JobOutcome(env: Env, txs: Block, s: State, job: Job, r: Result<seq<Output>, ExecutionError>, ran: seq<Output>)
    requires Faithful(env, txs, s, job)
    requires r.Ok? ==> ran == r.value && |ran| == |job.indexes| && IsRun(env, txs, job.view, job.indexes, ran)
    requires r.Err? ==> Stops(env, txs, job.view, job.indexes, ran, r.error)
    ensures r.Ok? ==> |r.value| == |job.indexes| && SerialRun(env, txs, s, job.indexes, r.value)
    ensures r.Err? ==> !SerialSucceeds(env, txs, s) && OnlyIfNative(env, txs, s, r.error)
  {
    hide SerialOutput;
    hide Exec;
    hide SerialUsage;
    if r.Err? {
      assert NextIsSerial(env, txs, s, job, ran);
    }
    if r.Err? && SerialSucceeds(env, txs, s) {
      var next := SerialOutput(env, txs, s, job.indexes[|ran|]);
      assert SerialRun(env, txs, s, job.indexes, ran + [next.value]);
      JobUsageBounded(env, txs, s, job.indexes, ran + [next.value], |txs|);
      assert false;
    }
  }

  lemma ReadyWithout(ready: set<nat>, was: seq<bool>, now: seq<bool>, remaining: seq<nat>, index: nat,
                     indexes: seq<nat>)
    requires ReadyOk(ready, was, remaining) && |now| == |was| && index in indexes
    requires forall i | 0 <= i < |was| :: now[i] <==> was[i] || i in indexes
    requires forall i | i in indexes && i in ready :: i == index
    ensures ReadyOk(ready - {index}, now, remaining)
  {
  }

  lemma StartedWith(was: seq<bool>, now: seq<bool>, done: set<nat>, jobs: map<nat, Job>, worker: nat, job: Job)
    requires StartedOk(was, done, jobs, []) && worker !in jobs && |now| == |was|
    requires forall i | 0 <= i < |was| :: now[i] <==> was[i] || i in job.indexes
    ensures StartedOk(now, done, jobs[worker := job], [])
  {
    var more := jobs[worker := job];
    forall i | 0 <= i < |now|
      ensures now[i] <==> i in done || Flying(more, [], i)
    {
      assert more[worker] == job && forall w | w in jobs :: w in more && more[w] == jobs[w];
      assert Flying(more, [], i) <==> Flying(jobs, [], i) || i in job.indexes;
    }
  }

  lemma JobsWith(env: Env, txs: Block, s: State, started: seq<bool>, done: set<nat>, jobs: map<nat, Job>, worker: nat,
                 job: Job)
    requires StartedOk(started, done, jobs, []) && JobsOk(env, txs, s, done, jobs, []) && worker !in jobs
    requires Faithful(env, txs, s, job) && Extends(txs, done, job.indexes)
    requires |started| == |txs| && forall i | i in job.indexes :: i < |txs| && !started[i]
    ensures JobsOk(env, txs, s, done, jobs[worker := job], [])
  {
    hide Faithful;
    hide Extends;
    forall w, i | w in jobs && i in jobs[w].indexes
      ensures i !in job.indexes
    {
      assert Flying(jobs, [], i);
    }
  }

  lemma PublishSlot(env: Env, txs: Block, s: State, done: set<nat>, values: Diff, outputs: seq<Option<Output>>,
                    completed: nat, index: nat, output: Output)
    requires Sound(env, txs) && Published(env, txs, s, done, values, outputs, completed)
    requires Ready(txs, done, index) && SerialOutput(env, txs, s, index) == Ok(output)
    ensures index !in done && index < |outputs|
    ensures Published(env, txs, s, done + {index}, values + output.diff, outputs[index := Some(output)], completed + 1)
  {
    hide Sound;
    hide SerialOutput;
    hide Matches;
    hide ClosedBelow;
    PublishingKeepsMatch(env, txs, s, done, Apply(s, values), index);
    ReadyKeepsClosed(txs, done, index);
    Payments.ApplyTwice(s, values, output.diff);
  }

  lemma NextIsReady(env: Env, txs: Block, s: State, done: set<nat>, jobs: map<nat, Job>, index: nat, rest: seq<nat>)
    requires JobsOk(env, txs, s, done, jobs, [index] + rest)
    ensures Ready(txs, done, index)
  {
    assert ([index] + rest)[0] == index;
  }

  lemma StartedAfter(started: seq<bool>, done: set<nat>, jobs: map<nat, Job>, index: nat, rest: seq<nat>)
    requires StartedOk(started, done, jobs, [index] + rest)
    ensures StartedOk(started, done + {index}, jobs, rest)
  {
    forall i | 0 <= i < |started|
      ensures started[i] <==> i in done + {index} || Flying(jobs, rest, i)
    {
      assert Flying(jobs, [index] + rest, i) <==> i == index || Flying(jobs, rest, i);
    }
  }

  lemma JobsAfter(env: Env, txs: Block, s: State, done: set<nat>, jobs: map<nat, Job>, index: nat, rest: seq<nat>)
    requires JobsOk(env, txs, s, done, jobs, [index] + rest)
    ensures JobsOk(env, txs, s, done + {index}, jobs, rest)
  {
    hide Faithful;
    var current := [index] + rest;
    assert current[0] == index && current[1..] == rest;
    forall w | w in jobs
      ensures Extends(txs, done + {index}, jobs[w].indexes)
    {
      assert index in current;
      OthersStayReady(txs, done, index, jobs[w].indexes);
    }
    assert forall i | i in rest :: i in current;
  }

  lemma DependencyIsEarlier(txs: Block, j: nat, list: seq<nat>, i: nat)
    requires IsDependencyList(txs, j, list) && i in list
    ensures i < j
  {
  }

  lemma OnlyMember(s: set<nat>, x: nat)
    requires x in s && |s| == 1
    ensures s == {x}
  {
    var rest := s - {x};
    assert |rest| == 0;
    assert s == rest + {x};
  }

  lemma SingletonExtends(txs: Block, done: set<nat>, i: nat)
    requires Ready(txs, done, i)
    ensures Extends(txs, done, [i])
  {
    assert [i][1..] == [];
  }

  ghost function AsSet(s: seq<nat>): set<nat> {
    set i | i in s
  }

  lemma {:induction false} IncreasingSize(s: seq<nat>)
    requires Increasing(s)
    ensures |AsSet(s)| == |s|
  {
    if s != [] {
      var n := |s| - 1;
      IncreasingSize(s[..n]);
      OneMore(s);
    }
  }

  lemma OneMore(s: seq<nat>)
    requires Increasing(s) && s != []
    ensures var n := |s| - 1; AsSet(s) == AsSet(s[..n]) + {s[n]} && s[n] !in AsSet(s[..n])
  {
    var n := |s| - 1;
    assert s == s[..n] + [s[n]];
  }

  // The coordinator loop.

  ghost function UpTo(n: nat): (r: set<nat>)
    ensures |r| == n && forall i: nat :: i in r <==> i < n
  {
    if n == 0 then {} else UpTo(n - 1) + {n - 1}
  }

  /** Nothing in flight and nothing ready means everything has completed. */
  lemma {:induction false} NeverStuck(txs: Block, deps: seq<seq<nat>>, done: set<nat>, remaining: seq<nat>,
                                      ready: set<nat>, started: seq<bool>, i: nat)
    requires |deps| == |txs| && forall j | 0 <= j < |txs| :: IsDependencyList(txs, j, deps[j])
    requires Counted(deps, done, remaining) && ReadyOk(ready, started, remaining) && ready == {}
    requires StartedOk(started, done, map[], []) && i < |txs|
    ensures i in done
    decreases i
  {
    hide Direct;
    forall p | p in deps[i]
      ensures p in done
    {
      DependencyIsEarlier(txs, i, deps[i], p);
      NeverStuck(txs, deps, done, remaining, ready, started, p);
    }
    assert Undone(deps, done, i) == {};
    assert i !in ready;
  }

  ghost predicate IsSerialResult(env: Env, txs: Block, s: State, outputs: seq<Output>) {
    |outputs| == |txs| && forall i | 0 <= i < |txs| :: SerialOutput(env, txs, s, i) == Ok(outputs[i])
  }

  /**
   * Runs the whole block by readiness. Whatever order workers finish in, success means
   * serial outputs, and a block that runs serially never fails here.
   */
  method RunDag(env: Env, txs: Block, parent: State, workers: nat) returns (r: Result<seq<Output>, ExecutionError>)
    requires Sound(env, txs) && 0 < workers
    ensures r.Ok? ==> IsSerialResult(env, txs, parent, r.value)
    ensures SerialSucceeds(env, txs, parent) ==> r.Ok?
    ensures r.Err? ==> OnlyIfNative(env, txs, parent, r.error)
  {
    hide OnlyIfNative;
    hide Sound;
    hide SerialOutput;
    hide SerialSucceeds;
    hide ClosedBelow;
    hide Matches;
    hide JobsOk;
    hide Direct;
    var deps := Dependencies(txs);
    var successors := PlanSuccessors(txs, deps);
    var c := new Coordinator(env, txs, parent, deps, successors, workers);
    CompletedBound(c);
    while c.completed < |txs|
      invariant c.Valid([]) && fresh(c) && c.completed <= |txs|
      invariant c.env == env && c.txs == txs && c.parent == parent
      decreases |txs| - c.completed
    {
      c.Launch();
      InFlight(c);
      ghost var before := c.done;
      var failure := c.Complete();
      if failure.Some? {
        return Err(failure.value);
      }
      SubsetSize(before, c.done);
      CompletedBound(c);
    }
    EverySlotFilled(c);
    var slots := c.outputs;
    return Ok(seq(|txs|, i requires 0 <= i < |txs| && |slots| == |txs| && slots[i].Some? => slots[i].value));
  }

  method PlanSuccessors(txs: Block, deps: seq<seq<nat>>) returns (successors: seq<seq<nat>>)
    requires |deps| == |txs| && forall j | 0 <= j < |txs| :: IsDependencyList(txs, j, deps[j])
    ensures IsPlanned(txs, deps, successors)
  {
    hide Direct;
    forall j, i | 0 <= j < |deps| && i in deps[j]
      ensures i < |deps|
    {
      DependencyIsEarlier(txs, j, deps[j], i);
    }
    successors := SuccessorIndexes(deps);
  }

  lemma CompletedBound(c: Coordinator)
    requires c.Valid([])
    ensures c.completed <= |c.txs| && (c.completed == |c.txs| ==> c.done == UpTo(|c.txs|))
  {
    hide Sound;
    hide ClosedBelow;
    hide Matches;
    hide JobsOk;
    hide SerialSlots;
    hide IsPlanned;
    assert c.done <= UpTo(|c.txs|);
    SubsetSize(c.done, UpTo(|c.txs|));
  }

  /** The stuck branch is unreachable: after launching, some job is in flight. */
  lemma InFlight(c: Coordinator)
    requires c.Valid([]) && c.completed < |c.txs|
    requires c.ready == {} || forall w: nat | w < c.workers :: w in c.jobs
    ensures c.jobs.Keys != {}
  {
    hide Sound;
    hide ClosedBelow;
    hide Matches;
    hide JobsOk;
    hide SerialSlots;
    hide AreSuccessors;
    if c.jobs.Keys == {} {
      assert c.jobs == map[] && 0 < c.workers && 0 !in c.jobs;
      forall i: nat | i < |c.txs|
        ensures i in c.done
      {
        NeverStuck(c.txs, c.deps, c.done, c.remaining, c.ready, c.started, i);
      }
      SubsetSize(UpTo(|c.txs|), c.done);
      assert false;
    }
  }

  lemma EverySlotFilled(c: Coordinator)
    requires c.Valid([]) && c.completed == |c.txs|
    ensures |c.outputs| == |c.txs| && forall i | 0 <= i < |c.txs| ::
              c.outputs[i].Some? && SerialOutput(c.env, c.txs, c.parent, i) == Ok(c.outputs[i].value)
  {
    hide Sound;
    hide ClosedBelow;
    hide Matches;
    hide JobsOk;
    hide SerialOutput;
    CompletedBound(c);
    assert forall i: nat | i < |c.txs| :: i in UpTo(|c.txs|);
  }
}
