/** The wave executor: fused singleton waves and chunked parallel waves over one overlay. */
module WaveRun {

  import opened Wrappers
  import opened Ledger
  import opened Ordering
  import opened Scheduler
  import opened Waves
  import opened Speculation
  import opened Jobs
  import opened ReadyDag

  /** Completed transactions are those of the first `w` waves. */
  ghost predicate WavesDone(txs: Block, done: set<nat>, w: nat) {
    forall i: nat :: i in done <==> i < |txs| && Depth(txs, i) < w
  }

  /** A transaction of wave `w` has all predecessors in earlier waves. */
  lemma WaveMemberReady(txs: Block, done: set<nat>, w: nat, i: nat)
    requires WavesDone(txs, done, w) && i < |txs| && Depth(txs, i) == w
    ensures Ready(txs, done, i)
  {
    hide Depth;
    hide Direct;
    forall p: nat | Direct(txs, p, i)
      ensures p in done
    {
      DirectIsAClash(txs, p, i);
      WavesAreConflictFree(txs, p, i);
    }
  }

  ghost predicate OfWave(txs: Block, w: nat, indexes: seq<nat>) {
    Increasing(indexes) && forall i | i in indexes :: i < |txs| && Depth(txs, i) == w
  }

  /** Any part of a wave can run as one job. */
  lemma {:induction false} WavePartExtends(txs: Block, done: set<nat>, more: set<nat>, w: nat, indexes: seq<nat>)
    requires WavesDone(txs, done, w) && OfWave(txs, w, indexes) && done <= more
    requires forall i | i in indexes :: i !in more
    ensures Extends(txs, more, indexes)
    decreases indexes
  {
    hide Depth;
    hide Direct;
    if indexes != [] {
      var i := indexes[0];
      assert i in indexes && forall j | j in indexes[1..] :: j in indexes;
      WaveMemberReady(txs, done, w, i);
      assert Ready(txs, more, i);
      assert forall j | j in indexes[1..] :: j != i;
      WavePartExtends(txs, done, more + {i}, w, indexes[1..]);
    }
  }

  /** Consecutive singleton waves from `from` to `to`, in order. */
  ghost predicate IsFused(waves: seq<seq<nat>>, from: nat, to: nat, indexes: seq<nat>) {
    && from <= to <= |waves| && |indexes| == to - from
    && forall t | 0 <= t < |indexes| :: waves[from + t] == [indexes[t]]
  }

  lemma FusedMember(txs: Block, waves: seq<seq<nat>>, from: nat, to: nat, indexes: seq<nat>, t: nat)
    requires IsPlan(txs, |txs|, waves) && IsFused(waves, from, to, indexes) && t < |indexes|
    ensures indexes[t] < |txs| && Depth(txs, indexes[t]) == from + t
    ensures forall i: nat | i < |txs| && Depth(txs, i) == from + t :: i == indexes[t]
  {
    hide Depth;
    assert IsWave(txs, |txs|, from + t, waves[from + t]);
    assert indexes[t] in waves[from + t];
  }

  /** The fused path follows block order and is ready one after the other. */
  lemma {:induction false} FusedExtends(txs: Block, waves: seq<seq<nat>>, done: set<nat>, from: nat, to: nat,
                                        indexes: seq<nat>)
    requires IsPlan(txs, |txs|, waves) && IsFused(waves, from, to, indexes) && WavesDone(txs, done, from)
    ensures Extends(txs, done, indexes) && Increasing(indexes)
    ensures WavesDone(txs, done + AsSet(indexes), to)
    decreases indexes
  {
    hide Depth;
    hide Ready;
    hide IsPlan;
    if indexes != [] {
      var n := |indexes| - 1;
      var (shorter, last) := (indexes[..n], indexes[n]);
      FusedExtends(txs, waves, done, from, to - 1, shorter);
      FusedMember(txs, waves, from, to, indexes, n);
      var before := done + AsSet(shorter);
      WaveMemberReady(txs, before, to - 1, last);
      assert (set i | i in shorter) == AsSet(shorter);
      ExtendsByOne(txs, done, shorter, last);
      assert indexes == shorter + [last];
      FusedIncreases(txs, waves, from, to, indexes);
      assert AsSet(indexes) == AsSet(shorter) + {last};
    } else {
      assert done + AsSet(indexes) == done;
    }
  }

  lemma FusedIncreases(txs: Block, waves: seq<seq<nat>>, from: nat, to: nat, indexes: seq<nat>)
    requires IsPlan(txs, |txs|, waves) && IsFused(waves, from, to, indexes) && indexes != []
    requires Increasing(indexes[..|indexes| - 1])
    ensures Increasing(indexes)
  {
    hide Depth;
    hide IsPlan;
    var n := |indexes| - 1;
    if n > 0 {
      FusedMember(txs, waves, from, to, indexes, n);
      FusedMember(txs, waves, from, to, indexes, n - 1);
      DepthIs(txs, indexes[n], Depth(txs, indexes[n]));
      var i :| 0 <= i < indexes[n] && Clash(txs, i, indexes[n]) && Depth(txs, i) + 1 == Depth(txs, indexes[n]);
      assert i == indexes[n - 1];
      LastIsLargest(indexes[..n]);
      AppendIncreasing(indexes[..n], indexes[n]);
      assert indexes == indexes[..n] + [indexes[n]];
    }
  }

  /** Applies the results of one session in order. */
  method PublishAll(env: Env, txs: Block, parent: State, values: Diff, outputs: seq<Option<Output>>, indexes: seq<nat>,
                    results: seq<Output>, ghost done: set<nat>)
    returns (values': Diff, outputs': seq<Option<Output>>)
    requires Sound(env, txs) && Published(env, txs, parent, done, values, outputs, |done|)
    requires Extends(txs, done, indexes) && Indexes(txs, indexes)
    requires |results| == |indexes| && SerialRun(env, txs, parent, indexes, results)
    ensures Published(env, txs, parent, done + AsSet(indexes), values', outputs', |done + AsSet(indexes)|)
  {
    hide Sound;
    hide Published;
    hide SerialOutput;
    hide Extends;
    hide AsSet;
    values', outputs' := values, outputs;
    ghost var now := done;
    assert indexes[0..] == indexes;
    for t := 0 to |indexes|
      invariant now + AsSet(indexes[t..]) == done + AsSet(indexes)
      invariant Published(env, txs, parent, now, values', outputs', |now|)
      invariant Extends(txs, now, indexes[t..])
    {
      NextOfJob(txs, now, indexes, t);
      PublishSlot(env, txs, parent, now, values', outputs', |now|, indexes[t], results[t]);
      values', outputs' := values' + results[t].diff, outputs'[indexes[t] := Some(results[t])];
      assert |now + {indexes[t]}| == |now| + 1;
      now := now + {indexes[t]};
    }
    NothingLeft(now, indexes);
  }

  lemma NextOfJob(txs: Block, done: set<nat>, indexes: seq<nat>, t: nat)
    requires t < |indexes| && Extends(txs, done, indexes[t..])
    ensures Ready(txs, done, indexes[t]) && Extends(txs, done + {indexes[t]}, indexes[t + 1..])
    ensures done + AsSet(indexes[t..]) == done + {indexes[t]} + AsSet(indexes[t + 1..])
  {
    assert indexes[t..][0] == indexes[t] && indexes[t..][1..] == indexes[t + 1..];
    assert indexes[t..] == [indexes[t]] + indexes[t + 1..];
  }

  lemma NothingLeft(done: set<nat>, indexes: seq<nat>)
    ensures done + AsSet(indexes[|indexes|..]) == done
  {
  }

  /** A job over the published overlay itself. */
  lemma OverlayJobIsFaithful(env: Env, txs: Block, s: State, done: set<nat>, values: Diff, outputs: seq<Option<Output>>,
                             completed: nat, indexes: seq<nat>)
    requires Sound(env, txs) && Published(env, txs, s, done, values, outputs, completed)
    requires Extends(txs, done, indexes) && indexes != [] && Increasing(indexes)
    ensures Faithful(env, txs, s, Job(indexes, Apply(s, values)))
  {
    hide Sound;
    hide Matches;
    hide Extends;
    hide IsRun;
    hide SerialRun;
    hide SerialOutput;
    hide Exec;
    ExtendsAreIndexes(txs, done, indexes);
    var (view, job) := (Apply(s, values), Job(indexes, Apply(s, values)));
    forall ran | IsRun(env, txs, view, indexes, ran)
      ensures SerialRun(env, txs, s, indexes, ran)
      ensures |ran| < |indexes| ==> NextIsSerial(env, txs, s, job, ran)
    {
      JobRunsAsSerial(env, txs, s, done, view, view, indexes, ran);
    }
  }

  /** Runs one ready session over the overlay. */
  method RunOverOverlay(env: Env, txs: Block, parent: State, values: Diff, indexes: seq<nat>,
                        ghost done: set<nat>, ghost outputs: seq<Option<Output>>)
    returns (r: Result<seq<Output>, ExecutionError>)
    requires Sound(env, txs) && Published(env, txs, parent, done, values, outputs, |done|)
    requires Extends(txs, done, indexes) && indexes != [] && Increasing(indexes) && Indexes(txs, indexes)
    ensures r.Ok? ==> |r.value| == |indexes| && SerialRun(env, txs, parent, indexes, r.value)
    ensures r.Err? ==> !SerialSucceeds(env, txs, parent) && OnlyIfNative(env, txs, parent, r.error)
  {
    hide *;
    OverlayJobIsFaithful(env, txs, parent, done, values, outputs, |done|, indexes);
    ghost var ran;
    r, ran := RunJob(env, txs, Apply(parent, values), indexes);
    JobOutcome(env, txs, parent, Job(indexes, Apply(parent, values)), r, ran);
  }

  /** Splits a wave over at most `pool` workers; the results come back in wave order. */
  method RunChunks(env: Env, txs: Block, parent: State, values: Diff, wave: seq<nat>, workers: nat, pool: nat,
                   ghost w: nat, ghost done: set<nat>, ghost outputs: seq<Option<Output>>)
    returns (r: Result<seq<Output>, ExecutionError>)
    requires Sound(env, txs) && Published(env, txs, parent, done, values, outputs, |done|)
    requires WavesDone(txs, done, w) && OfWave(txs, w, wave) && Indexes(txs, wave)
    requires 0 < workers && (pool == workers || |wave| <= pool) && wave != []
    ensures r.Ok? ==> |r.value| == |wave| && SerialRun(env, txs, parent, wave, r.value)
    ensures r.Err? ==> !SerialSucceeds(env, txs, parent) && OnlyIfNative(env, txs, parent, r.error)
  {
    hide Depth;
    hide Sound;
    hide Published;
    hide SerialOutput;
    hide SerialSucceeds;
    var size := (|wave| + workers - 1) / workers;
    CeilCovers(|wave|, workers);
    var results: seq<Output> := [];
    var error: Option<ExecutionError> := None;
    var at: nat := 0;
    for worker := 0 to pool
      invariant at == Min(worker * size, |wave|)
      invariant error.None? ==> |results| == at && SerialRun(env, txs, parent, wave, results)
      invariant error.Some? ==> !SerialSucceeds(env, txs, parent) && OnlyIfNative(env, txs, parent, error.value)
    {
      if at < |wave| {
        var end := Min(at + size, |wave|);
        var chunk := wave[at..end];
        ChunkExtends(txs, done, w, wave, at, end);
        var ran := RunOverOverlay(env, txs, parent, values, chunk, done, outputs);
        if ran.Err? {
          error := if error.None? then Some(ran.error) else error;
        } else if error.None? {
          SerialRunsJoin(env, txs, parent, wave, at, end, results, ran.value);
          results := results + ran.value;
        }
        at := end;
      }
      assert (worker + 1) * size == worker * size + size;
    }
    // No chunk is dropped: the pool always has a worker for the last one.
    assert at == |wave| by {
      PoolCovers(|wave|, workers, pool, size);
    }
    return if error.Some? then Err(error.value) else Ok(results);
  }

  lemma CeilCovers(n: nat, d: nat)
    requires 0 < d && 0 < n
    ensures 0 < (n + d - 1) / d && n <= d * ((n + d - 1) / d)
  {
    var q := (n + d - 1) / d;
    assert n + d - 1 == d * q + (n + d - 1) % d;
  }

  lemma PoolCovers(n: nat, workers: nat, pool: nat, size: nat)
    requires n <= workers * size && 0 < size && (pool == workers || n <= pool)
    ensures n <= pool * size
  {
    if n <= pool {
      assert pool <= pool * size;
    }
  }

  lemma ChunkExtends(txs: Block, done: set<nat>, w: nat, wave: seq<nat>, from: nat, to: nat)
    requires WavesDone(txs, done, w) && OfWave(txs, w, wave) && from < to <= |wave|
    ensures Extends(txs, done, wave[from..to]) && Increasing(wave[from..to]) && Indexes(txs, wave[from..to])
  {
    hide Depth;
    hide Extends;
    var chunk := wave[from..to];
    assert forall i | i in chunk :: i in wave;
    WavePartExtends(txs, done, done, w, chunk);
    ExtendsAreIndexes(txs, done, chunk);
  }

  lemma SerialRunsJoin(env: Env, txs: Block, s: State, wave: seq<nat>, at: nat, end: nat, a: seq<Output>,
                       b: seq<Output>)
    requires Indexes(txs, wave) && at <= end <= |wave| && |a| == at && |b| == end - at
    requires SerialRun(env, txs, s, wave, a) && Indexes(txs, wave[at..end]) && SerialRun(env, txs, s, wave[at..end], b)
    ensures SerialRun(env, txs, s, wave, a + b)
  {
    hide SerialOutput;
    forall t | 0 <= t < |a + b|
      ensures SerialOutput(env, txs, s, wave[t]) == Ok((a + b)[t])
    {
      if t >= at {
        assert wave[t] == wave[at..end][t - at];
      }
    }
  }

  method LongestWave(waves: seq<seq<nat>>) returns (n: nat)
    ensures forall w | 0 <= w < |waves| :: |waves[w]| <= n
    ensures n == 0 || exists w :: 0 <= w < |waves| && |waves[w]| == n
  {
    n := 0;
    for w := 0 to |waves|
      invariant forall v | 0 <= v < w :: |waves[v]| <= n
      invariant n == 0 || exists v :: 0 <= v < w && |waves[v]| == n
    {
      n := Max(n, |waves[w]|);
    }
  }

  /**
   * Wave by wave over a shared overlay. `spawned` says whether the host could start the
   * pool. Success means serial outputs, for every worker count.
   */
  method RunWaves(env: Env, txs: Block, parent: State, workers: nat, spawned: bool)
    returns (r: Result<seq<Output>, ExecutionError>)
    requires Sound(env, txs) && 0 < workers
    ensures r.Ok? ==> IsSerialResult(env, txs, parent, r.value)
    ensures SerialSucceeds(env, txs, parent) && 2 <= workers && spawned ==> r.Ok?
    ensures r.Err? ==> OnlyIfNative(env, txs, parent, r.error)
  {
    hide Depth;
    hide Sound;
    hide Published;
    hide SerialOutput;
    hide SerialSucceeds;
    hide Extends;
    var waves := Plan(txs);
    var longest := LongestWave(waves);
    var pool := Min(longest, workers);
    if pool > 1 && !spawned {
      return Err(ResourceLimit);
    }
    var values: Diff := map[];
    var outputs: seq<Option<Output>> := seq(|txs|, _ => None);
    ghost var done: set<nat> := {};
    NothingPublished(env, txs, parent);
    var w := 0;
    while w < |waves|
      invariant w <= |waves| && WavesDone(txs, done, w)
      invariant Published(env, txs, parent, done, values, outputs, |done|)
    {
      var indexes := waves[w];
      var ran;
      ghost var first := w;
      if |indexes| == 1 {
        w := w + 1;
        while w < |waves| && |waves[w]| == 1
          invariant first < w <= |waves| && IsFused(waves, first, w, indexes)
        {
          indexes := indexes + waves[w];
          w := w + 1;
        }
        FusedExtends(txs, waves, done, first, w, indexes);
        ExtendsAreIndexes(txs, done, indexes);
        ran := RunOverOverlay(env, txs, parent, values, indexes, done, outputs);
      } else {
        if pool <= 1 {
          return Err(Conflict);
        }
        WaveExtends(txs, waves, done, w);
        ran := RunChunks(env, txs, parent, values, indexes, workers, pool, w, done, outputs);
        w := w + 1;
      }
      if ran.Err? {
        return Err(ran.error);
      }
      values, outputs := PublishAll(env, txs, parent, values, outputs, indexes, ran.value, done);
      done := done + AsSet(indexes);
    }
    AllPublished(env, txs, parent, waves, done, values, outputs);
    return Ok(seq(|txs|, i requires 0 <= i < |txs| && |outputs| == |txs| && outputs[i].Some? => outputs[i].value));
  }

  lemma NothingPublished(env: Env, txs: Block, s: State)
    requires Sound(env, txs)
    ensures Published(env, txs, s, {}, map[], seq(|txs|, _ => None), 0)
  {
    hide Sound;
    ParentMatches(env, txs, s);
    SameState(Apply(s, map[]), s);
  }

  lemma WaveExtends(txs: Block, waves: seq<seq<nat>>, done: set<nat>, w: nat)
    requires IsPlan(txs, |txs|, waves) && w < |waves| && WavesDone(txs, done, w)
    ensures OfWave(txs, w, waves[w]) && Indexes(txs, waves[w]) && Extends(txs, done, waves[w])
    ensures WavesDone(txs, done + AsSet(waves[w]), w + 1)
  {
    hide Depth;
    hide Extends;
    assert IsWave(txs, |txs|, w, waves[w]);
    WavePartExtends(txs, done, done, w, waves[w]);
    ExtendsAreIndexes(txs, done, waves[w]);
  }

  lemma AllPublished(env: Env, txs: Block, s: State, waves: seq<seq<nat>>, done: set<nat>, values: Diff,
                     outputs: seq<Option<Output>>)
    requires IsPlan(txs, |txs|, waves) && WavesDone(txs, done, |waves|)
    requires Published(env, txs, s, done, values, outputs, |done|)
    ensures |outputs| == |txs|
    ensures forall i | 0 <= i < |txs| :: outputs[i].Some? && SerialOutput(env, txs, s, i) == Ok(outputs[i].value)
  {
    hide Depth;
    hide SerialOutput;
  }
}
