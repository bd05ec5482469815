/** Block execution: every worker count and accelerator publishes what serial execution publishes. */
module Execution {

  import opened Wrappers
  import opened Ledger
  import opened Payments
  import opened Scheduler
  import opened Waves
  import opened Speculation
  import opened Jobs
  import opened ReadyDag
  import opened WaveRun
  import Fold

  const MAX_PAYMENT_WORKERS := 32

  datatype Acceleration = OnlyWaves | Folded | FoldedAndSealed

  /** State commitments are symbolic, hence injective. */
  datatype StateRoot = StateRoot(state: State)

  type Answer = Result<(seq<Output>, StateRoot), ExecutionError>

  function Diffs(outputs: seq<Output>): seq<Diff> {
    seq(|outputs|, i requires 0 <= i < |outputs| => outputs[i].diff)
  }

  function ApplyAll(s: State, diffs: seq<Diff>): State {
    if diffs == [] then s else Apply(ApplyAll(s, diffs[..|diffs| - 1]), diffs[|diffs| - 1])
  }

  /** An authenticated store that publishes whole blocks; `admits` is its ordered bound check. */
  class Database {
    const admits: (State, seq<Diff>) -> bool
    var state: State

    constructor (state: State, admits: (State, seq<Diff>) -> bool)
      ensures this.state == state && this.admits == admits
    {
      this.state, this.admits := state, admits;
    }

    method Commit(parent: StateRoot, diffs: seq<Diff>) returns (r: Result<StateRoot, ExecutionError>)
      modifies this
      ensures r.Ok? <==> old(StateRoot(state)) == parent && admits(old(state), diffs)
      ensures r.Ok? ==> state == ApplyAll(old(state), diffs) && r.value == StateRoot(state)
      ensures r.Err? ==>
                && state == old(state)
                && r.error == if old(StateRoot(state)) != parent then StaleSnapshot else CommitRefused
    {
      if StateRoot(state) != parent {
        return Err(StaleSnapshot);
      }
      if !admits(state, diffs) {
        return Err(CommitRefused);
      }
      state := ApplyAll(state, diffs);
      return Ok(StateRoot(state));
    }
  }

  /** Outputs of the transactions from `i` on, in one session that has used `used`. */
  function SerialFrom(env: Env, txs: Block, view: State, used: Resources, i: nat): Result<seq<Output>, ExecutionError>
    requires i <= |txs|
    decreases |txs| - i
  {
    if i == |txs| then Ok([])
    else
      var step :- SessionStep(env, view, used, txs[i]);
      var rest :- SerialFrom(env, txs, Apply(view, step.0.diff), step.1, i + 1);
      Ok([step.0] + rest)
  }

  /** The reference: what serial execution returns, and the state it leaves behind. */
  ghost function Reference(env: Env, txs: Block, parent: StateRoot, s: State,
                           admits: (State, seq<Diff>) -> bool): (Answer, State)
  {
    if StateRoot(s) != parent then (Err(StaleSnapshot), s)
    else
      match SerialFrom(env, txs, s, ZERO, 0)
      case Err(e) => (Err(e), s)
      case Ok(outputs) =>
        if admits(s, Diffs(outputs)) then
          var next := ApplyAll(s, Diffs(outputs));
          (Ok((outputs, StateRoot(next))), next)
        else (Err(CommitRefused), s)
  }

  method ExecuteSerial(db: Database, env: Env, txs: Block, parent: StateRoot) returns (r: Answer)
    modifies db
    ensures (r, db.state) == Reference(env, txs, parent, old(db.state), db.admits)
  {
    hide SessionStep;
    hide ApplyAll;
    if StateRoot(db.state) != parent {
      return Err(StaleSnapshot);
    }
    var outputs := RunSession(env, txs, db.state);
    if outputs.Err? {
      return Err(outputs.error);
    }
    var root := db.Commit(parent, Diffs(outputs.value));
    return if root.Ok? then Ok((outputs.value, root.value)) else Err(root.error);
  }

  method RunSession(env: Env, txs: Block, state: State) returns (r: Result<seq<Output>, ExecutionError>)
    ensures r == SerialFrom(env, txs, state, ZERO, 0)
  {
    hide SessionStep;
    var session := new SignedSession(env, state);
    var outputs: seq<Output> := [];
    ghost var whole := SerialFrom(env, txs, state, ZERO, 0);
    assert whole.Ok? ==> outputs + whole.value == whole.value;
    for i := 0 to |txs|
      invariant session.env == env && fresh(session)
      invariant var rest := SerialFrom(env, txs, session.View(), session.used, i);
                SerialFrom(env, txs, state, ZERO, 0) == if rest.Ok? then Ok(outputs + rest.value) else rest
    {
      var output := session.Execute(txs[i]);
      if output.Err? {
        return Err(output.error);
      }
      ghost var rest := SerialFrom(env, txs, session.View(), session.used, i + 1);
      assert rest.Ok? ==> outputs + ([output.value] + rest.value) == (outputs + [output.value]) + rest.value;
      outputs := outputs + [output.value];
    }
    assert outputs + [] == outputs;
    return Ok(outputs);
  }

  /** Checks that every declaration covers what its transaction can reach. */
  method ValidateDeclarations(txs: Block) returns (r: Result<(), ExecutionError>)
    ensures r.Ok? <==> forall i | 0 <= i < |txs| :: Covered(txs[i])
    ensures r.Err? ==> r.error != NativeUnavailable
  {
    for i := 0 to |txs|
      invariant forall j | 0 <= j < i :: Covered(txs[j])
    {
      var keys := RequiredKeys(txs[i]);
      if keys.Err? {
        return Err(keys.error);
      }
      if exists k | k in keys.value :: k !in txs[i].accessList {
        return Err(UndeclaredStateAccess);
      }
    }
    return Ok(());
  }

  /** Which of its worker pools the host manages to start; each executor asks for its own. */
  datatype Pools = Pools(graph: bool, waves: bool, fold: bool)

  /** The readiness graph, or the wave executor when the plan is one wave or wholly serial. */
  method Speculate(env: Env, txs: Block, s: State, workers: nat, pools: Pools)
    returns (r: Result<seq<Output>, ExecutionError>)
    requires EngineConfined(env) && 2 <= workers
    ensures r.Ok? ==> IsSerialResult(env, txs, s, r.value)
    ensures r.Err? ==> OnlyIfNative(env, txs, s, r.error)
    ensures SerialSucceeds(env, txs, s) && pools.graph && pools.waves && (forall i | 0 <= i < |txs| :: Covered(txs[i]))
            ==> r.Ok?
  {
    hide EngineConfined;
    hide Covered;
    hide SerialSucceeds;
    hide IsSerialResult;
    hide IsWave;
    var plan := Plan(txs);
    var longest := LongestWave(plan);
    var declared := ValidateDeclarations(txs);
    if declared.Err? {
      return Err(declared.error);
    }
    if |plan| < 2 || longest <= 1 {
      r := RunWaves(env, txs, s, workers, pools.waves);
      return;
    }
    if !pools.graph {
      return Err(ResourceLimit);
    }
    r := RunDag(env, txs, s, Min(workers, longest));
  }

  /**
   * Whatever the number of workers and the accelerator: out-of-range counts are refused; otherwise
   * the answer and the published state are those of serial execution, or a transaction
   * of the block met a local native failure and nothing was published.
   */
  method ExecuteParallel(db: Database, env: Env, txs: Block, parent: StateRoot, workers: nat,
                         acceleration: Acceleration, pools: Pools)
    returns (r: Answer)
    requires EngineConfined(env)
    modifies db
    ensures workers == 0 || workers > 32 ==> r == Err(ResourceLimit) && db.state == old(db.state)
    ensures 0 < workers <= 32 ==>
              || (r, db.state) == Reference(env, txs, parent, old(db.state), db.admits)
              || (r == Err(NativeUnavailable) && db.state == old(db.state)
                  && OnlyIfNative(env, txs, old(db.state), NativeUnavailable))
  {
    hide EngineConfined;
    hide Reference;
    hide IsSerialResult;
    hide OnlyIfNative;
    hide SerialSucceeds;
    if workers == 0 || workers > MAX_PAYMENT_WORKERS {
      return Err(ResourceLimit);
    }
    if workers == 1 || |txs| < 2 {
      r := ExecuteSerial(db, env, txs, parent);
      return;
    }
    if StateRoot(db.state) != parent {
      StaleReference(env, txs, parent, db.state, db.admits);
      return Err(StaleSnapshot);
    }
    var outputs;
    if acceleration == OnlyWaves {
      outputs := Speculate(env, txs, db.state, workers, pools);
    } else {
      var folded := Fold.Speculate(env, txs, db.state, pools.fold);
      if folded.Some? {
        NeverNative(env, txs, db.state, folded.value);
        outputs := folded.value;
      } else {
        outputs := Speculate(env, txs, db.state, workers, pools);
      }
    }
    if outputs == Err(NativeUnavailable) {
      return Err(NativeUnavailable);
    }
    if outputs.Err? {
      r := ExecuteSerial(db, env, txs, parent);
      return;
    }
    var fits := WithinCapacity(env, outputs.value);
    CapacityDecides(env, txs, db.state, parent, db.admits, outputs.value, fits);
    if !fits {
      return Err(ResourceLimit);
    }
    var root := db.Commit(parent, Diffs(outputs.value));
    return if root.Ok? then Ok((outputs.value, root.value)) else Err(root.error);
  }

  lemma StaleReference(env: Env, txs: Block, parent: StateRoot, s: State, admits: (State, seq<Diff>) -> bool)
    requires StateRoot(s) != parent
    ensures Reference(env, txs, parent, s, admits) == (Err(StaleSnapshot), s)
  {
  }

  lemma NeverNative(env: Env, txs: Block, s: State, r: Result<seq<Output>, ExecutionError>)
    requires r.Err? ==> r.error != NativeUnavailable
    ensures r.Err? ==> OnlyIfNative(env, txs, s, r.error)
  {
  }

  /** Cumulative usage of outputs from `i` on, starting from `used`, never exceeds the capacity. */
  ghost predicate FitsFrom(env: Env, outputs: seq<Output>, used: Resources, i: nat)
    requires i <= |outputs|
    decreases |outputs| - i
  {
    i == |outputs|
    || (var total := used.CheckedAdd(outputs[i].resources);
        total.Some? && total.value.FitsIn(env.capacity) && FitsFrom(env, outputs, total.value, i + 1))
  }

  method WithinCapacity(env: Env, outputs: seq<Output>) returns (fits: bool)
    ensures fits == FitsFrom(env, outputs, ZERO, 0)
  {
    var used := ZERO;
    for i := 0 to |outputs|
      invariant FitsFrom(env, outputs, ZERO, 0) == FitsFrom(env, outputs, used, i)
    {
      var total := used.CheckedAdd(outputs[i].resources);
      if total.None? || !total.value.FitsIn(env.capacity) {
        return false;
      }
      used := total.value;
    }
    return true;
  }

  /** Given serial outputs, the capped session returns them or stops at the capacity. */
  lemma {:induction false} CappedSerial(env: Env, txs: Block, s: State, outputs: seq<Output>, used: Resources, i: nat)
    requires IsSerialResult(env, txs, s, outputs) && i <= |txs|
    ensures SerialFrom(env, txs, SerialState(env, txs, s, i), used, i)
         == if FitsFrom(env, outputs, used, i) then Ok(outputs[i..]) else Err(ResourceLimit)
    decreases |txs| - i
  {
    hide Exec;
    hide SerialState;
    hide Resources.CheckedAdd;
    if i < |txs| {
      SerialStep(env, txs, s, i);
      assert SerialOutput(env, txs, s, i) == Ok(outputs[i]);
      var total := used.CheckedAdd(outputs[i].resources);
      if total.Some? && total.value.FitsIn(env.capacity) {
        CappedSerial(env, txs, s, outputs, total.value, i + 1);
        assert [outputs[i]] + outputs[i + 1..] == outputs[i..];
      }
    } else {
      assert outputs[i..] == [];
    }
  }

  lemma CapacityDecides(env: Env, txs: Block, s: State, parent: StateRoot, admits: (State, seq<Diff>) -> bool,
                        outputs: seq<Output>, fits: bool)
    requires IsSerialResult(env, txs, s, outputs) && fits == FitsFrom(env, outputs, ZERO, 0) && StateRoot(s) == parent
    ensures !fits ==> Reference(env, txs, parent, s, admits) == (Err(ResourceLimit), s)
    ensures fits && !admits(s, Diffs(outputs)) ==> Reference(env, txs, parent, s, admits) == (Err(CommitRefused), s)
    ensures fits && admits(s, Diffs(outputs)) ==>
              var next := ApplyAll(s, Diffs(outputs));
              Reference(env, txs, parent, s, admits) == (Ok((outputs, StateRoot(next))), next)
  {
    hide SerialFrom;
    hide FitsFrom;
    hide ApplyAll;
    StartsAtParent(env, txs, s);
    CappedSerial(env, txs, s, outputs, ZERO, 0);
    assert outputs[0..] == outputs;
  }

  /** A successful serial run publishes the serial end state and charges within the capacity. */
  lemma {:induction false} PublishedIsSerialEnd(env: Env, txs: Block, s: State, outputs: seq<Output>, i: nat)
    requires IsSerialResult(env, txs, s, outputs) && i <= |txs|
    ensures ApplyAll(s, Diffs(outputs)[..i]) == SerialState(env, txs, s, i)
  {
    hide Exec;
    hide SerialState;
    if i == 0 {
      StartsAtParent(env, txs, s);
    } else {
      PublishedIsSerialEnd(env, txs, s, outputs, i - 1);
      SerialStep(env, txs, s, i - 1);
      assert Diffs(outputs)[..i][..i - 1] == Diffs(outputs)[..i - 1];
      assert SerialOutput(env, txs, s, i - 1) == Ok(outputs[i - 1]);
    }
  }

  lemma {:induction false} SuffixSucceeds(env: Env, txs: Block, s: State, used: Resources, i: nat)
    requires i <= |txs| && AsSum(used) == SerialUsage(env, txs, s, i) && used.FitsIn(env.capacity)
    ensures SerialFrom(env, txs, SerialState(env, txs, s, i), used, i).Ok? <==>
            (forall j | i <= j < |txs| :: SerialOutput(env, txs, s, j).Ok?)
            && SerialUsage(env, txs, s, |txs|).Within(env.capacity)
    decreases |txs| - i
  {
    hide Exec;
    hide SerialState;
    if i < |txs| {
      var (view, next) := (SerialState(env, txs, s, i), SerialOutput(env, txs, s, i));
      var step := SessionStep(env, view, used, txs[i]);
      StepMeaning(env, view, used, txs[i], if step.Ok? then Ok(step.value.0) else Err(step.error));
      SerialStep(env, txs, s, i);
      if next.Ok? {
        UsageGrows(env, txs, s, i + 1, |txs|);
        if step.Ok? {
          SuffixSucceeds(env, txs, s, step.value.1, i + 1);
        }
      }
    }
  }

  /** The reference succeeds exactly when every transaction succeeds in block order and the total fits. */
  lemma SerialSucceedsIsReference(env: Env, txs: Block, s: State)
    ensures SerialFrom(env, txs, s, ZERO, 0).Ok? <==> SerialSucceeds(env, txs, s)
  {
    hide SerialFrom;
    hide SerialOutput;
    StartsAtParent(env, txs, s);
    SuffixSucceeds(env, txs, s, ZERO, 0);
  }
}
