/** Durable signing journal: a decision is on disk, together with its lock, before any signature leaves. */
module Signer {

  import opened Wrappers
  import opened Weights
  import opened Committee

  const PROPOSAL_PHASE: nat := 0
  const PREVOTE_PHASE: nat := 1
  const PRECOMMIT_PHASE: nat := 2

  datatype KeystoreError =
    | InvalidSafety | ContextMismatch | InvalidPosition | StalePosition | DurabilityUnknown | ConflictingSign

  datatype Position = Position(height: nat, round: nat, phase: nat)

  predicate Before(a: Position, b: Position) {
    || a.height < b.height
    || (a.height == b.height && a.round < b.round)
    || (a.height == b.height && a.round == b.round && a.phase < b.phase)
  }

  datatype Lock = Lock(round: nat, block: Hash)

  datatype Safety = Safety(root: CommitteeRoot, locked: Option<Lock>)

  /** One reserved decision; digest and safety state are never stored apart. */
  datatype Record = Record(position: Position, digest: Digest, safety: Safety)

  /** What a journal was created for: whether it stores locks, and the chain it belongs to. */
  datatype Origin = Origin(storesLocks: bool, chainId: nat, genesis: Hash)

  /** `memory` is this instance's last acknowledged record, `disk` what a reopened journal finds. */
  datatype Journal = Journal(origin: Origin, memory: Option<Record>, disk: Option<Record>, poisoned: bool)

  /** How the host's write of one record ends. */
  datatype WriteOutcome = Written | Lost | Unacknowledged

  /** Lock rounds stay within the position's round and neither regress nor clear inside a height. */
  predicate SafetyAllowed(position: Position, next: Safety, previous: Option<Record>) {
    && (next.locked.Some? ==> next.locked.value.round <= position.round)
    && (previous.Some? && previous.value.position.height == position.height ==>
          && previous.value.safety.root == next.root
          && (previous.value.safety.locked.Some? ==>
                && next.locked.Some?
                && (|| previous.value.safety.locked.value.round < next.locked.value.round
                    || previous.value.safety.locked == next.locked)))
  }

  /** The journal after a reservation attempt, and the error if no signature may be released. */
  function Reserve(j: Journal, record: Record, outcome: WriteOutcome): (r: (Journal, Option<KeystoreError>))
  {
    if j.poisoned then (j, Some(DurabilityUnknown))
    else if record.position.phase > PRECOMMIT_PHASE then (j, Some(InvalidPosition))
    else if !j.origin.storesLocks then (j, Some(InvalidSafety))
    else if j.memory.Some? && Before(record.position, j.memory.value.position) then (j, Some(StalePosition))
    else if j.memory.Some? && record.position == j.memory.value.position then
      (j, if record == j.memory.value then None else Some(ConflictingSign))
    else if !SafetyAllowed(record.position, record.safety, j.memory) then (j, Some(InvalidSafety))
    else
      match outcome
      case Written => (Journal(j.origin, Some(record), Some(record), false), None)
      case Lost => (j.(poisoned := true), Some(DurabilityUnknown))
      case Unacknowledged => (j.(disk := Some(record), poisoned := true), Some(DurabilityUnknown))
  }

  /** A restart sees the disk and nothing else. */
  function Reopened(j: Journal): Journal {
    Journal(j.origin, j.disk, j.disk, false)
  }

  /** A released signature covers exactly the record the disk holds. */
  lemma ReleasedMeansDurable(j: Journal, record: Record, outcome: WriteOutcome)
    requires !j.poisoned ==> j.memory == j.disk
    ensures var (next, error) := Reserve(j, record, outcome);
            && (error.None? ==> next.disk == Some(record) && next.memory == Some(record) && !next.poisoned)
            && (!next.poisoned ==> next.memory == next.disk)
  {
  }

  /** The lock a record carries may follow the one before it at the same height. */
  ghost predicate LockFollows(position: Position, next: Safety, last: Option<Record>) {
    && (next.locked.Some? ==> next.locked.value.round <= position.round)
    && (last.Some? && last.value.position.height == position.height ==>
          && last.value.safety.root == next.root
          && (last.value.safety.locked.Some? ==>
                next.locked.Some? && (|| last.value.safety.locked.value.round < next.locked.value.round
                                      || last.value.safety.locked.value == next.locked.value)))
  }

  /**
   * A signature is released exactly for the last record again, or for a later position whose lock follows and whose
   * write is known to have succeeded. Only then does memory move; what an uncertain write leaves on disk is
   * unknown, and the journal signs nothing more.
   */
  lemma ReserveIsExact(j: Journal, record: Record, outcome: WriteOutcome)
    ensures var (next, error) := Reserve(j, record, outcome);
            var usable := !j.poisoned && j.origin.storesLocks && record.position.phase <= 2;
            var repeated := j.memory == Some(record);
            var later := (j.memory.None? || Before(j.memory.value.position, record.position))
                         && LockFollows(record.position, record.safety, j.memory);
            && (error.None? <==> usable && (repeated || (later && outcome == Written)))
            && (!usable || repeated || !later ==> next == j)
            && (usable && !repeated && later ==>
                  match outcome
                  case Written => next == Journal(j.origin, Some(record), Some(record), false)
                  case Lost => next == Journal(j.origin, j.memory, j.disk, true)
                  case Unacknowledged => next == Journal(j.origin, j.memory, Some(record), true))
  {
  }

  /** Why nothing is signed, first reason first. */
  lemma ReserveErrors(j: Journal, record: Record, outcome: WriteOutcome)
    requires Reserve(j, record, outcome).1.Some?
    ensures Reserve(j, record, outcome).1.value ==
            if j.poisoned then DurabilityUnknown
            else if record.position.phase > 2 then InvalidPosition
            else if !j.origin.storesLocks then InvalidSafety
            else if j.memory.Some? && Before(record.position, j.memory.value.position) then StalePosition
            else if j.memory.Some? && record.position == j.memory.value.position then ConflictingSign
            else if !LockFollows(record.position, record.safety, j.memory) then InvalidSafety
            else DurabilityUnknown
  {
  }

  /** Non-exporting signer; the symbolic signature stands for the key's output. */
  class DurableSigner {
    const validator: ValidatorId
    const origin: Origin
    var memory: Option<Record>
    var disk: Option<Record>
    var poisoned: bool

    /** The signer after a restart: memory is what the disk holds. */
    constructor (validator: ValidatorId, origin: Origin, disk: Option<Record>)
      ensures this.validator == validator && State() == Journal(origin, disk, disk, false)
    {
      this.validator, this.origin := validator, origin;
      this.memory, this.disk, this.poisoned := disk, disk, false;
    }

    function State(): Journal
      reads this
    {
      Journal(origin, memory, disk, poisoned)
    }

    /** A signature comes out only if the record holding its position, digest and lock is known to be on disk. */
    method SignProtected(position: Position, digest: Digest, safety: Safety, outcome: WriteOutcome)
      returns (r: Result<Signature, KeystoreError>)
      modifies this
      ensures State() == Reserve(old(State()), Record(position, digest, safety), outcome).0
      ensures r == match Reserve(old(State()), Record(position, digest, safety), outcome).1
                   case None => Ok(Signature(validator, digest, 0))
                   case Some(error) => Err(error)
    {
      var record := Record(position, digest, safety);
      if poisoned {
        return Err(DurabilityUnknown);
      }
      if position.phase > PRECOMMIT_PHASE {
        return Err(InvalidPosition);
      }
      if !origin.storesLocks {
        return Err(InvalidSafety);
      }
      if memory.Some? {
        if Before(position, memory.value.position) {
          return Err(StalePosition);
        }
        if position == memory.value.position {
          if record != memory.value {
            return Err(ConflictingSign);
          }
          return Ok(Signature(validator, digest, 0));
        }
      }
      if !SafetyAllowed(position, safety, memory) {
        return Err(InvalidSafety);
      }
      // Stays set unless the write below is known to have succeeded.
      poisoned := true;
      match outcome {
        case Lost =>
          return Err(DurabilityUnknown);
        case Unacknowledged =>
          disk := Some(record);
          return Err(DurabilityUnknown);
        case Written =>
          disk := Some(record);
          memory := Some(record);
          poisoned := false;
      }
      return Ok(Signature(validator, digest, 0));
    }
  }
}
