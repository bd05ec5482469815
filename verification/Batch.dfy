/** Chunked strict verification that reports the lowest failing request for every worker count. */
module Batch {

  import opened Wrappers
  import opened Committee

  const MAX_VERIFY_WORKERS := 32
  const MIN_PARALLEL_REQUESTS := 8

  /** `r` is the position of the first request that fails, or None when all pass. */
  ghost predicate IsFirstFailure(requests: seq<Request>, r: Option<nat>) {
    match r
    case None => forall i | 0 <= i < |requests| :: requests[i].Verify()
    case Some(at) =>
      && at < |requests| && !requests[at].Verify()
      && forall i | 0 <= i < at :: requests[i].Verify()
  }

  lemma FirstFailureIsUnique(requests: seq<Request>, a: Option<nat>, b: Option<nat>)
    requires IsFirstFailure(requests, a) && IsFirstFailure(requests, b)
    ensures a == b
  {
    if a.Some? && b.Some? {
      assert !(a.value < b.value) && !(b.value < a.value);
    }
  }

  lemma NothingFails(requests: seq<Request>)
    requires requests == []
    ensures IsFirstFailure(requests, None)
  {
  }

  /** First request of one chunk that fails, as an index into the whole list (`base` is the chunk's start). */
  method ChunkFailure(part: seq<Request>, base: nat) returns (r: Option<nat>)
    ensures r.Some? ==> base <= r.value
    ensures IsFirstFailure(part, if r.None? then None else Some(r.value - base))
  {
    for i := 0 to |part|
      invariant forall j | 0 <= j < i :: part[j].Verify()
    {
      if !part[i].Verify() {
        return Some(base + i);
      }
    }
    return None;
  }

  function Lower(left: Option<nat>, right: Option<nat>): (r: Option<nat>)
    ensures r == left || r == right
    ensures r.None? <==> left.None? && right.None?
    ensures r.Some? && left.Some? ==> r.value <= left.value
    ensures r.Some? && right.Some? ==> r.value <= right.value
  {
    if left.Some? && right.Some? then (if left.value <= right.value then left else right)
    else if left.Some? then left
    else right
  }

  /** Chunk bounds, or None when the host cannot start the thread of some later chunk. */
  method Chunks(n: nat, chunk: nat, spawns: nat -> bool) returns (r: Option<seq<(nat, nat)>>)
    requires 0 < chunk
    ensures r.Some? ==> Tiles(r.value, n)
  {
    var handles: seq<(nat, nat)> := [];
    var base := 0;
    while base < n
      invariant 0 <= base <= n
      invariant Tiles(handles, base)
      decreases n - base
    {
      var end := Min(base + chunk, n);
      // The first chunk stays on the calling thread; every other one needs a thread.
      if base != 0 && !spawns(|handles|) {
        return None;
      }
      assert forall i | 0 <= i <= |handles| :: EndBefore(handles + [(base, end)], i) == EndBefore(handles, i);
      handles := handles + [(base, end)];
      base := end;
    }
    return Some(handles);
  }

  /**
   * Splits the requests over at most `workers` chunks and joins by lowest index.
   * `spawns(i)` says whether the host could start the thread of chunk `i`.
   */
  method FirstFailure(requests: seq<Request>, workers: nat, spawns: nat -> bool) returns (r: Option<nat>)
    ensures IsFirstFailure(requests, r)
  {
    hide IsFirstFailure;
    var n := |requests|;
    var bounded := Min(Min(workers, MAX_VERIFY_WORKERS), n);
    if bounded < 2 || n < MIN_PARALLEL_REQUESTS {
      r := ChunkFailure(requests, 0);
      return;
    }
    var chunk := (n + bounded - 1) / bounded;
    assert 0 < chunk by { DivCeilPositive(n, bounded); }
    var handles := Chunks(n, chunk, spawns);
    if handles.None? {
      r := ChunkFailure(requests, 0);
      return;
    }
    r := Join(requests, handles.value);
  }

  /** Runs the chunks and keeps the lowest failing index. */
  method Join(requests: seq<Request>, handles: seq<(nat, nat)>) returns (r: Option<nat>)
    requires Tiles(handles, |requests|)
    ensures IsFirstFailure(requests, r)
  {
    hide IsFirstFailure;
    r := None;
    NothingFails([]);
    assert requests[..0] == [];
    for i := 0 to |handles|
      invariant EndBefore(handles, i) <= |requests| && IsFirstFailure(requests[..EndBefore(handles, i)], r)
    {
      var (from, to) := handles[i];
      var next := ChunkFailure(requests[from..to], from);
      JoinKeepsLowest(requests, from, to, r, next);
      r := Lower(r, next);
    }
    assert requests[..|requests|] == requests;
  }

  lemma DivCeilPositive(n: nat, d: nat)
    requires 0 < d <= n
    ensures 0 < (n + d - 1) / d
  {
  }

  /** Where the chunk before position `i` ends. */
  ghost function EndBefore(handles: seq<(nat, nat)>, i: nat): nat
    requires i <= |handles|
  {
    if i == 0 then 0 else handles[i - 1].1
  }

  /** The chunks follow one another from zero to `upTo`. */
  ghost predicate Tiles(handles: seq<(nat, nat)>, upTo: nat) {
    && upTo == EndBefore(handles, |handles|)
    && (forall i | 0 <= i < |handles| :: handles[i].0 <= handles[i].1 <= upTo)
    && (forall i | 0 <= i < |handles| :: handles[i].0 == EndBefore(handles, i))
  }

  /** Joining the next chunk by lowest index keeps the first failure of the longer prefix. */
  lemma JoinKeepsLowest(requests: seq<Request>, from: nat, to: nat, failure: Option<nat>, next: Option<nat>)
    requires from <= to <= |requests|
    requires IsFirstFailure(requests[..from], failure)
    requires next.Some? ==> from <= next.value
    requires IsFirstFailure(requests[from..to], if next.None? then None else Some(next.value - from))
    ensures IsFirstFailure(requests[..to], Lower(failure, next))
  {
    assert forall j | from <= j < to :: requests[j] == requests[from..to][j - from];
    assert forall j | 0 <= j < from :: requests[..from][j] == requests[j];
  }
}
