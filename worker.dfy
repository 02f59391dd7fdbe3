/**
 * The job worker: two independent work classes, scheduled batches ("batch") and webhook
 * batches ("hook"), each with a pending queue, an in-flight cache and its own limit.
 * Enqueue and tick are atomic steps; the methods are proved against the functions of
 * module Scheduling.
 */
module Worker {
  import opened Wrappers
  import opened Batches
  import opened Runners
  import opened Scheduling

  /** How a tick ended: normally, or with a rejection that aborted it. */
  datatype TickOutcome = Completed | ProbeRejected(kind: BatchType) | CleanUpRejected

  /**
   * `checkCache(cache)`: probe every in-flight batch (in unspecified key order) and delete
   * the ones reported stopped. A rejecting probe aborts the walk: `ok` is false and the
   * entries already walked stay deleted.
   */
  method CheckCache(cache: map<string, Batch>, checkJob: Batch -> Probe) returns (remaining: map<string, Batch>, ok: bool)
    requires Keyed(cache)
    ensures ok <==> NoProbeFailure(cache, checkJob)
    ensures SubMap(Reconcile(cache, checkJob), remaining) && SubMap(remaining, cache)
    ensures ok ==> remaining == Reconcile(cache, checkJob)
  {
    remaining := cache;
    var keys := cache.Keys;
    while keys != {}
      invariant keys <= cache.Keys
      invariant forall k :: k in cache && k !in keys ==> checkJob(cache[k]) != ProbeFailed
      invariant forall k :: k in remaining <==> k in cache && (k in keys || checkJob(cache[k]) != Stopped)
      invariant SubMap(remaining, cache)
      decreases keys
    {
      var key :| key in keys;
      var batch := remaining[key];
      var probe := checkJob(batch);
      if probe == ProbeFailed {
        return remaining, false;
      }
      if probe == Stopped {
        remaining := RemoveJob(remaining, batch);
      }
      keys := keys - {key};
    }
    ok := true;
  }

  /**
   * `handleCache(cache, queue, maxJobs)`: reconcile, count the slots, then run the admission
   * loop `for (i = 0; i <= maxJobs - slots; i++)`. A rejecting probe aborts before admission.
   */
  method HandleCache(lane: Lane, maxJobs: int, runner: Runner) returns (result: Lane, ok: bool)
    requires LaneValid(lane)
    ensures LaneValid(result)
    ensures ok <==> NoProbeFailure(lane.cache, runner.checkJob)
    ensures ok ==> result == HandleLane(lane, maxJobs, runner)
    ensures !ok ==> result.queue == lane.queue
    ensures !ok ==> SubMap(Reconcile(lane.cache, runner.checkJob), result.cache) && SubMap(result.cache, lane.cache)
  {
    var cache;
    cache, ok := CheckCache(lane.cache, runner.checkJob);
    ShrinkCacheValid(lane.queue, lane.cache, cache);
    if !ok {
      return Lane(lane.queue, cache), false;
    }
    result := AdmitPending(lane.queue, cache, maxJobs, runner.runJob);
  }

  /**
   * The admission loop of `handleCache`: `for (i = 0; i <= maxJobs - slots; i++)`, each
   * iteration taking the oldest pending batch, if any, and starting it.
   */
  method AdmitPending(queue: seq<Batch>, cache: map<string, Batch>, maxJobs: int, runJob: Batch -> bool) returns (result: Lane)
    requires LaneValid(Lane(queue, cache))
    ensures result == Admit(queue, cache, Attempts(maxJobs, |cache|), runJob)
    ensures LaneValid(result)
  {
    var slots := |cache|;
    ghost var total := Attempts(maxJobs, slots);
    var pending, running := queue, cache;
    var i := 0;
    while i <= maxJobs - slots
      invariant 0 <= i <= total
      invariant Admit(pending, running, total - i, runJob) == Admit(queue, cache, total, runJob)
      invariant LaneValid(Lane(pending, running))
    {
      AdmitOneStep(pending, running, total - i, runJob);
      var (next, rest) := GetNextJob(pending);
      if next.Some? {
        running := StartJob(running, next.value, runJob);
      }
      pending := rest;
      i := i + 1;
    }
    result := Lane(pending, running);
  }

  /** The values of an in-flight cache, in unspecified key order. */
  method CacheValues(cache: map<string, Batch>) returns (values: seq<Batch>)
    requires Keyed(cache)
    ensures |values| == |cache|
    ensures forall b :: b in values <==> b in cache.Values
    ensures UniqueIds(values)
  {
    values := [];
    var keys := cache.Keys;
    while keys != {}
      invariant keys <= cache.Keys
      invariant |values| + |keys| == |cache|
      invariant forall b :: b in values <==> b.id in cache.Keys - keys && cache[b.id] == b
      invariant UniqueIds(values)
      decreases keys
    {
      var key :| key in keys;
      forall j | 0 <= j < |values| ensures values[j].id != cache[key].id {
        assert values[j] in values;
      }
      values := values + [cache[key]];
      keys := keys - {key};
    }
  }

  class JobWorker {
    var batchQueue: seq<Batch>
    var batchCache: map<string, Batch>
    var hookQueue: seq<Batch>
    var hookCache: map<string, Batch>
    const maxBatchJobs: int
    const maxHookJobs: int

    function BatchLane(): Lane
      reads this
    {
      Lane(batchQueue, batchCache)
    }

    function HookLane(): Lane
      reads this
    {
      Lane(hookQueue, hookCache)
    }

    /** Both classes keep their invariant and stay within `maxJobs + 1` in-flight jobs. */
    ghost predicate Valid()
      reads this
    {
      && LaneValid(BatchLane()) && LaneValid(HookLane())
      && |batchCache| <= Ceiling(maxBatchJobs)
      && |hookCache| <= Ceiling(maxHookJobs)
    }

    /** `new JobWorker({runner, maxBatchJobs = 10, maxHookJobs = 10})`; the runner is passed to `Handle`. */
    constructor (maxBatchJobs: int := 10, maxHookJobs: int := 10)
      ensures Valid()
      ensures this.maxBatchJobs == maxBatchJobs && this.maxHookJobs == maxHookJobs
      ensures BatchLane() == Lane([], map[]) && HookLane() == Lane([], map[])
    {
      this.maxBatchJobs := maxBatchJobs;
      this.maxHookJobs := maxHookJobs;
      batchQueue, batchCache := [], map[];
      hookQueue, hookCache := [], map[];
    }

    /** `addBatchJob(batch)`: a no-op for an id already queued or in flight, else the batch is queued last. */
    method AddBatchJob(batch: Batch)
      requires Valid()
      modifies this
      ensures Valid()
      ensures BatchLane() == Enqueue(old(BatchLane()), batch)
      ensures HookLane() == old(HookLane())
    {
      EnqueueValid(BatchLane(), batch);
      if batch.id in QueueIds(batchQueue) || batch.id in batchCache {
        return;
      }
      batchQueue := batchQueue + [batch];
    }

    /** `addHookJob(batch)`: a no-op for an id already queued or in flight, else the batch is queued last. */
    method AddHookJob(batch: Batch)
      requires Valid()
      modifies this
      ensures Valid()
      ensures HookLane() == Enqueue(old(HookLane()), batch)
      ensures BatchLane() == old(BatchLane())
    {
      EnqueueValid(HookLane(), batch);
      if batch.id in QueueIds(hookQueue) || batch.id in hookCache {
        return;
      }
      hookQueue := hookQueue + [batch];
    }

    /** `getBatchJobs()`: the in-flight scheduled batches, each once. */
    method GetBatchJobs() returns (jobs: seq<Batch>)
      requires Valid()
      ensures |jobs| == |batchCache|
      ensures forall b :: b in jobs <==> b in batchCache.Values
      ensures UniqueIds(jobs)
    {
      jobs := CacheValues(batchCache);
    }

    /** `getHookJobs()`: the in-flight webhook batches, each once. */
    method GetHookJobs() returns (jobs: seq<Batch>)
      requires Valid()
      ensures |jobs| == |hookCache|
      ensures forall b :: b in jobs <==> b in hookCache.Values
      ensures UniqueIds(jobs)
    {
      jobs := CacheValues(hookCache);
    }

    /** `getBatchQueue()`: the pending scheduled batches in admission order; none is also in flight. */
    function GetBatchQueue(): (pending: seq<Batch>)
      reads this
      requires Valid()
      ensures pending == batchQueue
      ensures UniqueIds(pending)
      ensures forall i :: 0 <= i < |pending| ==> pending[i].id !in batchCache
    {
      batchQueue
    }

    /** `getHookQueue()`: the pending webhook batches in admission order; none is also in flight. */
    function GetHookQueue(): (pending: seq<Batch>)
      reads this
      requires Valid()
      ensures pending == hookQueue
      ensures UniqueIds(pending)
      ensures forall i :: 0 <= i < |pending| ==> pending[i].id !in hookCache
    {
      hookQueue
    }

    /**
     * `handle()`: one tick. The scheduled class is handled first, then the webhook class,
     * each with its own runner answers and limit; then `cleanUp` is called once.
     * A rejecting probe aborts the tick where it happens: later steps do not run.
     */
    method Handle(batchRunner: Runner, hookRunner: Runner, cleanUpResolves: bool) returns (outcome: TickOutcome, cleanedUp: bool)
      requires Valid()
      modifies this
      ensures Valid()
      ensures cleanedUp <==> outcome == Completed || outcome == CleanUpRejected
      ensures outcome == Completed <==>
        NoProbeFailure(old(batchCache), batchRunner.checkJob) && NoProbeFailure(old(hookCache), hookRunner.checkJob) && cleanUpResolves
      // the scheduled class
      ensures NoProbeFailure(old(batchCache), batchRunner.checkJob) ==>
        BatchLane() == HandleLane(old(BatchLane()), maxBatchJobs, batchRunner)
      ensures !NoProbeFailure(old(batchCache), batchRunner.checkJob) ==>
        && outcome == ProbeRejected(Cron)
        && batchQueue == old(batchQueue)
        && SubMap(Reconcile(old(batchCache), batchRunner.checkJob), batchCache) && SubMap(batchCache, old(batchCache))
        && HookLane() == old(HookLane())
      // the webhook class
      ensures NoProbeFailure(old(batchCache), batchRunner.checkJob) && NoProbeFailure(old(hookCache), hookRunner.checkJob) ==>
        HookLane() == HandleLane(old(HookLane()), maxHookJobs, hookRunner)
      ensures NoProbeFailure(old(batchCache), batchRunner.checkJob) && !NoProbeFailure(old(hookCache), hookRunner.checkJob) ==>
        && outcome == ProbeRejected(Hook)
        && hookQueue == old(hookQueue)
        && SubMap(Reconcile(old(hookCache), hookRunner.checkJob), hookCache) && SubMap(hookCache, old(hookCache))
    {
      HandleLaneBound(BatchLane(), maxBatchJobs, batchRunner);
      ShrinkCacheValid(batchQueue, batchCache, Reconcile(batchCache, batchRunner.checkJob));
      var batchLane, batchOk := HandleCache(BatchLane(), maxBatchJobs, batchRunner);
      if !batchOk {
        ShrinkCacheValid(batchQueue, batchCache, batchLane.cache);
      }
      batchQueue, batchCache := batchLane.queue, batchLane.cache;
      if !batchOk {
        return ProbeRejected(Cron), false;
      }

      HandleLaneBound(HookLane(), maxHookJobs, hookRunner);
      var hookLane, hookOk := HandleCache(HookLane(), maxHookJobs, hookRunner);
      if !hookOk {
        ShrinkCacheValid(hookQueue, hookCache, hookLane.cache);
      }
      hookQueue, hookCache := hookLane.queue, hookLane.cache;
      if !hookOk {
        return ProbeRejected(Hook), false;
      }

      cleanedUp := true;
      outcome := if cleanUpResolves then Completed else CleanUpRejected;
    }
  }
}
