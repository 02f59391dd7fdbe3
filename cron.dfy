/**
 * The scheduled producer: fetch the repository list, cut it into consecutive slices of
 * `batch_size`, and enqueue one scheduled batch per slice.
 */
module Cron {
  import opened Wrappers
  import opened Batches
  import opened Scheduling
  import opened Worker

  /** `repositories.slice(i, i + size)` for `i = 0, size, 2 * size, ...` while `i < |repositories|`. */
  function Slices(repositories: seq<Repository>, size: nat): seq<seq<Repository>>
    requires size > 0
    decreases |repositories|
  {
    if |repositories| == 0 then []
    else if |repositories| <= size then [repositories]
    else [repositories[..size]] + Slices(repositories[size..], size)
  }

  /** One scheduled batch per slice, identified by the hash of its repository ids. */
  function CronBatches(sha1: Hasher, repositories: seq<Repository>, size: nat): seq<Batch>
    requires size > 0
  {
    var slices := Slices(repositories, size);
    seq(|slices|, k requires 0 <= k < |slices| => Batch(CreateBatchId(sha1, slices[k]), slices[k], Cron))
  }

  function Concat(slices: seq<seq<Repository>>): seq<Repository>
  {
    if |slices| == 0 then [] else slices[0] + Concat(slices[1..])
  }

  /** The number of batches is `ceil(n / size)`: `k` slices with `(k - 1) * size < n <= k * size`. */
  lemma {:induction false} SlicesCountBounds(repositories: seq<Repository>, size: nat)
    requires size > 0
    ensures var k := |Slices(repositories, size)|;
      (k - 1) * size < |repositories| <= k * size
    decreases |repositories|
  {
    var n := |repositories|;
    if n > size {
      SlicesCountBounds(repositories[size..], size);
      var k := |Slices(repositories[size..], size)|;
      assert (k + 1) * size == k * size + size;
      assert k * size == (k - 1) * size + size;
    }
  }

  /** The same count written with integer division. */
  lemma SlicesCount(repositories: seq<Repository>, size: nat)
    requires size > 0
    ensures |Slices(repositories, size)| == (|repositories| + size - 1) / size
  {
    SlicesCountBounds(repositories, size);
    CeilDiv(|repositories|, size, |Slices(repositories, size)|);
  }

  /** `k` is `ceil(n / size)` when `(k - 1) * size < n <= k * size`. */
  lemma CeilDiv(n: int, size: nat, k: int)
    requires size > 0
    requires (k - 1) * size < n <= k * size
    ensures (n + size - 1) / size == k
  {
    assert k * size == (k - 1) * size + size;
    DivUnique(n + size - 1, size, k, n + size - 1 - k * size);
  }

  lemma DivUnique(x: int, size: nat, q: int, r: int)
    requires size > 0 && x == q * size + r && 0 <= r < size
    ensures x / size == q
  {
    var q', r' := x / size, x % size;
    assert x == q' * size + r' && 0 <= r' < size;
    if q' < q {
      assert (q' + 1) * size == q' * size + size;
      MulMonotone(q' + 1, q, size);
    } else if q' > q {
      assert (q + 1) * size == q * size + size;
      MulMonotone(q + 1, q', size);
    }
  }

  lemma MulMonotone(a: int, b: int, size: nat)
    requires a <= b
    ensures a * size <= b * size
  {
    assert b * size == a * size + (b - a) * size;
  }

  /** Concatenating the slices gives back the fetched list, in order. */
  lemma {:induction false} SlicesConcat(repositories: seq<Repository>, size: nat)
    requires size > 0
    ensures Concat(Slices(repositories, size)) == repositories
    decreases |repositories|
  {
    var n := |repositories|;
    if n == 0 {
    } else if n <= size {
      assert Concat([repositories]) == repositories + Concat([]);
    } else {
      SlicesConcat(repositories[size..], size);
      var s := Slices(repositories, size);
      assert s[1..] == Slices(repositories[size..], size);
      assert repositories[..size] + repositories[size..] == repositories;
    }
  }

  /** Every slice but the last holds exactly `size` repositories; the last holds 1 to `size`. */
  lemma {:induction false} SlicesSizes(repositories: seq<Repository>, size: nat)
    requires size > 0
    ensures var s := Slices(repositories, size);
      && (forall k :: 0 <= k < |s| - 1 ==> |s[k]| == size)
      && (|s| > 0 ==> 1 <= |s[|s| - 1]| <= size)
    decreases |repositories|
  {
    if |repositories| > size {
      SlicesSizes(repositories[size..], size);
      var s := Slices(repositories, size);
      assert s[1..] == Slices(repositories[size..], size);
      forall k | 0 <= k < |s| - 1 ensures |s[k]| == size {
        if k > 0 {
          assert s[k] == s[1..][k - 1];
        }
      }
    }
  }

  /** Slice `k` starts at position `k * size` of the fetched list. */
  lemma {:induction false} SliceStart(repositories: seq<Repository>, size: nat, k: nat)
    requires size > 0
    requires k < |Slices(repositories, size)|
    ensures k * size < |repositories|
    ensures |Slices(repositories, size)[k]| >= 1
    ensures Slices(repositories, size)[k][0] == repositories[k * size]
    decreases |repositories|
  {
    if k > 0 {
      var s := Slices(repositories, size);
      assert |repositories| > size;
      assert s[k] == Slices(repositories[size..], size)[k - 1];
      SliceStart(repositories[size..], size, k - 1);
      assert (k - 1) * size + size == k * size;
    }
  }

  /** With pairwise distinct, comma-free repository ids, different batches hash different inputs. */
  lemma CronHashInputsDistinct(repositories: seq<Repository>, size: nat, k: nat, l: nat)
    requires size > 0
    requires CommaFreeIds(repositories)
    requires forall i, j :: 0 <= i < j < |repositories| ==> repositories[i].id != repositories[j].id
    requires k < l < |Slices(repositories, size)|
    ensures HashInput(Slices(repositories, size)[k]) != HashInput(Slices(repositories, size)[l])
  {
    var s := Slices(repositories, size);
    SliceStart(repositories, size, k);
    SliceStart(repositories, size, l);
    MulMonotone(k + 1, l, size);
    assert (k + 1) * size == k * size + size;
    assert repositories[k * size].id != repositories[l * size].id;
    assert Ids(s[k])[0] != Ids(s[l])[0];
    SliceCommaFree(repositories, size, k);
    SliceCommaFree(repositories, size, l);
    HashInputInjective(s[k], s[l]);
  }

  lemma {:induction false} SliceCommaFree(repositories: seq<Repository>, size: nat, k: nat)
    requires size > 0
    requires CommaFreeIds(repositories)
    requires k < |Slices(repositories, size)|
    ensures CommaFreeIds(Slices(repositories, size)[k])
    decreases |repositories|
  {
    var s := Slices(repositories, size);
    if |repositories| > size {
      if k == 0 {
        assert s[0] == repositories[..size];
      } else {
        assert s[k] == Slices(repositories[size..], size)[k - 1];
        SliceCommaFree(repositories[size..], size, k - 1);
      }
    }
  }

  /** 25 repositories in slices of 10 give three batches of 10, 10 and 5. */
  lemma TwentyFiveInTens(repositories: seq<Repository>)
    requires |repositories| == 25
    ensures var s := Slices(repositories, 10);
      |s| == 3 && |s[0]| == 10 && |s[1]| == 10 && |s[2]| == 5
  {
    SlicesCount(repositories, 10);
    SlicesSizes(repositories, 10);
    SlicesConcat(repositories, 10);
    var s := Slices(repositories, 10);
    assert |s| == 3;
    assert Concat(s) == s[0] + Concat(s[1..]);
    assert Concat(s[1..]) == s[1] + Concat(s[2..]);
    assert Concat(s[2..]) == s[2] + Concat(s[3..]);
    assert |Concat(s)| == |s[0]| + |s[1]| + |s[2]|;
  }

  /**
   * What `cron` decides: the error it throws, or the batches it enqueues. The guards run
   * before the fetch; `fetched` is what `handler.fetch()` resolved or rejected with.
   */
  function CronPlan(handler: Option<Result<seq<Repository>>>, workerSet: bool, batchSize: int, sha1: Hasher): Result<seq<Batch>>
    requires CronTerminates(handler, workerSet, batchSize)
  {
    if handler.None? then Failure("Handler not set")
    else if !workerSet then Failure("Job-Worker not set")
    else if handler.value.Failure? then Failure(handler.value.error)
    else if |handler.value.value| == 0 then Success([])
    else Success(CronBatches(sha1, handler.value.value, batchSize))
  }

  /** The slicing loop only ends when `batch_size` is positive. */
  predicate CronTerminates(handler: Option<Result<seq<Repository>>>, workerSet: bool, batchSize: int)
  {
    handler.Some? && workerSet && handler.value.Success? && |handler.value.value| > 0 ==> batchSize > 0
  }

  /** The repository lists of a sequence of batches. */
  function BatchRepositories(batches: seq<Batch>): seq<seq<Repository>>
  {
    seq(|batches|, k requires 0 <= k < |batches| => batches[k].repositories)
  }

  lemma CronBatchesRepositories(sha1: Hasher, repositories: seq<Repository>, size: nat)
    requires size > 0
    ensures BatchRepositories(CronBatches(sha1, repositories, size)) == Slices(repositories, size)
  {
  }

  /**
   * The batches `cron` enqueues partition the fetched list in order into full slices and
   * one final slice of 1 to `batch_size`; each is a scheduled batch identified by its repositories.
   */
  lemma CronPlanBatches(handler: Option<Result<seq<Repository>>>, workerSet: bool, batchSize: int, sha1: Hasher)
    requires CronTerminates(handler, workerSet, batchSize)
    requires CronPlan(handler, workerSet, batchSize, sha1).Success?
    ensures handler.Some? && workerSet && handler.value.Success?
    ensures var bs := CronPlan(handler, workerSet, batchSize, sha1).value;
      var repositories := handler.value.value;
      && Concat(BatchRepositories(bs)) == repositories
      && (|repositories| == 0 <==> bs == [])
      && (|bs| > 0 ==> |bs| == (|repositories| + batchSize - 1) / batchSize)
      && (forall k :: 0 <= k < |bs| ==> bs[k].kind == Cron && bs[k].id == CreateBatchId(sha1, bs[k].repositories))
      && (forall k :: 0 <= k < |bs| ==> 1 <= |bs[k].repositories| <= batchSize)
      && (forall k :: 0 <= k < |bs| - 1 ==> |bs[k].repositories| == batchSize)
  {
    var bs := CronPlan(handler, workerSet, batchSize, sha1).value;
    var repositories := handler.value.value;
    if |repositories| > 0 {
      CronBatchesRepositories(sha1, repositories, batchSize);
      SlicesConcat(repositories, batchSize);
      SlicesCount(repositories, batchSize);
      SlicesSizes(repositories, batchSize);
      var s := Slices(repositories, batchSize);
      forall k | 0 <= k < |bs| ensures 1 <= |bs[k].repositories| <= batchSize {
        assert bs[k].repositories == s[k];
      }
    } else {
      assert BatchRepositories(bs) == [];
    }
  }

  lemma CronBatchesStep(sha1: Hasher, repositories: seq<Repository>, size: nat)
    requires size > 0 && |repositories| > 0
    ensures |repositories| <= size ==>
      CronBatches(sha1, repositories, size) == [Batch(CreateBatchId(sha1, repositories), repositories, Cron)]
    ensures |repositories| > size ==>
      CronBatches(sha1, repositories, size)
        == [Batch(CreateBatchId(sha1, repositories[..size]), repositories[..size], Cron)]
           + CronBatches(sha1, repositories[size..], size)
  {
  }

  /** The batches of the list from `i` on: the slice at `i` first, then the batches from `i + size` on. */
  lemma CronBatchesFrom(sha1: Hasher, repositories: seq<Repository>, size: nat, i: nat)
    requires size > 0 && i < |repositories|
    ensures var end := if i + size < |repositories| then i + size else |repositories|;
      CronBatches(sha1, repositories[i..], size)
        == [Batch(CreateBatchId(sha1, repositories[i..end]), repositories[i..end], Cron)]
           + (if end < |repositories| then CronBatches(sha1, repositories[end..], size) else [])
  {
    CronBatchesStep(sha1, repositories[i..], size);
    if i + size < |repositories| {
      assert repositories[i..][size..] == repositories[i + size..];
      assert repositories[i..][..size] == repositories[i..i + size];
    } else {
      assert repositories[i..] == repositories[i..|repositories|];
    }
  }

  /** One iteration of the slicing loop keeps "the batches so far, then those of the rest, are all of them". */
  lemma MakeBatchesStep(sha1: Hasher, repositories: seq<Repository>, size: nat, i: nat, batches: seq<Batch>)
    requires size > 0 && i < |repositories|
    requires batches + CronBatches(sha1, repositories[i..], size) == CronBatches(sha1, repositories, size)
    ensures var end := if i + size < |repositories| then i + size else |repositories|;
      var next := batches + [Batch(CreateBatchId(sha1, repositories[i..end]), repositories[i..end], Cron)];
      next + (if i + size < |repositories| then CronBatches(sha1, repositories[i + size..], size) else [])
        == CronBatches(sha1, repositories, size)
  {
    var end := if i + size < |repositories| then i + size else |repositories|;
    var b := Batch(CreateBatchId(sha1, repositories[i..end]), repositories[i..end], Cron);
    var rest := if end < |repositories| then CronBatches(sha1, repositories[end..], size) else [];
    CronBatchesFrom(sha1, repositories, size, i);
    assert batches + ([b] + rest) == (batches + [b]) + rest;
  }

  /** Slicing as `cron` runs it: a loop that advances `i` by `batch_size` and pushes one batch per slice. */
  method MakeBatches(repositories: seq<Repository>, batchSize: int, sha1: Hasher) returns (batches: seq<Batch>)
    requires batchSize > 0
    ensures batches == CronBatches(sha1, repositories, batchSize)
  {
    ghost var all := CronBatches(sha1, repositories, batchSize);
    batches := [];
    var i := 0;
    if |repositories| == 0 {
      assert Slices(repositories, batchSize) == [];
    } else {
      assert repositories[0..] == repositories;
    }
    while i < |repositories|
      invariant 0 <= i
      invariant batches + (if i < |repositories| then CronBatches(sha1, repositories[i..], batchSize) else []) == all
    {
      var end := if i + batchSize < |repositories| then i + batchSize else |repositories|;
      var repos := repositories[i..end];
      MakeBatchesStep(sha1, repositories, batchSize, i, batches);
      batches := batches + [Batch(CreateBatchId(sha1, repos), repos, Cron)];
      i := i + batchSize;
    }
    assert batches + [] == batches;
  }

  /** The class state after enqueuing `batches` one at a time, in order. */
  function EnqueueAll(lane: Lane, batches: seq<Batch>): Lane
    decreases |batches|
  {
    if |batches| == 0 then lane else EnqueueAll(Enqueue(lane, batches[0]), batches[1..])
  }

  /** After the enqueue loop every batch's id is pending or in flight, and the invariant holds. */
  lemma {:induction false} EnqueueAllEffect(lane: Lane, batches: seq<Batch>)
    requires LaneValid(lane)
    ensures LaneValid(EnqueueAll(lane, batches))
    ensures EnqueueAll(lane, batches).cache == lane.cache
    ensures forall i :: 0 <= i < |batches| ==>
      batches[i].id in QueueIds(EnqueueAll(lane, batches).queue) || batches[i].id in lane.cache
    decreases |batches|
  {
    if |batches| > 0 {
      var next := Enqueue(lane, batches[0]);
      EnqueueValid(lane, batches[0]);
      EnqueueEffect(lane, batches[0]);
      EnqueueAllEffect(next, batches[1..]);
      EnqueueAllKeepsPending(next, batches[1..], batches[0].id);
      forall i | 1 <= i < |batches| ensures
        batches[i].id in QueueIds(EnqueueAll(lane, batches).queue) || batches[i].id in lane.cache
      {
        assert batches[i] == batches[1..][i - 1];
      }
    }
  }

  /** An id already pending stays pending through further enqueues. */
  lemma {:induction false} EnqueueAllKeepsPending(lane: Lane, batches: seq<Batch>, id: string)
    ensures id in QueueIds(lane.queue) ==> id in QueueIds(EnqueueAll(lane, batches).queue)
    decreases |batches|
  {
    if |batches| > 0 {
      var next := Enqueue(lane, batches[0]);
      if id in QueueIds(lane.queue) {
        var i :| 0 <= i < |lane.queue| && lane.queue[i].id == id;
        assert next.queue[i] == lane.queue[i];
      }
      EnqueueAllKeepsPending(next, batches[1..], id);
    }
  }

  /**
   * `cron({handler, worker, batch_size})`. `handler` is `None` for a null handler, else what
   * its `fetch()` resolved or rejected with; `worker` may be null.
   */
  method CronJob(handler: Option<Result<seq<Repository>>>, worker: JobWorker?, sha1: Hasher, batchSize: int := 10) returns (outcome: Outcome)
    requires CronTerminates(handler, worker != null, batchSize)
    requires worker != null ==> worker.Valid()
    modifies worker
    ensures worker != null ==> worker.Valid()
    ensures var plan := CronPlan(handler, worker != null, batchSize, sha1);
      && (plan.Failure? ==> outcome == Fail(plan.error))
      && (plan.Success? ==> outcome == Pass)
      && (worker != null && plan.Failure? ==> worker.BatchLane() == old(worker.BatchLane()))
      && (worker != null && plan.Success? ==> worker.BatchLane() == EnqueueAll(old(worker.BatchLane()), plan.value))
    ensures worker != null ==> worker.HookLane() == old(worker.HookLane())
  {
    if handler.None? {
      return Fail("Handler not set");
    }
    if worker == null {
      return Fail("Job-Worker not set");
    }
    if handler.value.Failure? {
      return Fail(handler.value.error);
    }
    var repositories := handler.value.value;
    if |repositories| == 0 {
      return Pass;
    }
    var batches := MakeBatches(repositories, batchSize, sha1);
    EnqueueBatches(worker, batches);
    return Pass;
  }

  /** `for (const batch of batches) worker.addBatchJob(batch)` */
  method EnqueueBatches(worker: JobWorker, batches: seq<Batch>)
    requires worker.Valid()
    modifies worker
    ensures worker.Valid()
    ensures worker.BatchLane() == EnqueueAll(old(worker.BatchLane()), batches)
    ensures worker.HookLane() == old(worker.HookLane())
  {
    for i := 0 to |batches|
      invariant worker.Valid()
      invariant worker.BatchLane() == EnqueueAll(old(worker.BatchLane()), batches[..i])
      invariant worker.HookLane() == old(worker.HookLane())
    {
      EnqueueAllSnoc(old(worker.BatchLane()), batches[..i], batches[i]);
      assert batches[..i + 1] == batches[..i] + [batches[i]];
      worker.AddBatchJob(batches[i]);
    }
    assert batches[..|batches|] == batches;
  }

  lemma {:induction false} EnqueueAllSnoc(lane: Lane, batches: seq<Batch>, last: Batch)
    ensures EnqueueAll(lane, batches + [last]) == Enqueue(EnqueueAll(lane, batches), last)
    decreases |batches|
  {
    if |batches| > 0 {
      assert (batches + [last])[1..] == batches[1..] + [last];
      EnqueueAllSnoc(Enqueue(lane, batches[0]), batches[1..], last);
    }
  }
}
