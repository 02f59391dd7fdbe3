/**
 * One work class of the job worker as a value: its pending queue (in admission order,
 * keyed by batch id) and its in-flight cache (batch id -> batch). The functions here
 * specify what the worker's methods do to a class; the lemmas are the scheduler's
 * invariants.
 */
module Scheduling {
  import opened Wrappers
  import opened Batches
  import opened Runners

  datatype Lane = Lane(queue: seq<Batch>, cache: map<string, Batch>)

  function QueueIds(queue: seq<Batch>): set<string>
  {
    set i | 0 <= i < |queue| :: queue[i].id
  }

  predicate UniqueIds(queue: seq<Batch>)
  {
    forall i, j :: 0 <= i < j < |queue| ==> queue[i].id != queue[j].id
  }

  /** Every cache entry is stored under its own batch id. */
  predicate Keyed(cache: map<string, Batch>)
  {
    forall k :: k in cache ==> cache[k].id == k
  }

  /** `small` is `big` restricted to some of its keys. */
  predicate SubMap(small: map<string, Batch>, big: map<string, Batch>)
  {
    forall k :: k in small ==> k in big && big[k] == small[k]
  }

  /** The class invariant: queue ids are unique and disjoint from the in-flight ids. */
  predicate LaneValid(lane: Lane)
  {
    && UniqueIds(lane.queue)
    && Keyed(lane.cache)
    && (forall i :: 0 <= i < |lane.queue| ==> lane.queue[i].id !in lane.cache)
  }

  /** The most in-flight jobs the admission loop lets a class reach: `maxJobs + 1`. */
  function Ceiling(maxJobs: int): nat
  {
    if maxJobs < 0 then 0 else maxJobs + 1
  }

  /** `addBatchJob` / `addHookJob`: ignore a batch whose id is queued or in flight, else append it. */
  function Enqueue(lane: Lane, batch: Batch): Lane
  {
    if batch.id in QueueIds(lane.queue) || batch.id in lane.cache then lane
    else lane.(queue := lane.queue + [batch])
  }

  /** `getNextJob(queue)`: take out the oldest entry, or nothing from an empty queue. */
  function GetNextJob(queue: seq<Batch>): (r: (Option<Batch>, seq<Batch>))
    ensures queue == [] <==> r.0 == None
    ensures queue == [] ==> r.1 == []
    ensures queue != [] ==> [r.0.value] + r.1 == queue
    ensures queue != [] ==> r.0 == Some(queue[0]) && r.1 == queue[1..]
  {
    if queue == [] then (None, [])
    else
      assert [queue[0]] + queue[1..] == queue;
      (Some(queue[0]), queue[1..])
  }

  /** `startJob(cache, batch)`: launch unless already in flight; cache the batch only if the launch resolved. */
  function StartJob(cache: map<string, Batch>, batch: Batch, runJob: Batch -> bool): (r: map<string, Batch>)
    ensures batch.id in cache ==> r == cache
    ensures batch.id !in cache ==> (batch.id in r <==> runJob(batch))
    ensures batch.id in r ==> r[batch.id] == (if batch.id in cache then cache[batch.id] else batch)
    ensures forall k :: k != batch.id ==> (k in r <==> k in cache)
    ensures SubMap(cache, r)
  {
    if batch.id in cache then cache
    else if runJob(batch) then cache[batch.id := batch]
    else cache
  }

  /** `removeJob(cache, batch)`: delete the batch's id; every other entry stays. */
  function RemoveJob(cache: map<string, Batch>, batch: Batch): (r: map<string, Batch>)
    ensures batch.id !in r
    ensures forall k :: k != batch.id ==> (k in r <==> k in cache)
    ensures SubMap(r, cache)
  {
    cache - {batch.id}
  }

  /** What `checkCache` leaves when no probe rejects: the entries whose job is not reported stopped. */
  function Reconcile(cache: map<string, Batch>, checkJob: Batch -> Probe): map<string, Batch>
  {
    map k | k in cache && checkJob(cache[k]) != Stopped :: cache[k]
  }

  predicate NoProbeFailure(cache: map<string, Batch>, checkJob: Batch -> Probe)
  {
    forall k :: k in cache ==> checkJob(cache[k]) != ProbeFailed
  }

  /** The admission loop runs for `i = 0 .. maxJobs - slots` inclusive. */
  function Attempts(maxJobs: int, slots: nat): nat
  {
    if maxJobs - slots >= 0 then maxJobs - slots + 1 else 0
  }

  /** `n` iterations of the admission loop: each takes the oldest queued batch, if any, and starts it. */
  function Admit(queue: seq<Batch>, cache: map<string, Batch>, n: nat, runJob: Batch -> bool): Lane
    decreases n
  {
    if n == 0 then Lane(queue, cache)
    else if queue == [] then Admit(queue, cache, n - 1, runJob)
    else Admit(queue[1..], StartJob(cache, queue[0], runJob), n - 1, runJob)
  }

  /** `handleCache` on one class when no probe rejects: reconcile, count slots, admit. */
  function HandleLane(lane: Lane, maxJobs: int, runner: Runner): Lane
  {
    var cache := Reconcile(lane.cache, runner.checkJob);
    Admit(lane.queue, cache, Attempts(maxJobs, |cache|), runner.runJob)
  }

  // ---------------------------------------------------------------------------
  // Admission

  /** Enqueue keeps the class invariant. */
  lemma EnqueueValid(lane: Lane, batch: Batch)
    requires LaneValid(lane)
    ensures LaneValid(Enqueue(lane, batch))
  {
    if !(batch.id in QueueIds(lane.queue) || batch.id in lane.cache) {
      var q := lane.queue + [batch];
      forall i, j | 0 <= i < j < |q| ensures q[i].id != q[j].id {
        if j == |q| - 1 {
          assert lane.queue[i].id in QueueIds(lane.queue);
        }
      }
    }
  }

  /** After an enqueue the batch's id is pending or in flight, and the cache is untouched. */
  lemma EnqueueEffect(lane: Lane, batch: Batch)
    ensures Enqueue(lane, batch).cache == lane.cache
    ensures batch.id in QueueIds(Enqueue(lane, batch).queue) || batch.id in lane.cache
    ensures batch.id in QueueIds(lane.queue) || batch.id in lane.cache ==> Enqueue(lane, batch) == lane
    ensures !(batch.id in QueueIds(lane.queue) || batch.id in lane.cache) ==>
      Enqueue(lane, batch).queue == lane.queue + [batch]
  {
    var q := lane.queue + [batch];
    assert q[|q| - 1] == batch;
  }

  /** No duplicate admission: a second batch with the same id, queued or not yet drained, is ignored. */
  lemma EnqueueSameIdTwice(lane: Lane, first: Batch, second: Batch)
    requires first.id == second.id
    ensures Enqueue(Enqueue(lane, first), second) == Enqueue(lane, first)
  {
    EnqueueEffect(lane, first);
  }

  // ---------------------------------------------------------------------------
  // Reconciliation

  /** Dropping in-flight entries keeps the class invariant. */
  lemma ShrinkCacheValid(queue: seq<Batch>, cache: map<string, Batch>, smaller: map<string, Batch>)
    requires LaneValid(Lane(queue, cache))
    requires SubMap(smaller, cache)
    ensures LaneValid(Lane(queue, smaller))
    ensures |smaller| <= |cache|
  {
    assert smaller.Keys <= cache.Keys;
    SubsetCardinality(smaller.Keys, cache.Keys);
  }

  lemma SubsetCardinality(a: set<string>, b: set<string>)
    requires a <= b
    ensures |a| <= |b|
  {
    assert b == a + (b - a);
  }

  /** Reconcile removes exactly the entries whose job is reported stopped and changes no other. */
  lemma ReconcileEffect(cache: map<string, Batch>, checkJob: Batch -> Probe)
    ensures SubMap(Reconcile(cache, checkJob), cache)
    ensures forall k :: k in cache ==> (k in Reconcile(cache, checkJob) <==> checkJob(cache[k]) != Stopped)
  {
  }

  // ---------------------------------------------------------------------------
  // The admission loop

  /** One loop iteration keeps the class invariant. */
  lemma {:induction false} AdmitStepValid(queue: seq<Batch>, cache: map<string, Batch>, runJob: Batch -> bool)
    requires LaneValid(Lane(queue, cache))
    requires queue != []
    ensures LaneValid(Lane(queue[1..], StartJob(cache, queue[0], runJob)))
  {
    var c := StartJob(cache, queue[0], runJob);
    forall i | 0 <= i < |queue[1..]| ensures queue[1..][i].id !in c {
      assert queue[i + 1].id != queue[0].id;
    }
  }

  /** The admission loop keeps the class invariant. */
  lemma {:induction false} AdmitValid(queue: seq<Batch>, cache: map<string, Batch>, n: nat, runJob: Batch -> bool)
    requires LaneValid(Lane(queue, cache))
    ensures LaneValid(Admit(queue, cache, n, runJob))
    decreases n
  {
    if n > 0 {
      if queue != [] {
        AdmitStepValid(queue, cache, runJob);
        AdmitValid(queue[1..], StartJob(cache, queue[0], runJob), n - 1, runJob);
      } else {
        AdmitValid(queue, cache, n - 1, runJob);
      }
    }
  }

  /** One iteration of the admission loop, as the loop body takes it: the invariant is kept. */
  lemma AdmitOneStep(queue: seq<Batch>, cache: map<string, Batch>, n: nat, runJob: Batch -> bool)
    requires n > 0 && LaneValid(Lane(queue, cache))
    ensures var rest := if queue == [] then [] else queue[1..];
      var next := if queue == [] then cache else StartJob(cache, queue[0], runJob);
      && Admit(queue, cache, n, runJob) == Admit(rest, next, n - 1, runJob)
      && LaneValid(Lane(rest, next))
  {
    if queue != [] {
      AdmitStepValid(queue, cache, runJob);
    }
  }

  /** `n` iterations leave the queue without its `min(n, |queue|)` oldest batches. */
  lemma {:induction false} AdmitQueue(queue: seq<Batch>, cache: map<string, Batch>, n: nat, runJob: Batch -> bool)
    ensures Admit(queue, cache, n, runJob).queue == queue[(if n < |queue| then n else |queue|)..]
    decreases n
  {
    if n > 0 && queue != [] {
      AdmitQueue(queue[1..], StartJob(cache, queue[0], runJob), n - 1, runJob);
      assert queue[1..][(if n - 1 < |queue| - 1 then n - 1 else |queue| - 1)..]
        == queue[(if n < |queue| then n else |queue|)..];
    } else if n > 0 {
      AdmitQueue(queue, cache, n - 1, runJob);
    }
  }

  /** `n` iterations start at most `min(n, |queue|)` jobs. */
  lemma {:induction false} AdmitCacheGrowth(queue: seq<Batch>, cache: map<string, Batch>, n: nat, runJob: Batch -> bool)
    ensures |Admit(queue, cache, n, runJob).cache| <= |cache| + (if n < |queue| then n else |queue|)
    decreases n
  {
    if n > 0 && queue != [] {
      var c := StartJob(cache, queue[0], runJob);
      AdmitCacheGrowth(queue[1..], c, n - 1, runJob);
      assert |c| <= |cache| + 1 by {
        if queue[0].id !in cache && runJob(queue[0]) {
          assert c == cache[queue[0].id := queue[0]];
        }
      }
    } else if n > 0 {
      AdmitCacheGrowth(queue, cache, n - 1, runJob);
    }
  }

  /** `n` iterations dequeue exactly the `min(n, |queue|)` oldest batches and start at most that many jobs. */
  lemma AdmitDequeues(queue: seq<Batch>, cache: map<string, Batch>, n: nat, runJob: Batch -> bool)
    ensures var m := if n < |queue| then n else |queue|;
      && Admit(queue, cache, n, runJob).queue == queue[m..]
      && SubMap(cache, Admit(queue, cache, n, runJob).cache)
      && |Admit(queue, cache, n, runJob).cache| <= |cache| + m
  {
    AdmitQueue(queue, cache, n, runJob);
    AdmitKeepsCache(queue, cache, n, runJob);
    AdmitCacheGrowth(queue, cache, n, runJob);
  }

  /** The keys the loop leaves in the cache: the old ones and the dequeued batches whose launch resolved. */
  lemma {:induction false} AdmitCacheKeys(queue: seq<Batch>, cache: map<string, Batch>, n: nat, runJob: Batch -> bool)
    ensures var m := if n < |queue| then n else |queue|;
      forall k :: k in Admit(queue, cache, n, runJob).cache <==>
        k in cache || exists i :: 0 <= i < m && queue[i].id == k && runJob(queue[i])
    decreases n
  {
    if n > 0 && queue != [] {
      var m := if n < |queue| then n else |queue|;
      var c := StartJob(cache, queue[0], runJob);
      AdmitCacheKeys(queue[1..], c, n - 1, runJob);
      forall k ensures k in Admit(queue, cache, n, runJob).cache <==>
        k in cache || exists i :: 0 <= i < m && queue[i].id == k && runJob(queue[i])
      {
        if exists i :: 0 <= i < m - 1 && queue[1..][i].id == k && runJob(queue[1..][i]) {
          var i :| 0 <= i < m - 1 && queue[1..][i].id == k && runJob(queue[1..][i]);
          assert queue[i + 1].id == k && runJob(queue[i + 1]);
        }
        if exists i :: 0 <= i < m && queue[i].id == k && runJob(queue[i]) {
          var i :| 0 <= i < m && queue[i].id == k && runJob(queue[i]);
          if i > 0 {
            assert queue[1..][i - 1] == queue[i];
          }
        }
      }
    } else if n > 0 {
      AdmitCacheKeys(queue, cache, n - 1, runJob);
    }
  }

  /** The admission loop never drops or changes an entry already in flight. */
  lemma {:induction false} AdmitKeepsCache(queue: seq<Batch>, cache: map<string, Batch>, n: nat, runJob: Batch -> bool)
    ensures SubMap(cache, Admit(queue, cache, n, runJob).cache)
    decreases n
  {
    if n > 0 && queue != [] {
      AdmitKeepsCache(queue[1..], StartJob(cache, queue[0], runJob), n - 1, runJob);
    } else if n > 0 {
      AdmitKeepsCache(queue, cache, n - 1, runJob);
    }
  }

  /**
   * The `i`-th queued batch, dequeued and launched, is cached under its id after the loop,
   * when no earlier batch and no in-flight entry shares its id.
   */
  lemma {:induction false} AdmitCachesLaunched(queue: seq<Batch>, cache: map<string, Batch>, n: nat, runJob: Batch -> bool, i: nat)
    requires i < n && i < |queue| && runJob(queue[i])
    requires queue[i].id !in cache
    requires forall j :: 0 <= j < i ==> queue[j].id != queue[i].id
    ensures queue[i].id in Admit(queue, cache, n, runJob).cache
    ensures Admit(queue, cache, n, runJob).cache[queue[i].id] == queue[i]
    decreases n
  {
    var c := StartJob(cache, queue[0], runJob);
    assert Admit(queue, cache, n, runJob) == Admit(queue[1..], c, n - 1, runJob);
    if i == 0 {
      assert queue[0].id in c && c[queue[0].id] == queue[0];
      AdmitKeepsCache(queue[1..], c, n - 1, runJob);
    } else {
      assert queue[1..][i - 1] == queue[i];
      assert queue[0].id != queue[i].id;
      forall j | 0 <= j < i - 1 ensures queue[1..][j].id != queue[1..][i - 1].id {
        assert queue[1..][j] == queue[j + 1];
      }
      AdmitCachesLaunched(queue[1..], c, n - 1, runJob, i - 1);
    }
  }

  /** A dequeued batch whose launch resolved is cached under its id, when queue ids are unique and not in flight. */
  lemma AdmitCacheValues(queue: seq<Batch>, cache: map<string, Batch>, n: nat, runJob: Batch -> bool)
    requires LaneValid(Lane(queue, cache))
    ensures var m := if n < |queue| then n else |queue|;
      forall i :: 0 <= i < m && runJob(queue[i]) ==>
        queue[i].id in Admit(queue, cache, n, runJob).cache &&
        Admit(queue, cache, n, runJob).cache[queue[i].id] == queue[i]
  {
    var m := if n < |queue| then n else |queue|;
    forall i | 0 <= i < m && runJob(queue[i])
      ensures queue[i].id in Admit(queue, cache, n, runJob).cache
      ensures Admit(queue, cache, n, runJob).cache[queue[i].id] == queue[i]
    {
      AdmitCachesLaunched(queue, cache, n, runJob, i);
    }
  }

  /**
   * Launch-failure isolation: of the batches the loop dequeues, exactly those whose launch
   * resolves end up in flight (under their own id); a batch whose launch rejects is in
   * neither the queue nor the cache, and the loop still goes on to the batches after it.
   * Nothing else enters the cache.
   */
  lemma AdmitLaunches(queue: seq<Batch>, cache: map<string, Batch>, n: nat, runJob: Batch -> bool)
    requires LaneValid(Lane(queue, cache))
    ensures var m := if n < |queue| then n else |queue|;
      var r := Admit(queue, cache, n, runJob);
      && (forall i :: 0 <= i < m ==> (queue[i].id in r.cache <==> runJob(queue[i])))
      && (forall i :: 0 <= i < m && runJob(queue[i]) ==> r.cache[queue[i].id] == queue[i])
      && (forall i :: 0 <= i < m ==> queue[i].id !in QueueIds(r.queue))
      && (forall k :: k in r.cache ==> k in cache || exists i :: 0 <= i < m && queue[i].id == k)
  {
    var m := if n < |queue| then n else |queue|;
    var r := Admit(queue, cache, n, runJob);
    AdmitDequeues(queue, cache, n, runJob);
    AdmitCacheKeys(queue, cache, n, runJob);
    AdmitCacheValues(queue, cache, n, runJob);
    forall i | 0 <= i < m ensures queue[i].id !in QueueIds(r.queue) {
      forall j | 0 <= j < |r.queue| ensures r.queue[j].id != queue[i].id {
        assert r.queue[j] == queue[m + j];
      }
    }
    forall i | 0 <= i < m && queue[i].id in r.cache ensures runJob(queue[i]) {
      assert queue[i].id !in cache;
      var j :| 0 <= j < m && queue[j].id == queue[i].id && runJob(queue[j]);
      assert i == j;
    }
  }

  /** When every dequeued batch launches, each loop iteration with a queued batch starts one job. */
  lemma {:induction false} AdmitAllLaunch(queue: seq<Batch>, cache: map<string, Batch>, n: nat, runJob: Batch -> bool)
    requires LaneValid(Lane(queue, cache))
    requires n <= |queue|
    requires forall i :: 0 <= i < n ==> runJob(queue[i])
    ensures |Admit(queue, cache, n, runJob).cache| == |cache| + n
    decreases n
  {
    if n > 0 {
      var c := StartJob(cache, queue[0], runJob);
      assert queue[0].id !in cache;
      assert runJob(queue[0]);
      assert c == cache[queue[0].id := queue[0]];
      assert |c| == |cache| + 1;
      AdmitStepValid(queue, cache, runJob);
      forall i | 0 <= i < n - 1 ensures runJob(queue[1..][i]) {
        assert queue[1..][i] == queue[i + 1];
      }
      AdmitAllLaunch(queue[1..], c, n - 1, runJob);
      assert Admit(queue, cache, n, runJob) == Admit(queue[1..], c, n - 1, runJob);
    }
  }

  // ---------------------------------------------------------------------------
  // One class's pass of a tick

  /**
   * The concurrency bound as the loop is written: a class that starts a pass with at most
   * `maxJobs + 1` jobs in flight ends it with at most `maxJobs + 1`, and the invariant holds.
   */
  lemma HandleLaneBound(lane: Lane, maxJobs: int, runner: Runner)
    requires LaneValid(lane)
    requires |lane.cache| <= Ceiling(maxJobs)
    ensures LaneValid(HandleLane(lane, maxJobs, runner))
    ensures |HandleLane(lane, maxJobs, runner).cache| <= Ceiling(maxJobs)
  {
    var c := Reconcile(lane.cache, runner.checkJob);
    ShrinkCacheValid(lane.queue, lane.cache, c);
    AdmitValid(lane.queue, c, Attempts(maxJobs, |c|), runner.runJob);
    AdmitDequeues(lane.queue, c, Attempts(maxJobs, |c|), runner.runJob);
  }

  /** From an empty cache with at least `maxJobs + 1` queued batches that all launch, one pass starts `maxJobs + 1` jobs. */
  lemma HandleLaneFillsCeiling(lane: Lane, maxJobs: int, runner: Runner)
    requires LaneValid(lane)
    requires maxJobs >= 0 && lane.cache == map[]
    requires |lane.queue| >= maxJobs + 1
    requires forall i :: 0 <= i <= maxJobs ==> runner.runJob(lane.queue[i])
    ensures |HandleLane(lane, maxJobs, runner).cache| == maxJobs + 1
    ensures HandleLane(lane, maxJobs, runner).queue == lane.queue[maxJobs + 1..]
  {
    assert Reconcile(lane.cache, runner.checkJob) == map[];
    AdmitAllLaunch(lane.queue, map[], maxJobs + 1, runner.runJob);
    AdmitDequeues(lane.queue, map[], maxJobs + 1, runner.runJob);
  }

  /**
   * With `maxJobs = 2`, an empty cache and queue [X, Y, Z] that all launch, one pass starts
   * all three: the loop admits `maxJobs + 1`, not `maxJobs`.
   */
  lemma ThreeAdmittedUnderLimitTwo(x: Batch, y: Batch, z: Batch, runner: Runner)
    requires x.id != y.id && y.id != z.id && x.id != z.id
    requires runner.runJob(x) && runner.runJob(y) && runner.runJob(z)
    ensures HandleLane(Lane([x, y, z], map[]), 2, runner) == Lane([], map[x.id := x, y.id := y, z.id := z])
  {
    assert Reconcile(map[], runner.checkJob) == map[];
    var s1 := StartJob(map[], x, runner.runJob);
    var s2 := StartJob(s1, y, runner.runJob);
    var s3 := StartJob(s2, z, runner.runJob);
    assert [x, y, z][1..] == [y, z] && [y, z][1..] == [z] && [z][1..] == [];
    assert Admit([x, y, z], map[], 3, runner.runJob) == Admit([], s3, 0, runner.runJob);
  }
}
