/**
 * The webhook producer: after four null guards, ask the handler whether the event's
 * repository is to be updated, and enqueue one single-repository webhook batch for it.
 */
module Hook {
  import opened Wrappers
  import opened Batches
  import opened Scheduling
  import opened Worker

  /** What `handler.check(headers, payload)` resolved with (`None` for `null`), or rejected with. */
  type CheckFunction<!H, !P> = (H, P) -> Result<Option<Repository>>

  /** The one batch a webhook for `repository` produces. */
  function HookBatch(sha1: Hasher, repository: Repository): (b: Batch)
    ensures b.kind == Hook && b.repositories == [repository]
    ensures b.id == sha1(repository.id)
  {
    assert Ids([repository]) == [repository.id];
    Batch(CreateBatchId(sha1, [repository]), [repository], Hook)
  }

  /**
   * What `hook` decides: the error it throws, nothing (the handler declined), or the batch it
   * hands to `addHookJob`. `handler` is `None` for a null handler, else its `check`.
   */
  function HookPlan<H, P>(headers: Option<H>, payload: Option<P>, handler: Option<CheckFunction<H, P>>,
                          workerSet: bool, sha1: Hasher): Result<Option<Batch>>
  {
    if handler.None? then Failure("Handler not set")
    else if !workerSet then Failure("Job-Worker not set")
    else if payload.None? then Failure("Payload not set")
    else if headers.None? then Failure("Headers not set")
    else
      var checked := handler.value(headers.value, payload.value);
      if checked.Failure? then Failure(checked.error)
      else if checked.value.None? then Success(None)
      else Success(Some(HookBatch(sha1, checked.value.value)))
  }

  /**
   * The guards are checked in the order handler, worker, payload, headers, and all of them
   * before the handler is asked: the first one missing decides the error whatever the others are.
   */
  lemma HookGuardOrder<H, P>(headers: Option<H>, payload: Option<P>, handler: Option<CheckFunction<H, P>>,
                             workerSet: bool, sha1: Hasher)
    ensures var plan := HookPlan(headers, payload, handler, workerSet, sha1);
      && (handler.None? ==> plan == Failure("Handler not set"))
      && (handler.Some? && !workerSet ==> plan == Failure("Job-Worker not set"))
      && (handler.Some? && workerSet && payload.None? ==> plan == Failure("Payload not set"))
      && (handler.Some? && workerSet && payload.Some? && headers.None? ==> plan == Failure("Headers not set"))
      && (handler.Some? && workerSet && payload.Some? && headers.Some? ==>
            var checked := handler.value(headers.value, payload.value);
            (checked.Failure? <==> plan.Failure?) && (checked.Failure? ==> plan.error == checked.error))
  {
  }

  /**
   * Exactly one batch is enqueued iff every guard passes and the handler returns a repository;
   * that batch holds just that repository, is a webhook batch, and is named by its id.
   */
  lemma HookPlanBatch<H, P>(headers: Option<H>, payload: Option<P>, handler: Option<CheckFunction<H, P>>,
                            workerSet: bool, sha1: Hasher)
    ensures var plan := HookPlan(headers, payload, handler, workerSet, sha1);
      (plan.Success? && plan.value.Some?) <==>
        (handler.Some? && workerSet && payload.Some? && headers.Some?
         && handler.value(headers.value, payload.value).Success?
         && handler.value(headers.value, payload.value).value.Some?)
    ensures var plan := HookPlan(headers, payload, handler, workerSet, sha1);
      plan.Success? && plan.value.Some? ==>
        var repository := handler.value(headers.value, payload.value).value.value;
        && plan.value.value.repositories == [repository]
        && plan.value.value.kind == Hook
        && plan.value.value.id == CreateBatchId(sha1, [repository])
  {
  }

  /**
   * Two webhooks for repositories with the same id name the same batch; once the first is
   * queued or in flight, enqueuing the second changes nothing.
   */
  lemma HookRepeatIsNoOp(lane: Lane, sha1: Hasher, first: Repository, second: Repository)
    requires first.id == second.id
    requires HookBatch(sha1, first).id in QueueIds(lane.queue) || HookBatch(sha1, first).id in lane.cache
    ensures Enqueue(lane, HookBatch(sha1, second)) == lane
  {
    BatchIdDependsOnlyOnIds(sha1, [first], [second]);
    EnqueueEffect(lane, HookBatch(sha1, second));
  }

  /**
   * `hook({headers, payload, handler, worker})`. The webhook class gets at most the one batch
   * of `HookPlan`, through `addHookJob`; the scheduled class is untouched.
   */
  method HookJob<H, P>(headers: Option<H>, payload: Option<P>, handler: Option<CheckFunction<H, P>>,
                       worker: JobWorker?, sha1: Hasher) returns (outcome: Outcome)
    requires worker != null ==> worker.Valid()
    modifies worker
    ensures worker != null ==> worker.Valid()
    ensures var plan := HookPlan(headers, payload, handler, worker != null, sha1);
      && (plan.Failure? ==> outcome == Fail(plan.error))
      && (plan.Success? ==> outcome == Pass)
      && (worker != null && plan.Success? && plan.value.Some? ==>
            worker.HookLane() == Enqueue(old(worker.HookLane()), plan.value.value))
      && (worker != null && !(plan.Success? && plan.value.Some?) ==> worker.HookLane() == old(worker.HookLane()))
    ensures worker != null ==> worker.BatchLane() == old(worker.BatchLane())
  {
    if handler.None? {
      return Fail("Handler not set");
    }
    if worker == null {
      return Fail("Job-Worker not set");
    }
    if payload.None? {
      return Fail("Payload not set");
    }
    if headers.None? {
      return Fail("Headers not set");
    }
    var checked := handler.value(headers.value, payload.value);
    if checked.Failure? {
      return Fail(checked.error);
    }
    if checked.value.None? {
      return Pass;
    }
    var batch := Batch(CreateBatchId(sha1, [checked.value.value]), [checked.value.value], Hook);
    worker.AddHookJob(batch);
    return Pass;
  }
}
