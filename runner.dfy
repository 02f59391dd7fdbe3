/**
 * The backend capability the scheduler drives. Backends (container engine, cluster
 * orchestrator) are not modelled; a runner is the answers it gives.
 */
module Runners {
  import opened Batches

  /** What `checkJob(batch)` does: resolves true, resolves false, or rejects. */
  datatype Probe = Running | Stopped | ProbeFailed

  /**
   * A backend's answers during one pass over one work class. `checkJob` receives the whole
   * batch, as the scheduler passes it; `runJob(batch)` is true when the launch resolves
   * and false when it rejects. Within one pass each batch is probed or launched at most
   * once, so a function of the batch loses no generality.
   */
  datatype Runner = Runner(checkJob: Batch -> Probe, runJob: Batch -> bool)
}
