/** How the rows of an image are divided among the tasks of the worker pool. */
module Tasks {

  // APRILTAG_TASKS_PER_THREAD_TARGET
  const TASKS_PER_THREAD: nat := 10

  function ChunkSize(sz: nat, nthreads: nat): (c: nat)
    requires nthreads > 0
    ensures c >= 1
  {
    1 + sz / (TASKS_PER_THREAD * nthreads)
  }
}
