/** What both schedulers, src/kernel/task.c and src/kernel/task_mlfq.c, share. */
module Tasks {
  datatype TaskState = RUNNING | READY | BLOCKED | SLEEPING | ZOMBIE

  /** Tasks are numbered in order of creation. */
  type TaskId = nat

  predicate InRange(ring: seq<TaskId>, n: nat) {
    forall i | 0 <= i < |ring| :: ring[i] < n
  }

  function Position(ring: seq<TaskId>, t: TaskId): (k: nat)
    requires t in ring
    ensures k < |ring| && ring[k] == t && t !in ring[..k]
  {
    if ring[0] == t then 0 else 1 + Position(ring[1..], t)
  }
}
