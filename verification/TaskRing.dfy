/** The circular list of tasks of src/kernel/task.c with its `next` pointers, proved to do what the
    functions of module Sched say. */
module TaskRing {
  import opened Common
  import opened Sched
  import opened Tasks

  /** struct task, without the saved registers, the name and the fields only the MLFQ scheduler uses. */
  class Tcb {
    var pid: nat
    var state: TaskState
    var slice: nat
    var totalTicks: uint32
    var switches: uint32
    var next: Tcb?

    constructor (pid: nat, state: TaskState)
      ensures View() == Task(pid, state, TIME_SLICE, 0, 0)
    {
      this.pid := pid;
      this.state := state;
      slice := TIME_SLICE;
      totalTicks := 0;
      switches := 0;
      next := null;
    }

    function View(): Task
      reads this
    {
      Task(pid, state, slice, totalTicks, switches)
    }
  }

  class Scheduler {
    var readyQueue: Tcb?
    var current: Tcb
    var globalTicks: uint32
    var nextPid: nat
    /** Every task created, in order of creation; a TaskId is an index into it. */
    ghost var all: seq<Tcb>
    ghost var ring: seq<TaskId>
    ghost var cur: TaskId

    ghost predicate Distinct()
      reads this
    {
      && (forall i, j | 0 <= i < j < |all| :: all[i] != all[j])
      && InRange(ring, |all|)
      && (forall i, j | 0 <= i < j < |ring| :: ring[i] != ring[j])
    }

    /** The next pointers lead once round the ring, from the task after readyQueue to readyQueue. */
    ghost predicate Linked()
      requires Distinct()
      reads this, all
    {
      if ring == [] then readyQueue == null
      else
        && readyQueue == all[ring[|ring| - 1]]
        && (forall i | 0 <= i < |ring| - 1 :: all[ring[i]].next == all[ring[i + 1]])
        && all[ring[|ring| - 1]].next == all[ring[0]]
    }

    ghost predicate Valid()
      reads this, all
    {
      && Distinct() && Linked()
      && cur < |all| && current == all[cur]
    }

    ghost function Views(): (r: seq<Task>)
      reads this, all
      ensures |r| == |all| && forall i | 0 <= i < |r| :: r[i] == all[i].View()
    {
      seq(|all|, i requires 0 <= i < |all| reads this, all => all[i].View())
    }

    ghost function Abs(): State
      reads this, all
    {
      State(Views(), ring, cur, globalTicks, nextPid)
    }

    /** task_init: the idle task alone in the ring. */
    constructor ()
      ensures Valid() && fresh(all)
      ensures Abs() == State([Task(0, RUNNING, TIME_SLICE, 0, 0)], [0], 0, 0, 1)
    {
      var idle := new Tcb(0, RUNNING);
      idle.next := idle;
      current := idle;
      readyQueue := idle;
      globalTicks := 0;
      nextPid := 1;
      all := [idle];
      ring := [0];
      cur := 0;
      new;
    }

    /** simple_queue_add, for a task that stands in no ring yet. */
    method SimpleQueueAdd(task: Tcb, ghost id: TaskId)
      requires Valid() && id < |all| && all[id] == task && id !in ring
      modifies this`readyQueue, this`ring, task`next, readyQueue
      ensures Valid() && ring == old(ring) + [id] && readyQueue == task
      ensures Views() == old(Views())
    {
      if readyQueue == null {
        readyQueue := task;
        task.next := task;
      } else {
        task.next := readyQueue.next;
        readyQueue.next := task;
        readyQueue := task;
      }
      ring := ring + [id];
    }

    /** The first half of task_create: a task that is in no ring yet. */
    method NewTask() returns (task: Tcb)
      requires Valid()
      modifies this`nextPid, this`all
      ensures Valid() && fresh(task) && all == old(all) + [task] && |old(all)| !in ring
      ensures nextPid == old(nextPid) + 1
      ensures Views() == old(Views()) + [Task(old(nextPid), READY, TIME_SLICE, 0, 0)]
    {
      task := new Tcb(nextPid, READY);
      nextPid := nextPid + 1;
      assert |all| !in ring;
      all := all + [task];
    }

    /** task_create, the part that concerns scheduling; `memory` is whether kmalloc found room. */
    method TaskCreate(memory: bool) returns (pid: nat)
      requires Valid()
      modifies this, all
      ensures Valid() && |old(all)| <= |all| && all[..|old(all)|] == old(all) && fresh(all[|old(all)|..])
      ensures pid == if memory then old(nextPid) else 0
      ensures Abs() == if memory then Create(old(Abs())) else old(Abs())
    {
      if !memory { return 0; }
      hide Linked;
      pid := nextPid;
      var task := NewTask();
      SimpleQueueAdd(task, |all| - 1);
    }

    /** What changes when one task object changes, but not its next pointer. */
    twostate lemma Touched(t: TaskId)
      requires old(Valid()) && unchanged(`all, `ring, `readyQueue, `current, `cur) && t < |all|
      requires forall i | 0 <= i < |all| :: all[i].next == old(all[i].next)
      requires forall i | 0 <= i < |all| && i != t :: all[i].View() == old(all[i].View())
      ensures Valid() && Views() == old(Views())[t := all[t].View()]
    {
    }

    lemma CurrentKnown()
      requires Valid()
      ensures cur < |all| && all[cur] == current && InRange(ring, |all|)
      ensures forall i | 0 <= i < |all| && i != cur :: all[i] != current
    {
    }

    method CountTheTick()
      requires Valid()
      modifies this`globalTicks, current
      ensures Valid() && InRange(old(ring), |all|) && old(cur) < |all|
      ensures Abs() == CountTick(old(Abs()))
    {
      CurrentKnown();
      hide Valid, InRange;
      globalTicks := Wrap32(globalTicks + 1);
      if current.state == RUNNING {
        current.totalTicks := Wrap32(current.totalTicks + 1);
      }
      if current.slice > 0 {
        current.slice := current.slice - 1;
      }
      Touched(cur);
    }

    /** ready_queue = ready_queue->next */
    method Advance()
      requires Valid() && ring != []
      modifies this`readyQueue, this`ring
      ensures Valid() && ring == Rotate(old(ring)) && ring != [] && Views() == old(Views())
    {
      readyQueue := readyQueue.next;
      ring := Rotate(ring);
    }

    lemma NextIsFirst()
      requires Valid() && ring != []
      ensures readyQueue != null && readyQueue.next == all[ring[0]] && readyQueue.next != null
      ensures InRange(ring, |all|)
    {
    }

    /** The loop that skips zombies. */
    method FindNext() returns (next: Tcb)
      requires Valid() && ring != []
      modifies this`readyQueue, this`ring
      ensures Valid() && ring != [] && InRange(ring, |all|) && next == all[ring[0]] && Views() == old(Views())
      ensures InRange(old(ring), |all|) && ring == SkipZombies(Views(), old(ring), MAX_SKIPS)
    {
      hide Valid, Rotate;
      NextIsFirst();
      next := readyQueue.next;
      var attempts: nat := 0;
      while next.state == ZOMBIE && attempts < MAX_SKIPS
        invariant Valid() && ring != [] && InRange(ring, |all|)
        invariant next == all[ring[0]] && attempts <= MAX_SKIPS
        invariant SkipZombies(Views(), ring, MAX_SKIPS - attempts) == SkipZombies(Views(), old(ring), MAX_SKIPS)
      {
        Advance();
        NextIsFirst();
        next := readyQueue.next;
        attempts := attempts + 1;
      }
    }

    /** The chosen task gets a slice and the CPU, and the old one is ready again. */
    method HandOver(oldTask: Tcb, ghost from: TaskId)
      requires Valid() && from < |all| && all[from] == oldTask
      modifies all
      ensures Valid() && |Views()| == |old(Views())|
      ensures Views() == (var ts := old(Views())[cur := Dispatch(old(Views())[cur])]; ts[from := Preempt(ts[from])])
    {
      CurrentKnown();
      hide Valid, InRange;
      Apart(from);
      if current.state != ZOMBIE {
        current.slice := TIME_SLICE;
        current.state := RUNNING;
        current.switches := Wrap32(current.switches + 1);
      }
      Touched(cur);
      label dispatched:
      if oldTask.state == RUNNING {
        oldTask.state := READY;
      }
      Touched@dispatched(from);
    }

    lemma Apart(t: TaskId)
      requires Valid() && t < |all|
      ensures forall i | 0 <= i < |all| && i != t :: all[i] != all[t]
    {
    }

    /** current_task = next; ready_queue = next; for the task after ready_queue. */
    method Take(next: Tcb)
      requires Valid() && ring != [] && InRange(ring, |all|) && next == all[ring[0]]
      modifies this`current, this`readyQueue, this`ring, this`cur
      ensures Valid() && ring == Rotate(old(ring)) && cur == old(ring)[0] && ring != []
      ensures Views() == old(Views())
    {
      current := next;
      readyQueue := next;
      cur := ring[0];
      ring := Rotate(ring);
    }

    /** What task_schedule does once the current task has to give up the CPU. */
    method SwitchTask()
      requires Valid() && ring != []
      modifies this, all
      ensures Valid() && all == old(all) && InRange(old(ring), |all|) && old(cur) < |all| && ring != []
      ensures Abs() == Switch(old(Abs()))
    {
      hide Valid, SkipZombies, Rotate, Dispatch, Preempt;
      CurrentKnown();
      var oldTask := current;
      var next := FindNext();
      Take(next);
      HandOver(oldTask, old(cur));
    }

    method TaskSchedule()
      requires Valid()
      modifies this, all
      ensures Valid() && all == old(all) && InRange(old(ring), |all|) && old(cur) < |all|
      ensures Abs() == if old(ring) == [] then old(Abs()) else Schedule(old(Abs()))
    {
      if readyQueue == null { return; }
      CountTheTick();
      if current.slice == 0 || current.state == ZOMBIE || current.state == BLOCKED {
        SwitchTask();
      }
    }

    method TaskYield()
      requires Valid() && ring != []
      modifies this, all
      ensures Valid() && all == old(all) && InRange(old(ring), |all|) && old(cur) < |all|
      ensures Abs() == Yield(old(Abs()))
    {
      current.slice := 0;
      assert Abs() == Drain(old(Abs()));
      TaskSchedule();
    }
  }
}
