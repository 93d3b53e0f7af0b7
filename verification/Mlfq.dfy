/** The multi-level scheduler of src/kernel/task_mlfq.c on values: four rings of tasks, sleeping and waking,
    and which task gets the CPU. */
module Mlfq {
  import opened Common
  import opened Tasks

  const LEVELS := 4
  const MAX_TASKS := 32
  const NORMAL := 1
  const IDLE := 3

  type Level = p: nat | p < 4

  datatype Task = Task(pid: nat, state: TaskState, priority: Level, base: Level, quantum: nat, slice: nat,
                       ticksUsed: uint32, totalTicks: uint32, sleepUntil: uint32)

  /** Each ring reads from ready_queues[p]->next round to ready_queues[p]; the first MAX_TASKS tasks are those
      in the array of tasks. */
  datatype State = State(tasks: seq<Task>, rings: seq<seq<TaskId>>, current: TaskId, ticks: uint32, nextPid: nat)

  function Quantum(p: Level): nat {
    if p == 0 then 10 else if p == 1 then 5 else if p == 2 then 3 else 1
  }

  predicate Ready(t: Task) {
    t.state == READY || t.state == RUNNING
  }

  ghost predicate NoDup(ring: seq<TaskId>) {
    forall i, j | 0 <= i < j < |ring| :: ring[i] != ring[j]
  }

  ghost predicate Shaped(s: State) {
    && s.tasks != [] && s.current < |s.tasks| && |s.rings| == LEVELS
    && (forall p | 0 <= p < LEVELS :: InRange(s.rings[p], |s.tasks|))
  }

  /** A ring holds tasks of its own level, each once, and none that sleeps. */
  ghost predicate RingOk(tasks: seq<Task>, ring: seq<TaskId>, p: nat) {
    && InRange(ring, |tasks|) && NoDup(ring)
    && (forall i | 0 <= i < |ring| :: tasks[ring[i]].priority == p && tasks[ring[i]].state != SLEEPING)
  }

  ghost predicate Inv(s: State) {
    && s.tasks != [] && s.current < |s.tasks| && |s.rings| == LEVELS
    && (forall p | 0 <= p < LEVELS :: RingOk(s.tasks, s.rings[p], p))
  }

  lemma InvShaped(s: State)
    requires Inv(s)
    ensures Shaped(s)
  {
    forall p | 0 <= p < LEVELS ensures InRange(s.rings[p], |s.tasks|) {
      assert RingOk(s.tasks, s.rings[p], p);
    }
  }

  /** A queued task is in the ring of its priority, in no other and there once; a sleeping one is in none. */
  lemma OneRing(s: State, p: nat, i: nat)
    requires Inv(s) && p < LEVELS && i < |s.rings[p]|
    ensures var t := s.rings[p][i];
            && t < |s.tasks| && p == s.tasks[t].priority && s.tasks[t].state != SLEEPING
            && forall q, j | 0 <= q < LEVELS && 0 <= j < |s.rings[q]| && s.rings[q][j] == t :: q == p && j == i
  {
    var t := s.rings[p][i];
    assert RingOk(s.tasks, s.rings[p], p);
    forall q, j | 0 <= q < LEVELS && 0 <= j < |s.rings[q]| && s.rings[q][j] == t ensures q == p && j == i {
      assert RingOk(s.tasks, s.rings[q], q);
    }
  }

  // ---------------------------------------------------------------- rings

  /** queue_add */
  function QueueAdd(s: State, t: TaskId): State
    requires t < |s.tasks| && |s.rings| == LEVELS
  {
    var p := s.tasks[t].priority;
    s.(rings := s.rings[p := s.rings[p] + [t]])
  }

  function Without(ring: seq<TaskId>, t: TaskId): (r: seq<TaskId>)
    ensures forall i | 0 <= i < |r| :: r[i] in ring
    ensures t !in ring ==> r == ring
  {
    if ring == [] then [] else if ring[0] == t then ring[1..] else [ring[0]] + Without(ring[1..], t)
  }

  lemma {:induction false} WithoutAt(ring: seq<TaskId>, k: nat)
    requires NoDup(ring) && k < |ring|
    ensures Without(ring, ring[k]) == ring[..k] + ring[k + 1..]
  {
    if k > 0 {
      assert ring[0] != ring[k];
      assert ring[k] == ring[1..][k - 1];
      WithoutAt(ring[1..], k - 1);
      assert [ring[0]] + (ring[1..][..k - 1] + ring[1..][k..]) == ring[..k] + ring[k + 1..];
    }
  }

  lemma WithoutOk(ring: seq<TaskId>, t: TaskId)
    requires NoDup(ring)
    ensures NoDup(Without(ring, t)) && t !in Without(ring, t)
  {
    hide Without;
    if t in ring {
      var k :| 0 <= k < |ring| && ring[k] == t;
      WithoutAt(ring, k);
      CutNoDup(ring, k);
    }
  }

  lemma CutNoDup(ring: seq<TaskId>, k: nat)
    requires NoDup(ring) && k < |ring|
    ensures NoDup(ring[..k] + ring[k + 1..]) && ring[k] !in ring[..k] + ring[k + 1..]
  {
    var r := ring[..k] + ring[k + 1..];
    forall i | 0 <= i < |r| ensures r[i] == ring[if i < k then i else i + 1] {}
  }

  /** queue_remove */
  function QueueRemove(s: State, t: TaskId): State
    requires t < |s.tasks| && |s.rings| == LEVELS
  {
    var p := s.tasks[t].priority;
    s.(rings := s.rings[p := Without(s.rings[p], t)])
  }

  // ---------------------------------------------------------------- selection

  /** The first task of the ring from position i on that can run, or |ring|. */
  function FirstReady(tasks: seq<Task>, ring: seq<TaskId>, i: nat): (k: nat)
    requires InRange(ring, |tasks|) && i <= |ring|
    ensures i <= k <= |ring| && (k < |ring| ==> Ready(tasks[ring[k]]))
    ensures forall j | i <= j < k :: !Ready(tasks[ring[j]])
    decreases |ring| - i
  {
    if i == |ring| then i else if Ready(tasks[ring[i]]) then i else FirstReady(tasks, ring, i + 1)
  }

  function Turn<T>(ring: seq<T>, k: nat): (r: seq<T>)
    requires k < |ring|
    ensures |r| == |ring|
  {
    ring[k + 1..] + ring[..k + 1]
  }

  /** get_next_ready_task from level p on; the task found becomes the last of its ring. */
  ghost function Select(s: State, p: nat): (r: (State, TaskId))
    requires Shaped(s) && p <= LEVELS
    ensures r.1 < |s.tasks| && r.0 == s.(rings := r.0.rings)
    decreases LEVELS - p
  {
    if p == LEVELS then (s, 0)
    else
      var ring := s.rings[p];
      var k := FirstReady(s.tasks, ring, 0);
      if k < |ring| then (s.(rings := s.rings[p := Turn(ring, k)]), ring[k]) else Select(s, p + 1)
  }

  /** No task that can run is queued at levels p to q - 1. */
  ghost predicate NoneReady(s: State, p: nat, q: nat)
    requires Shaped(s) && q <= LEVELS
  {
    forall l, i | p <= l < q && 0 <= i < |s.rings[l]| :: !Ready(s.tasks[s.rings[l][i]])
  }

  /** The task chosen can run and is of the best level that has such a task, and the first such in its ring;
      task 0 only when there is none at all. */
  lemma {:induction false} SelectBest(s: State, p: nat) returns (q: nat, k: nat)
    requires Shaped(s) && p <= LEVELS
    ensures p <= q <= LEVELS && NoneReady(s, p, q)
    ensures q == LEVELS ==> Select(s, p) == (s, 0)
    ensures q < LEVELS ==>
              && k < |s.rings[q]| && Ready(s.tasks[s.rings[q][k]])
              && (forall i | 0 <= i < k :: !Ready(s.tasks[s.rings[q][i]]))
              && Select(s, p) == (s.(rings := s.rings[q := Turn(s.rings[q], k)]), s.rings[q][k])
    decreases LEVELS - p
  {
    if p == LEVELS {
      return p, 0;
    }
    k := FirstReady(s.tasks, s.rings[p], 0);
    if k < |s.rings[p]| {
      return p, k;
    }
    q, k := SelectBest(s, p + 1);
  }

  // ---------------------------------------------------------------- operations

  function SetTask(s: State, t: TaskId, x: Task): State
    requires t < |s.tasks|
  {
    s.(tasks := s.tasks[t := x])
  }

  /** task_create when memory is there */
  function Create(s: State): State
    requires |s.rings| == LEVELS
  {
    var x := Task(s.nextPid, READY, NORMAL, NORMAL, Quantum(NORMAL), Quantum(NORMAL), 0, 0, 0);
    QueueAdd(s.(tasks := s.tasks + [x], nextPid := s.nextPid + 1), |s.tasks|)
  }

  /** task_set_priority */
  function SetPriority(s: State, t: TaskId, p: nat): State
    requires t < |s.tasks| && |s.rings| == LEVELS
  {
    if p >= LEVELS then s
    else
      var s1 := QueueRemove(s, t);
      var s2 := SetTask(s1, t, s1.tasks[t].(priority := p, base := p, quantum := Quantum(p), ticksUsed := 0));
      if s2.tasks[t].state == READY then QueueAdd(s2, t) else s2
  }

  /** The task as task_wake leaves it. */
  function Woken(t: Task): Task {
    var x := t.(sleepUntil := 0, state := READY, ticksUsed := 0);
    if x.priority > x.base then x.(priority := x.base, quantum := Quantum(x.base)) else x
  }

  /** task_wake */
  function Wake(s: State, t: TaskId): State
    requires t < |s.tasks| && |s.rings| == LEVELS
  {
    if s.tasks[t].state != SLEEPING then s else QueueAdd(SetTask(s, t, Woken(s.tasks[t])), t)
  }

  predicate Due(s: State, t: TaskId)
    requires t < |s.tasks|
  {
    s.tasks[t].state == SLEEPING && s.tasks[t].sleepUntil > 0 && s.ticks >= s.tasks[t].sleepUntil
  }

  /** task_check_sleeping from entry i of the array of tasks on */
  ghost function CheckSleeping(s: State, i: nat): (r: State)
    requires Shaped(s) && i <= MAX_TASKS
    ensures Shaped(r) && |r.tasks| == |s.tasks| && r.ticks == s.ticks && r.current == s.current
    ensures r.nextPid == s.nextPid
    decreases MAX_TASKS - i
  {
    if i == MAX_TASKS then s
    else if i < |s.tasks| && Due(s, i) then CheckSleeping(Wake(s, i), i + 1)
    else CheckSleeping(s, i + 1)
  }

  function CountTick(s: State): State
    requires s.current < |s.tasks|
  {
    var t := s.tasks[s.current];
    SetTask(s.(ticks := Wrap32(s.ticks + 1)), s.current,
            if t.state == RUNNING then t.(totalTicks := Wrap32(t.totalTicks + 1), ticksUsed := Wrap32(t.ticksUsed + 1))
            else t)
  }

  function UseSlice(s: State): State
    requires s.current < |s.tasks|
  {
    var t := s.tasks[s.current];
    SetTask(s, s.current, t.(slice := if t.slice > 0 then t.slice - 1 else 0))
  }

  predicate MustSwitch(s: State)
    requires s.current < |s.tasks|
  {
    var t := s.tasks[s.current];
    t.slice == 0 || t.state == ZOMBIE || t.state == BLOCKED
  }

  /** Task t gets the CPU from task s.current. */
  function HandOver(s: State, t: TaskId): State
    requires t < |s.tasks| && s.current < |s.tasks|
  {
    var x := s.tasks[t].(slice := s.tasks[t].quantum, state := RUNNING);
    var tasks := s.tasks[t := x];
    var old_ := tasks[s.current];
    s.(tasks := if old_.state == RUNNING then tasks[s.current := old_.(state := READY, slice := x.quantum)] else tasks,
       current := t)
  }

  ghost function Switch(s: State): State
    requires Shaped(s)
  {
    var (s1, t) := Select(s, 0);
    HandOver(s1, t)
  }

  /** The first half of task_schedule: the tick is counted and who has slept long enough is woken. */
  ghost function Ticked(s: State): (r: State)
    requires Shaped(s)
    ensures Shaped(r) && |r.tasks| == |s.tasks|
  {
    UseSlice(CheckSleeping(CountTick(s), 0))
  }

  /** task_schedule */
  ghost function Schedule(s: State): State
    requires Shaped(s)
  {
    var s1 := Ticked(s);
    if MustSwitch(s1) then Switch(s1) else s1
  }

  /** task_yield */
  ghost function Yield(s: State): State
    requires Shaped(s)
  {
    Schedule(SetTask(s, s.current, s.tasks[s.current].(slice := 0)))
  }

  /** The current task asleep and out of its ring, about to give up the CPU. */
  function Dozed(s: State, n: uint32): State
    requires s.current < |s.tasks| && |s.rings| == LEVELS
  {
    var t := s.current;
    var s1 := SetTask(s, t, s.tasks[t].(sleepUntil := Wrap32(s.ticks + n), state := SLEEPING));
    var s2 := QueueRemove(s1, t);
    SetTask(s2, t, s2.tasks[t].(slice := 0))
  }

  lemma DozedShaped(s: State, n: uint32)
    requires Shaped(s)
    ensures Shaped(Dozed(s, n))
  {
  }

  /** task_sleep, of the current task */
  ghost function Sleep(s: State, n: uint32): State
    requires Shaped(s)
  {
    if n == 0 then s else (DozedShaped(s, n); Schedule(Dozed(s, n)))
  }

  /** Code outside the scheduler blocks, wakes or kills a task. */
  function Mark(s: State, t: TaskId, x: TaskState): State
    requires t < |s.tasks|
  {
    SetTask(s, t, s.tasks[t].(state := x))
  }

  // ---------------------------------------------------------------- the invariant lasts

  /** A change to one task that leaves its level alone and does not put it to sleep. */
  lemma SetTaskInv(s: State, t: TaskId, x: Task)
    requires Inv(s) && t < |s.tasks| && x.priority == s.tasks[t].priority
    requires x.state == SLEEPING ==> s.tasks[t].state == SLEEPING
    ensures Inv(SetTask(s, t, x))
  {
    var s' := SetTask(s, t, x);
    forall p | 0 <= p < LEVELS ensures RingOk(s'.tasks, s'.rings[p], p) {
      assert RingOk(s.tasks, s.rings[p], p);
    }
  }

  /** A change to a task that is in no ring. */
  lemma SetFreeTaskInv(s: State, t: TaskId, x: Task)
    requires Inv(s) && t < |s.tasks| && forall p | 0 <= p < LEVELS :: t !in s.rings[p]
    ensures Inv(SetTask(s, t, x))
  {
    var s' := SetTask(s, t, x);
    forall p | 0 <= p < LEVELS ensures RingOk(s'.tasks, s'.rings[p], p) {
      assert RingOk(s.tasks, s.rings[p], p);
      assert forall i | 0 <= i < |s.rings[p]| :: s.rings[p][i] in s.rings[p];
    }
  }

  lemma AddInv(s: State, t: TaskId)
    requires Inv(s) && t < |s.tasks| && s.tasks[t].state != SLEEPING && forall p | 0 <= p < LEVELS :: t !in s.rings[p]
    ensures Inv(QueueAdd(s, t))
  {
    var s' := QueueAdd(s, t);
    forall p | 0 <= p < LEVELS ensures RingOk(s'.tasks, s'.rings[p], p) {
      assert RingOk(s.tasks, s.rings[p], p);
    }
  }

  /** After queue_remove the task is in no ring at all. */
  lemma RemoveInv(s: State, t: TaskId)
    requires Inv(s) && t < |s.tasks|
    ensures Inv(QueueRemove(s, t)) && forall p | 0 <= p < LEVELS :: t !in QueueRemove(s, t).rings[p]
  {
    var s' := QueueRemove(s, t);
    var q := s.tasks[t].priority;
    assert RingOk(s.tasks, s.rings[q], q);
    WithoutOk(s.rings[q], t);
    forall p | 0 <= p < LEVELS ensures RingOk(s'.tasks, s'.rings[p], p) && t !in s'.rings[p] {
      assert RingOk(s.tasks, s.rings[p], p);
      if p == q {
        forall i | 0 <= i < |s'.rings[q]|
          ensures var u := s'.rings[q][i];
                  u < |s.tasks| && s.tasks[u].priority == q && s.tasks[u].state != SLEEPING
        {
          var j :| 0 <= j < |s.rings[q]| && s.rings[q][j] == s'.rings[q][i];
        }
      }
    }
  }

  lemma SleeperIsFree(s: State, t: TaskId)
    requires Inv(s) && t < |s.tasks| && s.tasks[t].state == SLEEPING
    ensures forall p | 0 <= p < LEVELS :: t !in s.rings[p]
  {
    forall p | 0 <= p < LEVELS ensures t !in s.rings[p] {
      assert RingOk(s.tasks, s.rings[p], p);
    }
  }

  lemma CreateInv(s: State)
    requires Inv(s)
    ensures Inv(Create(s))
  {
    var x := Task(s.nextPid, READY, NORMAL, NORMAL, Quantum(NORMAL), Quantum(NORMAL), 0, 0, 0);
    var s1 := s.(tasks := s.tasks + [x], nextPid := s.nextPid + 1);
    forall p | 0 <= p < LEVELS ensures RingOk(s1.tasks, s1.rings[p], p) && |s.tasks| !in s1.rings[p] {
      assert RingOk(s.tasks, s.rings[p], p);
    }
    AddInv(s1, |s.tasks|);
  }

  lemma SetPriorityInv(s: State, t: TaskId, p: nat)
    requires Inv(s) && t < |s.tasks|
    ensures Inv(SetPriority(s, t, p))
  {
    if p < LEVELS {
      RemoveInv(s, t);
      var s1 := QueueRemove(s, t);
      var x := s1.tasks[t].(priority := p, base := p, quantum := Quantum(p), ticksUsed := 0);
      SetFreeTaskInv(s1, t, x);
      if x.state == READY { AddInv(SetTask(s1, t, x), t); }
    }
  }

  lemma WakeInv(s: State, t: TaskId)
    requires Inv(s) && t < |s.tasks|
    ensures Inv(Wake(s, t))
  {
    if s.tasks[t].state == SLEEPING {
      SleeperIsFree(s, t);
      SetFreeTaskInv(s, t, Woken(s.tasks[t]));
      AddInv(SetTask(s, t, Woken(s.tasks[t])), t);
    }
  }

  lemma {:induction false} CheckInv(s: State, i: nat)
    requires Inv(s) && Shaped(s) && i <= MAX_TASKS
    ensures Inv(CheckSleeping(s, i))
    decreases MAX_TASKS - i
  {
    hide Inv;
    if i < MAX_TASKS {
      if i < |s.tasks| && Due(s, i) {
        WakeInv(s, i);
        CheckInv(Wake(s, i), i + 1);
      } else {
        CheckInv(s, i + 1);
      }
    }
  }

  lemma TurnOk(tasks: seq<Task>, ring: seq<TaskId>, p: nat, k: nat)
    requires RingOk(tasks, ring, p) && k < |ring|
    ensures RingOk(tasks, Turn(ring, k), p)
  {
  }

  lemma SwitchInv(s: State)
    requires Inv(s) && Shaped(s)
    ensures Inv(Switch(s))
  {
    var q, k := SelectBest(s, 0);
    var (s1, t) := Select(s, 0);
    hide Select, Turn;
    if q < LEVELS { TurnOk(s.tasks, s.rings[q], q, k); }
    assert Inv(s1);
    var x := s1.tasks[t].(slice := s1.tasks[t].quantum, state := RUNNING);
    SetTaskInv(s1, t, x);
    var s2 := SetTask(s1, t, x);
    SetTaskInv(s2, s.current, s2.tasks[s.current].(state := READY, slice := x.quantum));
    hide Inv;
    CurrentIsFree(s2, t);
    CurrentIsFree(SetTask(s2, s.current, s2.tasks[s.current].(state := READY, slice := x.quantum)), t);
  }

  lemma CurrentIsFree(s: State, t: TaskId)
    requires Inv(s) && t < |s.tasks|
    ensures Inv(s.(current := t))
  {
  }

  lemma TickInv(s: State)
    requires Inv(s) && Shaped(s)
    ensures Inv(CountTick(s)) && Shaped(CountTick(s))
  {
    var s0 := s.(ticks := Wrap32(s.ticks + 1));
    assert Inv(s0);
    SetTaskInv(s0, s.current, CountTick(s).tasks[s.current]);
    InvShaped(CountTick(s));
  }

  lemma TickedInv(s: State)
    requires Inv(s) && Shaped(s)
    ensures Inv(Ticked(s))
  {
    TickInv(s);
    var s2 := CheckSleeping(CountTick(s), 0);
    CheckInv(CountTick(s), 0);
    hide Inv;
    SetTaskInv(s2, s2.current, UseSlice(s2).tasks[s2.current]);
  }

  lemma ScheduleInv(s: State)
    requires Inv(s) && Shaped(s)
    ensures Inv(Schedule(s))
  {
    TickedInv(s);
    assert Shaped(Ticked(s)) && Ticked(s).current < |Ticked(s).tasks|;
    hide Inv, Shaped, Ticked;
    if MustSwitch(Ticked(s)) { SwitchInv(Ticked(s)); }
  }

  lemma YieldInv(s: State)
    requires Inv(s) && Shaped(s)
    ensures Inv(Yield(s))
  {
    SetTaskInv(s, s.current, s.tasks[s.current].(slice := 0));
    ScheduleInv(SetTask(s, s.current, s.tasks[s.current].(slice := 0)));
  }

  lemma DozedInv(s: State, n: uint32)
    requires Inv(s) && Shaped(s)
    ensures Inv(Dozed(s, n))
  {
    var t := s.current;
    var x := s.tasks[t].(sleepUntil := Wrap32(s.ticks + n), state := SLEEPING);
    RemoveInv(s, t);
    SetFreeTaskInv(QueueRemove(s, t), t, x);
    var s2 := QueueRemove(SetTask(s, t, x), t);
    assert s2 == SetTask(QueueRemove(s, t), t, x);
    SetTaskInv(s2, t, s2.tasks[t].(slice := 0));
  }

  // ---------------------------------------------------------------- waking on time

  /** Waking one task leaves the others as they are. */
  lemma {:induction false} CheckWakes(s: State, i: nat)
    requires Shaped(s) && i <= MAX_TASKS
    ensures var r := CheckSleeping(s, i);
            forall t | 0 <= t < |s.tasks| ::
              r.tasks[t] == if i <= t < MAX_TASKS && Due(s, t) then Woken(s.tasks[t]) else s.tasks[t]
    decreases MAX_TASKS - i
  {
    if i < MAX_TASKS {
      if i < |s.tasks| && Due(s, i) {
        CheckWakes(Wake(s, i), i + 1);
      } else {
        CheckWakes(s, i + 1);
      }
    }
  }

  // ---------------------------------------------------------------- runs

  datatype Event =
    | Timer
    | YieldCpu
    | Spawn
    | SleepFor(n: uint32)
    | WakeUp(t: TaskId)
    | Prioritize(t: TaskId, p: nat)
    | MarkAs(t: TaskId, x: TaskState)

  predicate Allowed(s: State, e: Event) {
    match e
    case WakeUp(t) => t < |s.tasks|
    case Prioritize(t, _) => t < |s.tasks|
    case MarkAs(t, x) => t < |s.tasks| && x != SLEEPING
    case _ => true
  }

  ghost function Perform(s: State, e: Event): State
    requires Shaped(s) && Allowed(s, e)
  {
    match e
    case Timer => Schedule(s)
    case YieldCpu => Yield(s)
    case Spawn => Create(s)
    case SleepFor(n) => Sleep(s, n)
    case WakeUp(t) => Wake(s, t)
    case Prioritize(t, p) => SetPriority(s, t, p)
    case MarkAs(t, x) => Mark(s, t, x)
  }

  /** Every operation keeps the rings well-formed. */
  lemma StepInv(s: State, e: Event)
    requires Inv(s) && Shaped(s) && Allowed(s, e)
    ensures Inv(Perform(s, e)) && Shaped(Perform(s, e))
  {
    assert s.current < |s.tasks| && |s.rings| == LEVELS;
    hide Inv, Shaped, Schedule, Dozed, Create, Wake, SetPriority;
    match e {
      case Timer => ScheduleInv(s);
      case YieldCpu => YieldInv(s);
      case Spawn => CreateInv(s);
      case SleepFor(n) => if n > 0 { DozedInv(s, n); DozedShaped(s, n); ScheduleInv(Dozed(s, n)); }
      case WakeUp(t) => WakeInv(s, t);
      case Prioritize(t, p) => SetPriorityInv(s, t, p);
      case MarkAs(t, x) => SetTaskInv(s, t, s.tasks[t].(state := x));
    }
    InvShaped(Perform(s, e));
  }

  /** task_init */
  function Boot(): State {
    State([Task(0, RUNNING, IDLE, IDLE, Quantum(IDLE), Quantum(IDLE), 0, 0, 0)], [[], [], [], []], 0, 0, 1)
  }

  lemma BootInv()
    ensures Inv(Boot()) && Shaped(Boot())
  {
  }

  /** task_set_priority leaves the task queued exactly if it was READY: the task that is RUNNING, the usual
      caller, drops out of its ring. */
  lemma SetPriorityQueues(s: State, t: TaskId, p: nat)
    requires Inv(s) && t < |s.tasks| && p < LEVELS
    ensures var s' := SetPriority(s, t, p);
            |s'.rings| == LEVELS &&
            ((exists q :: 0 <= q < LEVELS && t in s'.rings[q]) <==> s.tasks[t].state == READY)
  {
    RemoveInv(s, t);
    var s' := SetPriority(s, t, p);
    hide Inv;
    if s.tasks[t].state == READY {
      assert s'.rings[p][|s'.rings[p]| - 1] == t;
      assert t in s'.rings[p];
    }
  }

  ghost predicate Happens(s: State, es: seq<Event>)
    requires Inv(s) && Shaped(s)
    decreases es
  {
    es == [] || (Allowed(s, es[0]) && (StepInv(s, es[0]); Happens(Perform(s, es[0]), es[1..])))
  }

  ghost function Run(s: State, es: seq<Event>): (r: State)
    requires Inv(s) && Shaped(s) && Happens(s, es)
    ensures Inv(r) && Shaped(r)
    decreases es
  {
    if es == [] then s else (StepInv(s, es[0]); Run(Perform(s, es[0]), es[1..]))
  }

  // ---------------------------------------------------------------- who is RUNNING

  ghost predicate OneRuns(s: State) {
    forall t | 0 <= t < |s.tasks| && s.tasks[t].state == RUNNING :: t == s.current
  }

  lemma {:induction false} CheckOneRuns(s: State, i: nat)
    requires Shaped(s) && i <= MAX_TASKS && OneRuns(s)
    ensures OneRuns(CheckSleeping(s, i))
    decreases MAX_TASKS - i
  {
    if i < MAX_TASKS {
      if i < |s.tasks| && Due(s, i) { CheckOneRuns(Wake(s, i), i + 1); } else { CheckOneRuns(s, i + 1); }
    }
  }

  /** The task that is given the CPU has its quantum for a slice, and no other is RUNNING. */
  lemma SwitchRuns(s: State)
    requires Shaped(s) && OneRuns(s)
    ensures var s' := Switch(s);
            && OneRuns(s') && s'.current == Select(s, 0).1 < |s'.tasks|
            && s'.tasks[s'.current].slice == s'.tasks[s'.current].quantum
            && s'.tasks[s'.current].state == if s'.current == s.current then READY else RUNNING
  {
    hide Select;
  }

  lemma ScheduleOneRuns(s: State)
    requires Shaped(s) && OneRuns(s)
    ensures OneRuns(Schedule(s))
  {
    assert OneRuns(CountTick(s));
    CheckOneRuns(CountTick(s), 0);
    hide CheckSleeping, Switch;
    assert OneRuns(Ticked(s));
    if MustSwitch(Ticked(s)) { SwitchRuns(Ticked(s)); }
  }

  /** At most one task is RUNNING, and it is the current one, after every operation - if no other code marks
      a task RUNNING. */
  lemma StepOneRuns(s: State, e: Event)
    requires Shaped(s) && Allowed(s, e) && OneRuns(s) && !(e.MarkAs? && e.x == RUNNING)
    ensures OneRuns(Perform(s, e))
  {
    match e {
      case Timer => ScheduleOneRuns(s);
      case YieldCpu => ScheduleOneRuns(SetTask(s, s.current, s.tasks[s.current].(slice := 0)));
      case SleepFor(n) => if n > 0 { DozedShaped(s, n); ScheduleOneRuns(Dozed(s, n)); }
      case _ =>
    }
  }

  // ---------------------------------------------------------------- round robin within a level

  /** The state that task_schedule starts from in the event, if it is called. */
  ghost function Entering(s: State, e: Event): (r: Option<State>)
    requires Shaped(s)
    ensures r.Some? ==> Shaped(r.value)
  {
    match e
    case Timer => Some(s)
    case YieldCpu => Some(SetTask(s, s.current, s.tasks[s.current].(slice := 0)))
    case SleepFor(n) => if n == 0 then None else (DozedShaped(s, n); Some(Dozed(s, n)))
    case _ => None
  }

  ghost predicate Selects(s: State, e: Event)
    requires Shaped(s)
  {
    Entering(s, e).Some? && MustSwitch(Ticked(Entering(s, e).value))
  }

  /** Task t is queued at level p and can run. */
  ghost predicate Contends(s: State, t: TaskId, p: nat)
    requires Shaped(s) && p < LEVELS
  {
    t < |s.tasks| && Ready(s.tasks[t]) && t in s.rings[p]
  }

  /** The event does not send task t itself to sleep or to another level. */
  predicate Steady(s: State, e: Event, t: TaskId) {
    !(e.SleepFor? && e.n > 0 && s.current == t) && !(e.Prioritize? && e.p < LEVELS && e.t == t)
  }

  /** All through the run task t contends at level p, and when the CPU is given away no task of a better
      level can run. */
  ghost predicate Competes(s: State, es: seq<Event>, t: TaskId, p: nat)
    requires Inv(s) && Shaped(s) && Happens(s, es) && p < LEVELS
    decreases es
  {
    Contends(s, t, p) &&
    (es == [] ||
     (Steady(s, es[0], t) &&
      (Selects(s, es[0]) ==> Contends(Ticked(Entering(s, es[0]).value), t, p) &&
                              NoneReady(Ticked(Entering(s, es[0]).value), 0, p)) &&
      (StepInv(s, es[0]); Competes(Perform(s, es[0]), es[1..], t, p))))
  }

  ghost function Selections(s: State, es: seq<Event>): nat
    requires Inv(s) && Shaped(s) && Happens(s, es)
    decreases es
  {
    if es == [] then 0
    else (StepInv(s, es[0]); (if Selects(s, es[0]) then 1 else 0) + Selections(Perform(s, es[0]), es[1..]))
  }

  ghost predicate GetsCpu(s: State, es: seq<Event>, t: TaskId)
    requires Inv(s) && Shaped(s) && Happens(s, es)
    decreases es
  {
    es != [] && (StepInv(s, es[0]);
                 (Selects(s, es[0]) && Perform(s, es[0]).current == t) || GetsCpu(Perform(s, es[0]), es[1..], t))
  }

  /** Task t stands in ring b no further back than in ring a. */
  ghost predicate NotBehind(a: seq<TaskId>, b: seq<TaskId>, t: TaskId) {
    t in a && t in b ==> Position(b, t) <= Position(a, t)
  }

  lemma EarlyPosition(ring: seq<TaskId>, i: nat, t: TaskId)
    requires i < |ring| && ring[i] == t
    ensures t in ring && Position(ring, t) <= i
  {
    assert t in ring;
    var k := Position(ring, t);
    assert forall j | 0 <= j < k :: ring[..k][j] != t;
    assert forall j | 0 <= j < k :: ring[j] != t;
  }

  lemma LongerNotBehind(a: seq<TaskId>, b: seq<TaskId>, t: TaskId)
    requires a <= b
    ensures NotBehind(a, b, t)
  {
    if t in a && t in b { EarlyPosition(b, Position(a, t), t); }
  }

  lemma {:induction false} WithoutNotBehind(ring: seq<TaskId>, u: TaskId, t: TaskId)
    requires NoDup(ring)
    ensures NotBehind(ring, Without(ring, u), t)
  {
    if ring != [] && ring[0] != u && ring[0] != t {
      WithoutNotBehind(ring[1..], u, t);
      var r := Without(ring, u);
      assert r[1..] == Without(ring[1..], u);
      if t in ring && t in r {
        assert t in ring[1..];
        assert t in r[1..];
      }
    }
  }

  lemma BestLevel(s: State, p: nat, i: nat, q: nat, k: nat)
    requires Shaped(s) && p < LEVELS && i < |s.rings[p]| && Ready(s.tasks[s.rings[p][i]]) && NoneReady(s, 0, p)
    requires q <= LEVELS && NoneReady(s, 0, q)
    requires q < LEVELS ==> k < |s.rings[q]| && Ready(s.tasks[s.rings[q][k]])
    ensures q == p
  {
  }

  /** When level p has the best task, choosing passes nobody: t is chosen or comes nearer to the front. */
  lemma SelectAdvances(s: State, t: TaskId, p: nat)
    requires Inv(s) && Shaped(s) && p < LEVELS && Contends(s, t, p) && NoneReady(s, 0, p)
    ensures var (s1, u) := Select(s, 0);
            u == t || (t in s1.rings[p] && Position(s1.rings[p], t) < Position(s.rings[p], t))
  {
    var q, k := SelectBest(s, 0);
    var i := Position(s.rings[p], t);
    hide Inv, NoneReady, Select, Turn, Ready, Position;
    BestLevel(s, p, i, q, k);
    if k != i {
      TurnBrings(s.rings[p], k, i);
    }
  }

  lemma TurnBrings(ring: seq<TaskId>, k: nat, i: nat)
    requires k < i < |ring|
    ensures ring[i] in Turn(ring, k) && Position(Turn(ring, k), ring[i]) < i
  {
    EarlyPosition(Turn(ring, k), i - k - 1, ring[i]);
  }

  lemma {:induction false} CheckLengthens(s: State, i: nat)
    requires Shaped(s) && i <= MAX_TASKS
    ensures forall p | 0 <= p < LEVELS :: s.rings[p] <= CheckSleeping(s, i).rings[p]
    decreases MAX_TASKS - i
  {
    if i < MAX_TASKS {
      if i < |s.tasks| && Due(s, i) { CheckLengthens(Wake(s, i), i + 1); } else { CheckLengthens(s, i + 1); }
    }
  }

  lemma TickedNotBehind(s: State, t: TaskId, p: nat)
    requires Shaped(s) && p < LEVELS
    ensures t in s.rings[p] ==> t in Ticked(s).rings[p]
    ensures NotBehind(s.rings[p], Ticked(s).rings[p], t)
  {
    CheckLengthens(CountTick(s), 0);
    LongerNotBehind(s.rings[p], Ticked(s).rings[p], t);
  }

  lemma SwitchPlace(s: State, t: TaskId, p: nat)
    requires Inv(s) && Shaped(s) && p < LEVELS && Contends(s, t, p) && NoneReady(s, 0, p)
    ensures var s1 := Switch(s);
            s1.current == t ||
            (t in s1.rings[p] && Position(s1.rings[p], t) < Position(s.rings[p], t))
  {
    SelectAdvances(s, t, p);
  }

  lemma SchedulePlace(s: State, t: TaskId, p: nat)
    requires Inv(s) && Shaped(s) && p < LEVELS && t in s.rings[p]
    requires MustSwitch(Ticked(s)) ==> Contends(Ticked(s), t, p) && NoneReady(Ticked(s), 0, p)
    ensures var s1 := Schedule(s);
            if MustSwitch(Ticked(s)) then
              s1.current == t ||
              (t in s1.rings[p] && Position(s1.rings[p], t) < Position(s.rings[p], t))
            else NotBehind(s.rings[p], s1.rings[p], t)
  {
    TickedNotBehind(s, t, p);
    TickedInv(s);
    hide Inv, Shaped, Ticked, Switch, Position;
    if MustSwitch(Ticked(s)) { SwitchPlace(Ticked(s), t, p); }
  }

  lemma RemovePlace(s: State, u: TaskId, t: TaskId, p: nat)
    requires Inv(s) && u < |s.tasks| && p < LEVELS
    ensures NotBehind(s.rings[p], QueueRemove(s, u).rings[p], t)
  {
    assert RingOk(s.tasks, s.rings[p], p);
    WithoutNotBehind(s.rings[p], u, t);
  }

  lemma AddPlace(s: State, u: TaskId, t: TaskId, p: nat)
    requires u < |s.tasks| && p < LEVELS == |s.rings|
    ensures NotBehind(s.rings[p], QueueAdd(s, u).rings[p], t)
    ensures t in s.rings[p] ==> t in QueueAdd(s, u).rings[p]
  {
    LongerNotBehind(s.rings[p], QueueAdd(s, u).rings[p], t);
  }

  lemma PerformPlace(s: State, e: Event, t: TaskId, p: nat)
    requires Inv(s) && Shaped(s) && Allowed(s, e) && p < LEVELS && Contends(s, t, p) && Steady(s, e, t)
    requires Shaped(Perform(s, e)) && Contends(Perform(s, e), t, p)
    requires Selects(s, e) ==> Contends(Ticked(Entering(s, e).value), t, p) &&
                               NoneReady(Ticked(Entering(s, e).value), 0, p)
    ensures if Selects(s, e) then
              Perform(s, e).current == t ||
              Position(Perform(s, e).rings[p], t) < Position(s.rings[p], t)
            else Position(Perform(s, e).rings[p], t) <= Position(s.rings[p], t)
  {
    hide Inv, Ticked, Schedule, Position, Without;
    match e
    case Timer => SchedulePlace(s, t, p);
    case YieldCpu =>
      SetTaskInv(s, s.current, s.tasks[s.current].(slice := 0));
      SchedulePlace(SetTask(s, s.current, s.tasks[s.current].(slice := 0)), t, p);
    case SleepFor(n) => if n > 0 { DozedShaped(s, n); SleepPlace(s, n, t, p); }
    case Spawn =>
      AddPlace(s.(tasks := Create(s).tasks, nextPid := s.nextPid + 1), |s.tasks|, t, p);
    case WakeUp(u) =>
      if s.tasks[u].state == SLEEPING { AddPlace(SetTask(s, u, Woken(s.tasks[u])), u, t, p); }
    case Prioritize(u, q) => if q < LEVELS { PriorityPlace(s, u, q, t, p); }
    case MarkAs(_, _) =>
  }

  lemma SleepPlace(s: State, n: uint32, t: TaskId, p: nat)
    requires Inv(s) && Shaped(s) && n > 0 && p < LEVELS && t in s.rings[p] && t != s.current
    requires Shaped(Dozed(s, n))
    requires var d := Dozed(s, n); MustSwitch(Ticked(d)) ==> Contends(Ticked(d), t, p) && NoneReady(Ticked(d), 0, p)
    requires t in Schedule(Dozed(s, n)).rings[p]
    ensures var s1 := Schedule(Dozed(s, n));
            if MustSwitch(Ticked(Dozed(s, n))) then
              s1.current == t || Position(s1.rings[p], t) < Position(s.rings[p], t)
            else Position(s1.rings[p], t) <= Position(s.rings[p], t)
  {
    var d := Dozed(s, n);
    DozedInv(s, n);
    RemovePlace(s, s.current, t, p);
    OthersStay(s, s.current, t, p);
    assert d.rings == QueueRemove(s, s.current).rings;
    hide Inv, Position, Without, Ticked, Schedule, Dozed;
    SchedulePlace(d, t, p);
  }

  lemma OthersStay(s: State, u: TaskId, t: TaskId, p: nat)
    requires Shaped(s) && u < |s.tasks| && p < LEVELS && t in s.rings[p] && t != u
    ensures t in QueueRemove(s, u).rings[p]
  {
    WithoutOthers(s.rings[p], u, t);
  }

  lemma {:induction false} WithoutOthers(ring: seq<TaskId>, u: TaskId, t: TaskId)
    requires t in ring && t != u
    ensures t in Without(ring, u)
  {
    if ring[0] != u {
      if ring[0] == t { assert Without(ring, u)[0] == t; }
      else {
        WithoutOthers(ring[1..], u, t);
        assert Without(ring, u)[1..] == Without(ring[1..], u);
      }
    }
  }

  lemma PriorityPlace(s: State, u: TaskId, q: nat, t: TaskId, p: nat)
    requires Inv(s) && Shaped(s) && u < |s.tasks| && p < LEVELS && q < LEVELS && t in s.rings[p] && t != u
    requires t in SetPriority(s, u, q).rings[p]
    ensures Position(SetPriority(s, u, q).rings[p], t) <= Position(s.rings[p], t)
  {
    RemovePlace(s, u, t, p);
    OthersStay(s, u, t, p);
    var s1 := QueueRemove(s, u);
    var s2 := SetTask(s1, u, s1.tasks[u].(priority := q, base := q, quantum := Quantum(q), ticksUsed := 0));
    hide Inv, Without, Position;
    AddPlace(s2, u, t, p);
  }

  /** Round robin: a task that keeps contending at level p, while no better level can run, has the CPU after
      k + 1 selections at most if it stands k places from the front. */
  lemma {:induction false} Fair(s: State, es: seq<Event>, t: TaskId, p: nat)
    requires Inv(s) && Shaped(s) && Happens(s, es) && p < LEVELS && Competes(s, es, t, p)
    requires Selections(s, es) > Position(s.rings[p], t)
    ensures GetsCpu(s, es, t)
    decreases es
  {
    hide Inv, Shaped, Perform, Selects, Contends, NoneReady, Position;
    StepInv(s, es[0]);
    var s' := Perform(s, es[0]);
    PerformPlace(s, es[0], t, p);
    if !(Selects(s, es[0]) && s'.current == t) { Fair(s', es[1..], t, p); }
  }
}
