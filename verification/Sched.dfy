/** The round-robin scheduler of src/kernel/task.c on values: what a tick, a yield and a creation do to the
    ring of tasks, and why no live task waits for ever. */
module Sched {
  import opened Common
  import opened Tasks

  const TIME_SLICE := 5
  /** How many zombies one switch skips at most. */
  const MAX_SKIPS := 32

  datatype Task = Task(pid: nat, state: TaskState, slice: nat, totalTicks: uint32, switches: uint32)

  /** All tasks ever created, the ring from ready_queue->next round to ready_queue, the task on the CPU and
      the counters. */
  datatype State = State(tasks: seq<Task>, ring: seq<TaskId>, current: TaskId, ticks: uint32, nextPid: nat)

  /** Each of the first n tasks stands in the ring exactly once. */
  ghost predicate IsRing(ring: seq<TaskId>, n: nat) {
    && ring != [] && |ring| == n && InRange(ring, n)
    && (forall i, j | 0 <= i < j < |ring| :: ring[i] != ring[j])
    && (forall t: nat | t < n :: t in ring)
  }

  /** At most one task is RUNNING, and it is the current one. */
  ghost predicate OneRuns(tasks: seq<Task>, current: TaskId) {
    && current < |tasks|
    && (forall t | 0 <= t < |tasks| && tasks[t].state == RUNNING :: t == current)
  }

  ghost predicate Slices(tasks: seq<Task>) {
    forall t | 0 <= t < |tasks| :: tasks[t].slice <= TIME_SLICE
  }

  /** Process ids are given out once. */
  ghost predicate Pids(tasks: seq<Task>, next: nat) {
    && (forall t | 0 <= t < |tasks| :: tasks[t].pid < next)
    && (forall t, u | 0 <= t < u < |tasks| :: tasks[t].pid != tasks[u].pid)
  }

  ghost predicate Valid(s: State) {
    && IsRing(s.ring, |s.tasks|)
    && OneRuns(s.tasks, s.current)
    && Slices(s.tasks)
    && Pids(s.tasks, s.nextPid)
  }

  // ---------------------------------------------------------------- operations

  /** ready_queue = ready_queue->next */
  function Rotate<T>(ring: seq<T>): (r: seq<T>)
    requires ring != []
    ensures |r| == |ring|
  {
    ring[1..] + [ring[0]]
  }

  /** The loop of task_schedule that skips zombies, `attempts` of them at most. */
  function SkipZombies(tasks: seq<Task>, ring: seq<TaskId>, attempts: nat): (r: seq<TaskId>)
    requires ring != [] && InRange(ring, |tasks|)
    ensures |r| == |ring| && InRange(r, |tasks|)
    decreases attempts
  {
    if attempts == 0 || tasks[ring[0]].state != ZOMBIE then ring
    else SkipZombies(tasks, Rotate(ring), attempts - 1)
  }

  /** The next task gets the CPU and a full slice, unless it is a zombie. */
  function Dispatch(t: Task): Task {
    if t.state == ZOMBIE then t
    else t.(slice := TIME_SLICE, state := RUNNING, switches := Wrap32(t.switches + 1))
  }

  /** The task that had the CPU is ready again if it was still running. */
  function Preempt(t: Task): Task {
    if t.state == RUNNING then t.(state := READY) else t
  }

  function Switch(s: State): State
    requires s.ring != [] && InRange(s.ring, |s.tasks|) && s.current < |s.tasks|
  {
    var ring := SkipZombies(s.tasks, s.ring, MAX_SKIPS);
    var next := ring[0];
    var tasks := s.tasks[next := Dispatch(s.tasks[next])];
    s.(tasks := tasks[s.current := Preempt(tasks[s.current])], ring := Rotate(ring), current := next)
  }

  function CountTick(s: State): State
    requires s.current < |s.tasks|
  {
    var t := s.tasks[s.current];
    var u := t.(totalTicks := if t.state == RUNNING then Wrap32(t.totalTicks + 1) else t.totalTicks,
                slice := if t.slice > 0 then t.slice - 1 else 0);
    s.(ticks := Wrap32(s.ticks + 1), tasks := s.tasks[s.current := u])
  }

  /** Does task_schedule give up the CPU after counting the tick? */
  predicate MustSwitch(s: State)
    requires s.current < |s.tasks|
  {
    var t := s.tasks[s.current];
    t.slice == 0 || t.state == ZOMBIE || t.state == BLOCKED
  }

  /** task_schedule */
  function Schedule(s: State): State
    requires s.ring != [] && InRange(s.ring, |s.tasks|) && s.current < |s.tasks|
  {
    var s1 := CountTick(s);
    if MustSwitch(s1) then Switch(s1) else s1
  }

  function Drain(s: State): State
    requires s.current < |s.tasks|
  {
    s.(tasks := s.tasks[s.current := s.tasks[s.current].(slice := 0)])
  }

  /** task_yield */
  function Yield(s: State): State
    requires s.ring != [] && InRange(s.ring, |s.tasks|) && s.current < |s.tasks|
  {
    Schedule(Drain(s))
  }

  /** task_create: the new task goes to the tail of the ring. */
  function Create(s: State): State {
    s.(tasks := s.tasks + [Task(s.nextPid, READY, TIME_SLICE, 0, 0)], ring := s.ring + [|s.tasks|],
       nextPid := s.nextPid + 1)
  }

  /** Code outside the scheduler sets a task's state. */
  function SetState(s: State, t: TaskId, st: TaskState): State
    requires t < |s.tasks|
  {
    s.(tasks := s.tasks[t := s.tasks[t].(state := st)])
  }

  // ---------------------------------------------------------------- invariants

  lemma RotateKeepsRing(ring: seq<TaskId>, n: nat)
    requires IsRing(ring, n)
    ensures IsRing(Rotate(ring), n)
  {
    var r := Rotate(ring);
    forall t: nat | t < n ensures t in r {
      assert t in ring;
      var i :| 0 <= i < n && ring[i] == t;
      assert r[if i == 0 then n - 1 else i - 1] == t;
    }
  }

  lemma {:induction false} SkipKeepsRing(tasks: seq<Task>, ring: seq<TaskId>, attempts: nat)
    requires IsRing(ring, |tasks|)
    ensures IsRing(SkipZombies(tasks, ring, attempts), |tasks|)
    decreases attempts
  {
    hide Rotate;
    if !(attempts == 0 || tasks[ring[0]].state != ZOMBIE) {
      RotateKeepsRing(ring, |tasks|);
      SkipKeepsRing(tasks, Rotate(ring), attempts - 1);
    }
  }

  lemma SwitchValid(s: State)
    requires Valid(s)
    ensures Valid(Switch(s)) && |Switch(s).tasks| == |s.tasks|
  {
    hide SkipZombies, Rotate;
    SkipKeepsRing(s.tasks, s.ring, MAX_SKIPS);
    var r := SkipZombies(s.tasks, s.ring, MAX_SKIPS);
    RotateKeepsRing(r, |s.tasks|);
    hide IsRing;
    var s' := Switch(s);
    forall t | 0 <= t < |s'.tasks| && s'.tasks[t].state == RUNNING ensures t == s'.current {
      assert t != s.current || t == s'.current;
    }
  }

  /** A live task that is given the CPU has a full slice; it is RUNNING, or READY if it had the CPU before. */
  lemma SwitchRuns(s: State)
    requires Valid(s) && Switch(s).tasks[Switch(s).current].state != ZOMBIE
    ensures var s' := Switch(s);
            && s'.tasks[s'.current].slice == TIME_SLICE
            && s'.tasks[s'.current].state == (if s'.current == s.current then READY else RUNNING)
            && s'.tasks[s'.current].switches == Wrap32(s.tasks[s'.current].switches + 1)
            && (s.current != s'.current && s.tasks[s.current].state == RUNNING ==> s'.tasks[s.current].state == READY)
  {
    Unfold(s);
    hide SkipZombies, Rotate, IsRing;
    var next := SkipZombies(s.tasks, s.ring, MAX_SKIPS)[0];
    assert next < |s.tasks| && s.tasks[next].state != ZOMBIE;
  }

  lemma CountValid(s: State)
    requires Valid(s)
    ensures Valid(CountTick(s)) && Valid(Drain(s))
  {
    hide IsRing;
  }

  /** task_schedule and task_yield keep the ring, and never leave two tasks RUNNING. */
  lemma ScheduleValid(s: State)
    requires Valid(s)
    ensures Valid(Schedule(s)) && Valid(Yield(s))
    ensures |Schedule(s).tasks| == |Yield(s).tasks| == |s.tasks|
  {
    CountValid(s);
    CountValid(Drain(s));
    hide Valid, Switch;
    SwitchOrStay(CountTick(s));
    SwitchOrStay(CountTick(Drain(s)));
  }

  lemma SwitchOrStay(s: State)
    requires Valid(s)
    ensures MustSwitch(s) ==> Valid(Switch(s)) && |Switch(s).tasks| == |s.tasks|
  {
    if MustSwitch(s) { SwitchValid(s); }
  }

  lemma CreateValid(s: State)
    requires Valid(s)
    ensures Valid(Create(s))
  {
    var s' := Create(s);
    forall t: nat | t < |s'.tasks| ensures t in s'.ring {
      if t == |s.tasks| { assert s'.ring[|s.tasks|] == t; } else { assert t in s.ring; }
    }
  }

  lemma SetStateValid(s: State, t: TaskId, st: TaskState)
    requires Valid(s) && t < |s.tasks| && st != RUNNING
    ensures Valid(SetState(s, t, st))
  {
    hide IsRing;
  }

  // ---------------------------------------------------------------- which task a switch takes

  /** Rotating brings every task but the first one place nearer. */
  lemma RotatePosition(ring: seq<TaskId>, t: TaskId)
    requires t in ring && forall i, j | 0 <= i < j < |ring| :: ring[i] != ring[j]
    ensures t in Rotate(ring)
    ensures Position(Rotate(ring), t) == if ring[0] == t then |ring| - 1 else Position(ring, t) - 1
  {
    var k := Position(ring, t);
    var i := if ring[0] == t then |ring| - 1 else k - 1;
    var r := Rotate(ring);
    assert r[i] == t;
    var p := Position(r, t);
    assert r[p] == t == ring[if p == |ring| - 1 then 0 else p + 1];
  }

  /** Skipping zombies never passes a live task, however many are skipped. */
  lemma {:induction false} SkipNeverPasses(tasks: seq<Task>, ring: seq<TaskId>, attempts: nat, t: TaskId)
    requires IsRing(ring, |tasks|) && t < |tasks| && tasks[t].state != ZOMBIE
    ensures t in SkipZombies(tasks, ring, attempts) && t in ring
    ensures Position(SkipZombies(tasks, ring, attempts), t) <= Position(ring, t)
    decreases attempts
  {
    hide Rotate, Position;
    if !(attempts == 0 || tasks[ring[0]].state != ZOMBIE) {
      RotatePosition(ring, t);
      RotateKeepsRing(ring, |tasks|);
      SkipNeverPasses(tasks, Rotate(ring), attempts - 1, t);
    }
  }

  /** A switch takes the first task of the ring that is not a zombie, if one is among the first 33. */
  lemma {:induction false} SkipFindsFirstLive(tasks: seq<Task>, ring: seq<TaskId>, attempts: nat, k: nat)
    requires IsRing(ring, |tasks|) && k < |ring| && k <= attempts
    requires tasks[ring[k]].state != ZOMBIE
    requires forall i | 0 <= i < k :: tasks[ring[i]].state == ZOMBIE
    ensures SkipZombies(tasks, ring, attempts) == ring[k..] + ring[..k]
    decreases attempts
  {
    if k == 0 {
      assert ring[0..] + ring[..0] == ring;
    } else {
      RotateKeepsRing(ring, |tasks|);
      var r := Rotate(ring);
      SkipFindsFirstLive(tasks, r, attempts - 1, k - 1);
      assert r[k - 1..] + r[..k - 1] == ring[k..] + ring[..k];
    }
  }

  /** A switch either gives the CPU to a live task or brings it at least one place nearer. */
  lemma SwitchAdvances(s: State, t: TaskId)
    requires Valid(s) && t < |s.tasks| && s.tasks[t].state != ZOMBIE
    ensures t in Switch(s).ring && t in s.ring
    ensures Switch(s).current == t || Position(Switch(s).ring, t) < Position(s.ring, t)
    ensures |Switch(s).tasks| == |s.tasks| && Switch(s).tasks[t].state != ZOMBIE
  {
    hide SkipZombies, Rotate, Position;
    var r := SkipZombies(s.tasks, s.ring, MAX_SKIPS);
    SkipNeverPasses(s.tasks, s.ring, MAX_SKIPS, t);
    SkipKeepsRing(s.tasks, s.ring, MAX_SKIPS);
    RotatePosition(r, t);
  }

  // ---------------------------------------------------------------- runs and fairness

  datatype Event =
    | Tick                              // timer interrupt
    | GiveUp                            // the current task yields
    | Spawn                             // a task is created
    | Mark(t: TaskId, st: TaskState)    // other code blocks, wakes or kills a task

  predicate Allowed(s: State, e: Event) {
    e.Mark? ==> e.t < |s.tasks| && e.st != RUNNING
  }

  function Perform(s: State, e: Event): State
    requires s.ring != [] && InRange(s.ring, |s.tasks|) && s.current < |s.tasks| && Allowed(s, e)
  {
    match e
    case Tick => Schedule(s)
    case GiveUp => Yield(s)
    case Spawn => Create(s)
    case Mark(t, st) => SetState(s, t, st)
  }

  predicate Switches(s: State, e: Event)
    requires s.current < |s.tasks|
  {
    match e
    case Tick => MustSwitch(CountTick(s))
    case GiveUp => true
    case Spawn => false
    case Mark(_, _) => false
  }

  lemma PerformValid(s: State, e: Event)
    requires Valid(s) && Allowed(s, e)
    ensures Valid(Perform(s, e))
  {
    hide Valid, Schedule, Yield, Create, SetState;
    assert s.ring != [] && InRange(s.ring, |s.tasks|) && s.current < |s.tasks| by { Unfold(s); }
    match e
    case Tick => ScheduleValid(s);
    case GiveUp => ScheduleValid(s);
    case Spawn => CreateValid(s);
    case Mark(t, st) => SetStateValid(s, t, st);
  }

  lemma Unfold(s: State)
    requires Valid(s)
    ensures s.ring != [] && InRange(s.ring, |s.tasks|) && s.current < |s.tasks|
  {
  }

  /** Every event of the run can happen, and none kills task t. */
  ghost predicate Spares(s: State, es: seq<Event>, t: TaskId)
    requires Valid(s)
    decreases es
  {
    es == [] || (Allowed(s, es[0]) && es[0] != Mark(t, ZOMBIE) &&
                 (PerformValid(s, es[0]); Spares(Perform(s, es[0]), es[1..], t)))
  }

  ghost function SwitchCount(s: State, es: seq<Event>, t: TaskId): nat
    requires Valid(s) && Spares(s, es, t)
    decreases es
  {
    if es == [] then 0
    else (PerformValid(s, es[0]);
          (if Switches(s, es[0]) then 1 else 0) + SwitchCount(Perform(s, es[0]), es[1..], t))
  }

  function TickCount(es: seq<Event>): nat {
    if es == [] then 0 else (if es[0] == Tick then 1 else 0) + TickCount(es[1..])
  }

  /** Some switch of the run gives the CPU to t. */
  ghost predicate GetsCpu(s: State, es: seq<Event>, t: TaskId)
    requires Valid(s) && Spares(s, es, t)
    decreases es
  {
    es != [] && (PerformValid(s, es[0]);
                 var s' := Perform(s, es[0]);
                 (Switches(s, es[0]) && s'.current == t) || GetsCpu(s', es[1..], t))
  }

  lemma PerformAdvances(s: State, e: Event, t: TaskId)
    requires Valid(s) && Allowed(s, e) && e != Mark(t, ZOMBIE)
    requires t < |s.tasks| && s.tasks[t].state != ZOMBIE
    ensures t in s.ring && t in Perform(s, e).ring && t < |Perform(s, e).tasks|
    ensures Perform(s, e).tasks[t].state != ZOMBIE
    ensures if Switches(s, e) then
              Perform(s, e).current == t || Position(Perform(s, e).ring, t) < Position(s.ring, t)
            else Position(Perform(s, e).ring, t) == Position(s.ring, t)
  {
    hide Position, Switch, Valid;
    assert t in s.ring && s.ring != [] && InRange(s.ring, |s.tasks|) && s.current < |s.tasks| by { InRing(s, t); }
    match e
    case Tick =>
      CountValid(s);
      if Switches(s, e) { SwitchAdvances(CountTick(s), t); }
    case GiveUp =>
      CountValid(s);
      CountValid(Drain(s));
      SwitchAdvances(CountTick(Drain(s)), t);
    case Spawn =>
      AppendPosition(s.ring, |s.tasks|, t);
    case Mark(_, _) =>
  }

  lemma InRing(s: State, t: TaskId)
    requires Valid(s) && t < |s.tasks|
    ensures t in s.ring && s.ring != [] && InRange(s.ring, |s.tasks|) && s.current < |s.tasks|
  {
  }

  lemma {:induction false} AppendPosition(ring: seq<TaskId>, u: TaskId, t: TaskId)
    requires t in ring
    ensures Position(ring + [u], t) == Position(ring, t)
  {
    if ring[0] != t {
      assert (ring + [u])[1..] == ring[1..] + [u];
      AppendPosition(ring[1..], u, t);
    }
  }

  /** Round-robin fairness: a live task at place k of the ring has the CPU after k + 1 switches at most,
      whatever tasks are created, blocked, woken or killed meanwhile. */
  lemma {:induction false} Fair(s: State, es: seq<Event>, t: TaskId)
    requires Valid(s) && t < |s.tasks| && s.tasks[t].state != ZOMBIE && Spares(s, es, t)
    requires t in s.ring && SwitchCount(s, es, t) > Position(s.ring, t)
    ensures GetsCpu(s, es, t)
    decreases es
  {
    hide Position, Valid, Perform, Switches;
    Unfold(s);
    PerformValid(s, es[0]);
    PerformAdvances(s, es[0], t);
    var s' := Perform(s, es[0]);
    if !(Switches(s, es[0]) && s'.current == t) {
      Fair(s', es[1..], t);
    }
  }

  /** What is left of the current task's slice; a tick with 1 left ends it. */
  function Budget(s: State): (b: nat)
    requires s.current < |s.tasks|
  {
    var left := s.tasks[s.current].slice;
    if left == 0 then 1 else left
  }

  lemma BudgetStep(s: State, e: Event)
    requires Valid(s) && Allowed(s, e)
    ensures Perform(s, e).current < |Perform(s, e).tasks| && 1 <= Budget(Perform(s, e)) <= TIME_SLICE
    ensures !Switches(s, e) ==> Budget(s) == Budget(Perform(s, e)) + if e == Tick then 1 else 0
  {
    hide Switch, IsRing, Pids, OneRuns;
    Unfold(s);
    PerformValid(s, e);
    Unfold(Perform(s, e));
    if e == GiveUp { CountValid(s); CountValid(Drain(s)); }
  }

  /** A switch happens at least every fifth tick. */
  lemma {:induction false} TicksForceSwitches(s: State, es: seq<Event>, t: TaskId)
    requires Valid(s) && Spares(s, es, t)
    ensures s.current < |s.tasks| && TickCount(es) < Budget(s) + TIME_SLICE * SwitchCount(s, es, t)
    decreases es
  {
    Unfold(s);
    hide Valid, Perform, Switches;
    if es != [] {
      PerformValid(s, es[0]);
      BudgetStep(s, es[0]);
      TicksForceSwitches(Perform(s, es[0]), es[1..], t);
    }
  }

  /** Fairness in time: 5 ticks for each place in the ring, counting the task's own, are enough. */
  lemma FairInTicks(s: State, es: seq<Event>, t: TaskId)
    requires Valid(s) && t < |s.tasks| && s.tasks[t].state != ZOMBIE && Spares(s, es, t)
    requires t in s.ring && TickCount(es) >= TIME_SLICE * (Position(s.ring, t) + 1)
    ensures GetsCpu(s, es, t)
  {
    TicksForceSwitches(s, es, t);
    assert s.tasks[s.current].slice <= TIME_SLICE;
    hide *;
    Fair(s, es, t);
  }
}
