/** How long a task keeps the CPU under the scheduler of src/kernel/task_mlfq.c: ten, five, three or one tick by its
    level, if it does not yield, sleep, block or die; and who gets the CPU then. */
module MlfqSlice {
  import opened Common
  import opened Tasks
  import opened Mlfq

  predicate Halted(t: Task) {
    t.state == BLOCKED || t.state == ZOMBIE
  }

  // ---------------------------------------------------------------- quanta

  /** priority_quantum */
  ghost predicate Quanta(s: State) {
    forall t | 0 <= t < |s.tasks| :: s.tasks[t].quantum == [10, 5, 3, 1][s.tasks[t].priority]
  }

  lemma {:induction false} CheckQuanta(s: State, i: nat)
    requires Shaped(s) && i <= MAX_TASKS && Quanta(s)
    ensures Quanta(CheckSleeping(s, i))
    decreases MAX_TASKS - i
  {
    if i < MAX_TASKS {
      if i < |s.tasks| && Due(s, i) { CheckQuanta(Wake(s, i), i + 1); } else { CheckQuanta(s, i + 1); }
    }
  }

  lemma SwitchQuanta(s: State)
    requires Shaped(s) && Quanta(s)
    ensures Quanta(Switch(s))
  {
    hide Select;
  }

  lemma ScheduleQuanta(s: State)
    requires Shaped(s) && Quanta(s)
    ensures Quanta(Schedule(s))
  {
    CheckQuanta(CountTick(s), 0);
    assert Quanta(Ticked(s));
    hide Switch, Ticked, Quanta;
    if MustSwitch(Ticked(s)) { SwitchQuanta(Ticked(s)); }
  }

  /** Every task has the quantum of its level, after any operation. */
  lemma StepQuanta(s: State, e: Event)
    requires Shaped(s) && Allowed(s, e) && Quanta(s)
    ensures Quanta(Perform(s, e))
  {
    hide Schedule, Without;
    match e {
      case Timer => ScheduleQuanta(s);
      case YieldCpu => ScheduleQuanta(SetTask(s, s.current, s.tasks[s.current].(slice := 0)));
      case SleepFor(n) => if n > 0 { DozedShaped(s, n); ScheduleQuanta(Dozed(s, n)); }
      case _ =>
    }
  }

  lemma {:induction false} RunQuanta(s: State, es: seq<Event>)
    requires Inv(s) && Shaped(s) && Happens(s, es) && Quanta(s)
    ensures Quanta(Run(s, es))
    decreases es
  {
    hide Inv, Shaped, Perform, Quanta, Allowed;
    if es != [] {
      StepInv(s, es[0]);
      StepQuanta(s, es[0]);
      RunQuanta(Perform(s, es[0]), es[1..]);
    }
  }

  lemma BootQuanta()
    ensures Quanta(Boot())
  {
  }

  // ---------------------------------------------------------------- one tick

  /** The CPU has just been given away by task `from`: to the last task of the ring of some level, no task that
      can run being queued at a better one; or to task 0, if no other task that can run is queued at all. */
  ghost predicate Handed(s: State, from: TaskId)
    requires Shaped(s)
  {
    var u := s.current;
    && s.tasks[u].slice == s.tasks[u].quantum && s.tasks[u].state == (if u == from then READY else RUNNING)
    && ((exists q :: 0 <= q < LEVELS && s.rings[q] != [] && s.rings[q][|s.rings[q]| - 1] == u && NoneReady(s, 0, q))
        || (u == 0 && forall l, i | 0 <= l < LEVELS && 0 <= i < |s.rings[l]| && s.rings[l][i] != 0 ::
                        !Ready(s.tasks[s.rings[l][i]])))
  }


  /** The tasks that the hand-over does not concern are as before, and nobody else begins to run. */
  lemma HandOverReady(s: State, t: TaskId, w: TaskId)
    requires Shaped(s) && t < |s.tasks| && w < |s.tasks| && w != t
    ensures Ready(HandOver(s, t).tasks[w]) <==> Ready(s.tasks[w])
  {
  }

  lemma HandedBest(s: State, s': State, q: nat, k: nat)
    requires Inv(s) && Shaped(s) && Shaped(s') && q < LEVELS && k < |s.rings[q]| && NoneReady(s, 0, q)
    requires s' == HandOver(s.(rings := s.rings[q := Turn(s.rings[q], k)]), s.rings[q][k])
    ensures Handed(s', s.current)
  {
    var t := s.rings[q][k];
    OneRing(s, q, k);
    assert Turn(s.rings[q], k)[|s.rings[q]| - 1] == t;
    forall l, i | 0 <= l < q && 0 <= i < |s'.rings[l]| ensures !Ready(s'.tasks[s'.rings[l][i]]) {
      assert s'.rings[l] == s.rings[l] && s.rings[l][i] != t;
      HandOverReady(s.(rings := s.rings[q := Turn(s.rings[q], k)]), t, s.rings[l][i]);
    }
    hide Inv, Turn;
    assert NoneReady(s', 0, q);
    assert s'.rings[q][|s'.rings[q]| - 1] == s'.current;
  }

  lemma HandedIdle(s: State)
    requires Shaped(s) && NoneReady(s, 0, LEVELS) && Shaped(HandOver(s, 0))
    ensures Handed(HandOver(s, 0), s.current)
  {
    var s' := HandOver(s, 0);
    forall l, i | 0 <= l < LEVELS && 0 <= i < |s'.rings[l]| && s'.rings[l][i] != 0
      ensures !Ready(s'.tasks[s'.rings[l][i]])
    {
      HandOverReady(s, 0, s.rings[l][i]);
    }
  }

  lemma SwitchHands(s: State)
    requires Inv(s) && Shaped(s)
    ensures Shaped(Switch(s)) && Handed(Switch(s), s.current)
  {
    var q, k := SelectBest(s, 0);
    SwitchInv(s);
    InvShaped(Switch(s));
    hide Inv, Select, Handed, Turn, HandOver;
    if q < LEVELS { HandedBest(s, Switch(s), q, k); } else { HandedIdle(s); }
  }

  /** The current task after the first half of a tick. */
  lemma TickedCurrent(s: State)
    requires Shaped(s)
    ensures var t, s1 := s.tasks[s.current], Ticked(s);
            && s1.current == s.current && s1.tasks[s.current].slice == (if t.slice > 0 then t.slice - 1 else 0)
            && (Halted(s1.tasks[s.current]) <==> Halted(t))
  {
    CheckWakes(CountTick(s), 0);
    hide CheckSleeping;
  }

  /** A tick leaves the CPU to its task exactly if it is not the last of the slice and the task is neither blocked
      nor dead; otherwise the CPU is given away. */
  lemma TickDoes(s: State)
    requires Inv(s) && Shaped(s)
    ensures var t, s' := s.tasks[s.current], Schedule(s);
            if t.slice > 1 && !Halted(t) then
              s'.current == s.current < |s'.tasks| && s'.tasks[s'.current].slice == t.slice - 1 &&
              !Halted(s'.tasks[s'.current])
            else Shaped(s') && Handed(s', s.current)
  {
    TickedCurrent(s);
    TickedInv(s);
    assert s.current < |s.tasks| && Shaped(Ticked(s));
    hide Inv, Shaped, Ticked, Switch, Handed;
    if MustSwitch(Ticked(s)) { SwitchHands(Ticked(s)); }
  }

  /** Yielding and going to sleep give it away at once. */
  lemma YieldDoes(s: State)
    requires Inv(s) && Shaped(s)
    ensures Shaped(Yield(s)) && Handed(Yield(s), s.current)
  {
    var s0 := SetTask(s, s.current, s.tasks[s.current].(slice := 0));
    SetTaskInv(s, s.current, s0.tasks[s.current]);
    assert Shaped(s0);
    hide Inv, Schedule, Handed;
    TickDoes(s0);
  }

  lemma SleepDoes(s: State, n: uint32)
    requires Inv(s) && Shaped(s)
    ensures n > 0 ==> Shaped(Sleep(s, n)) && Handed(Sleep(s, n), s.current)
    ensures n == 0 ==> Sleep(s, n) == s
  {
    if n > 0 {
      DozedInv(s, n);
      DozedShaped(s, n);
      assert Dozed(s, n).tasks[s.current].slice == 0 && Dozed(s, n).current == s.current;
      hide Inv, Schedule, Handed, Dozed;
      TickDoes(Dozed(s, n));
    }
  }

  /** What the first half of a tick counts. */
  lemma TickedAccounts(s: State)
    requires Shaped(s)
    ensures var t, s1 := s.tasks[s.current], Ticked(s);
            var u := s1.tasks[s.current];
            && s1.ticks == (s.ticks + 1) % 0x1_0000_0000 && s1.current == s.current
            && u.totalTicks == (t.totalTicks + if t.state == RUNNING then 1 else 0) % 0x1_0000_0000
            && (t.state == RUNNING ==> u.state == RUNNING && u.ticksUsed == (t.ticksUsed + 1) % 0x1_0000_0000)
  {
    CheckWakes(CountTick(s), 0);
    WrapIsMod(s.ticks);
    WrapIsMod(s.tasks[s.current].totalTicks);
    WrapIsMod(s.tasks[s.current].ticksUsed);
    hide CheckSleeping, Wrap32, Woken;
  }

  lemma WrapIsMod(x: uint32)
    ensures Wrap32(x + 1) == (x + 1) % 0x1_0000_0000 && x % 0x1_0000_0000 == x
  {
  }

  /** What a hand-over leaves of the task that had the CPU. */
  lemma SwitchAccounts(s: State)
    requires Shaped(s)
    ensures var t, s' := s.tasks[s.current], Switch(s);
            && s'.ticks == s.ticks && s'.current < |s'.tasks| == |s.tasks|
            && s'.tasks[s.current].totalTicks == t.totalTicks && s'.tasks[s.current].ticksUsed == t.ticksUsed
            && (t.state == RUNNING && s'.current != s.current ==>
                  s'.tasks[s.current].state == READY && s'.tasks[s.current].slice == s'.tasks[s'.current].quantum)
  {
    hide Select;
  }

  /** What a tick counts, and what becomes of a RUNNING task that loses the CPU. */
  lemma TickAccounts(s: State)
    requires Shaped(s)
    ensures var t, s' := s.tasks[s.current], Schedule(s);
            && s'.ticks == (s.ticks + 1) % 0x1_0000_0000 && s.current < |s'.tasks| && s'.current < |s'.tasks|
            && s'.tasks[s.current].totalTicks == (t.totalTicks + if t.state == RUNNING then 1 else 0) % 0x1_0000_0000
            && (t.state == RUNNING ==> s'.tasks[s.current].ticksUsed == (t.ticksUsed + 1) % 0x1_0000_0000)
            && (t.state == RUNNING && s'.current != s.current ==>
                  s'.tasks[s.current].state == READY && s'.tasks[s.current].slice == s'.tasks[s'.current].quantum)
  {
    TickedAccounts(s);
    assert Shaped(Ticked(s)) && s.current < |s.tasks|;
    SwitchAccounts(Ticked(s));
    hide Ticked, Switch, Shaped;
  }

  // ---------------------------------------------------------------- over runs

  function TickCount(es: seq<Event>): nat {
    if es == [] then 0 else (if es[0] == Timer then 1 else 0) + TickCount(es[1..])
  }

  /** Task t neither yields nor sleeps nor is blocked or killed; everything else may happen. */
  predicate LeftAlone(es: seq<Event>, t: TaskId) {
    forall e | e in es :: e != YieldCpu && !(e.SleepFor? && e.n > 0) && e != MarkAs(t, BLOCKED) && e != MarkAs(t, ZOMBIE)
  }

  /** The operations that leave the CPU alone. */
  lemma OthersKeep(s: State, e: Event)
    requires Shaped(s) && Allowed(s, e) && LeftAlone([e], s.current) && !Halted(s.tasks[s.current]) && e != Timer
    ensures var s' := Perform(s, e);
            && s'.current == s.current < |s'.tasks| && !Halted(s'.tasks[s'.current])
            && s'.tasks[s'.current].slice == s.tasks[s.current].slice
  {
    assert e in [e];
    assert s.current < |s.tasks| && |s.rings| == LEVELS;
    hide Shaped, Schedule, Yield, Without, LeftAlone, Quantum;
  }

  lemma StepKeeps(s: State, e: Event)
    requires Inv(s) && Shaped(s) && Allowed(s, e) && LeftAlone([e], s.current) && !Halted(s.tasks[s.current])
    requires e == Timer ==> s.tasks[s.current].slice > 1
    ensures var s' := Perform(s, e);
            && s'.current == s.current < |s'.tasks| && !Halted(s'.tasks[s'.current])
            && s'.tasks[s'.current].slice == s.tasks[s.current].slice - if e == Timer then 1 else 0
  {
    assert s.current < |s.tasks|;
    hide Inv, Shaped, Schedule, Create, SetPriority, Wake, LeftAlone;
    if e == Timer { TickDoes(s); } else { OthersKeep(s, e); }
  }

  /** Whatever else happens - wakings, new tasks and changes of priority, of its own too - a task that neither
      yields nor sleeps nor blocks nor dies keeps the CPU until its slice is counted down. */
  lemma {:induction false} KeepsCpu(s: State, es: seq<Event>)
    requires Inv(s) && Shaped(s) && Happens(s, es) && LeftAlone(es, s.current) && !Halted(s.tasks[s.current])
    requires es == [] || TickCount(es) < s.tasks[s.current].slice
    ensures var r := Run(s, es);
            && r.current == s.current && !Halted(r.tasks[r.current])
            && r.tasks[r.current].slice == s.tasks[s.current].slice - TickCount(es)
    decreases es
  {
    if es != [] {
      var e := es[0];
      StepInv(s, e);
      assert e in es && forall x | x in es[1..] :: x in es;
      assert LeftAlone([e], s.current) && LeftAlone(es[1..], s.current);
      StepKeeps(s, e);
      assert s.current < |s.tasks|;
      hide Inv, Shaped, Perform, Allowed, LeftAlone;
      KeepsCpu(Perform(s, e), es[1..]);
    }
  }

  /** A task that is given the CPU keeps it for ten, five, three or one tick by its level, whatever else happens:
      all ticks but the last leave it there, and the last takes it away. */
  lemma TurnLength(s: State, from: TaskId, es: seq<Event>)
    requires Inv(s) && Shaped(s) && Quanta(s) && Handed(s, from) && Happens(s, es) && LeftAlone(es, s.current)
    requires TickCount(es) + 1 == [10, 5, 3, 1][s.tasks[s.current].priority]
    ensures var r := Run(s, es);
            && r.current == s.current && r.tasks[r.current].slice == 1
            && Shaped(Schedule(r)) && Handed(Schedule(r), r.current)
  {
    assert s.tasks[s.current].slice == TickCount(es) + 1;
    hide Schedule, Handed, Run, Inv;
    KeepsCpu(s, es);
    TickDoes(Run(s, es));
  }

  // ---------------------------------------------------------------- who joins which ring

  /** Task t has joined the end of the ring of level p, READY and with that level's quantum; nothing else about the
      rings has changed, and no other task. */
  ghost predicate Joins(s: State, s': State, t: TaskId, p: nat)
    requires Shaped(s)
  {
    && p < LEVELS == |s'.rings| && t < |s'.tasks| && s'.current == s.current && s'.ticks == s.ticks
    && s'.rings[p] == s.rings[p] + [t] && (forall q | 0 <= q < LEVELS && q != p :: s'.rings[q] == s.rings[q])
    && s'.tasks[t].state == READY && s'.tasks[t].priority == p && s'.tasks[t].quantum == [10, 5, 3, 1][p]
    && |s.tasks| <= |s'.tasks| && forall u | 0 <= u < |s.tasks| && u != t :: s'.tasks[u] == s.tasks[u]
  }

  /** A new task is of the second level, with a pid that no task has had. */
  lemma CreateJoins(s: State)
    requires Inv(s) && Shaped(s)
    ensures var s' := Create(s);
            && |s'.tasks| == |s.tasks| + 1 && Joins(s, s', |s.tasks|, 1)
            && s'.tasks[|s.tasks|].pid == s.nextPid && s'.nextPid == s.nextPid + 1 && s'.tasks[|s.tasks|].slice == 5
            && s'.tasks[|s.tasks|].base == 1
  {
  }

  /** A sleeper that is woken goes to its own level, or up to its base level if it has sunk below; anybody else is
      left alone. */
  lemma WakeJoins(s: State, t: TaskId)
    requires Inv(s) && Shaped(s) && Quanta(s) && t < |s.tasks|
    ensures var x, s' := s.tasks[t], Wake(s, t);
            if x.state != SLEEPING then s' == s
            else Joins(s, s', t, if x.priority > x.base then x.base else x.priority) && s'.tasks[t].sleepUntil == 0
  {
  }

  /** A READY task whose priority is set to p leaves its ring for the end of ring p. */
  lemma PriorityJoins(s: State, t: TaskId, p: nat)
    requires Inv(s) && Shaped(s) && t < |s.tasks| && p < LEVELS && s.tasks[t].state == READY
    ensures var s0 := s.(rings := s.rings[s.tasks[t].priority := Without(s.rings[s.tasks[t].priority], t)]);
            && Shaped(s0) && Joins(s0, SetPriority(s, t, p), t, p) && SetPriority(s, t, p).tasks[t].base == p
            && forall q | 0 <= q < LEVELS :: t !in s0.rings[q]
  {
    RemoveInv(s, t);
    InvShaped(QueueRemove(s, t));
    hide Inv, Without;
  }

  /** Other code that blocks or kills a task changes its state and leaves it in its ring. */
  lemma MarkLeaves(s: State, t: TaskId, x: TaskState)
    requires Shaped(s) && t < |s.tasks|
    ensures var s' := Mark(s, t, x);
            && s'.rings == s.rings && s'.current == s.current && |s'.tasks| == |s.tasks|
            && s'.tasks[t] == s.tasks[t].(state := x) && forall u | 0 <= u < |s.tasks| && u != t :: s'.tasks[u] == s.tasks[u]
  {
  }
}
