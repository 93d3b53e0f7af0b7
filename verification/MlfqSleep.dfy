/** When a task that called task_sleep of src/kernel/task_mlfq.c wakes, over whole runs of the scheduler. */
module MlfqSleep {
  import opened Common
  import opened Tasks
  import opened Mlfq

  // ---------------------------------------------------------------- one scheduling step

  /** After how many more ticks task_check_sleeping wakes task t, if ever, when the counter is `now` and the task
      sleeps until `time`: only the tasks of the array are looked at, and a time of 0 counts as none. */
  function WakesIn(t: TaskId, now: uint32, time: uint32): Option<nat> {
    if t >= MAX_TASKS || time == 0 then None
    else if now + 1 == WORD then Some(time + 1)
    else if now + 1 >= time then Some(1)
    else Some(time - now)
  }

  lemma OneTickLess(t: TaskId, now: uint32, time: uint32)
    ensures var next := Wrap32(now + 1);
            && (WakesIn(t, now, time) == Some(1) <==> t < MAX_TASKS && time > 0 && next >= time)
            && (WakesIn(t, now, time) != Some(1) ==>
                  WakesIn(t, next, time) == match WakesIn(t, now, time)
                                            case None => None
                                            case Some(k) => Some(k - 1))
    ensures WakesIn(t, now, time).Some? ==> WakesIn(t, now, time).value >= 1
  {
  }

  ghost predicate Asleep(s: State, t: TaskId, time: uint32) {
    t < |s.tasks| && s.tasks[t].state == SLEEPING && s.tasks[t].sleepUntil == time
  }

  ghost predicate Awake(s: State, t: TaskId) {
    t < |s.tasks| && Ready(s.tasks[t])
  }

  /** A sleeping task other than the idle task is not chosen. */
  lemma SwitchLeaves(s: State, t: TaskId)
    requires Shaped(s) && 0 < t < |s.tasks|
    ensures |Switch(s).tasks| == |s.tasks| && Switch(s).ticks == s.ticks
    ensures Ready(s.tasks[t]) ==> Ready(Switch(s).tasks[t])
    ensures s.tasks[t].state == SLEEPING ==> Switch(s).current != t && Switch(s).tasks[t] == s.tasks[t]
  {
    var q, k := SelectBest(s, 0);
    hide Select, Turn;
  }

  /** The timer half of the step. */
  lemma TickedSleeper(s: State, t: TaskId)
    requires Shaped(s) && t < |s.tasks|
    ensures var s1 := Ticked(s);
            && s1.ticks == Wrap32(s.ticks + 1) && s1.current == s.current
            && (s.tasks[t].state == SLEEPING ==>
                  if WakesIn(t, s.ticks, s.tasks[t].sleepUntil) == Some(1) then Ready(s1.tasks[t])
                  else Asleep(s1, t, s.tasks[t].sleepUntil))
            && (Ready(s.tasks[t]) ==> Ready(s1.tasks[t]))
            && (s.current == t && s.tasks[t].slice == 0 ==> s1.tasks[t].slice == 0)
  {
    CheckWakes(CountTick(s), 0);
    OneTickLess(t, s.ticks, s.tasks[t].sleepUntil);
    hide CheckSleeping;
  }

  lemma ScheduleSleeper(s: State, t: TaskId)
    requires Shaped(s) && 0 < t < |s.tasks| && s.tasks[t].state == SLEEPING
    requires s.current == t ==> s.tasks[t].slice == 0
    ensures var s1 := Schedule(s);
            && s1.ticks == Wrap32(s.ticks + 1)
            && if WakesIn(t, s.ticks, s.tasks[t].sleepUntil) == Some(1) then Awake(s1, t)
               else Asleep(s1, t, s.tasks[t].sleepUntil) && s1.current != t
  {
    TickedSleeper(s, t);
    hide Ticked, Switch, WakesIn;
    if MustSwitch(Ticked(s)) { SwitchLeaves(Ticked(s), t); }
  }

  lemma ScheduleAwake(s: State, t: TaskId)
    requires Shaped(s) && 0 < t && Awake(s, t)
    ensures Awake(Schedule(s), t)
  {
    TickedSleeper(s, t);
    hide Ticked, Switch, WakesIn;
    if MustSwitch(Ticked(s)) { SwitchLeaves(Ticked(s), t); }
  }

  // ---------------------------------------------------------------- every event

  /** The event calls task_schedule, which counts a tick. */
  predicate Ticks(e: Event) {
    e.Timer? || e.YieldCpu? || (e.SleepFor? && e.n > 0)
  }

  /** Nobody wakes, blocks or kills task t in this event, and it does not go to sleep itself. */
  predicate Spares(s: State, e: Event, t: TaskId) {
    && (e.WakeUp? ==> e.t != t) && (e.MarkAs? ==> e.t != t)
    && (e.SleepFor? && e.n > 0 ==> s.current != t)
  }

  lemma PerformSleeper(s: State, e: Event, t: TaskId, time: uint32)
    requires Shaped(s) && Allowed(s, e) && Spares(s, e, t) && 0 < t && Asleep(s, t, time) && s.current != t
    ensures var s1 := Perform(s, e);
            if !Ticks(e) then s1.ticks == s.ticks && Asleep(s1, t, time) && s1.current != t
            else
              && s1.ticks == Wrap32(s.ticks + 1)
              && if WakesIn(t, s.ticks, time) == Some(1) then Awake(s1, t) else Asleep(s1, t, time) && s1.current != t
  {
    hide Schedule, WakesIn, Without;
    match e
    case Timer => ScheduleSleeper(s, t);
    case YieldCpu => ScheduleSleeper(SetTask(s, s.current, s.tasks[s.current].(slice := 0)), t);
    case SleepFor(n) => if n > 0 { DozedShaped(s, n); ScheduleSleeper(Dozed(s, n), t); }
    case _ =>
  }

  lemma PerformAwake(s: State, e: Event, t: TaskId)
    requires Shaped(s) && Allowed(s, e) && Spares(s, e, t) && 0 < t && Awake(s, t)
    ensures Awake(Perform(s, e), t)
  {
    hide Schedule, Without;
    match e
    case Timer => ScheduleAwake(s, t);
    case YieldCpu => ScheduleAwake(SetTask(s, s.current, s.tasks[s.current].(slice := 0)), t);
    case SleepFor(n) => if n > 0 { DozedShaped(s, n); ScheduleAwake(Dozed(s, n), t); }
    case _ =>
  }

  // ---------------------------------------------------------------- every run

  ghost predicate LeftAlone(s: State, es: seq<Event>, t: TaskId)
    requires Inv(s) && Shaped(s) && Happens(s, es)
    decreases es
  {
    es == [] || (Spares(s, es[0], t) && (StepInv(s, es[0]); LeftAlone(Perform(s, es[0]), es[1..], t)))
  }

  function TickCount(es: seq<Event>): nat {
    if es == [] then 0 else (if Ticks(es[0]) then 1 else 0) + TickCount(es[1..])
  }

  lemma {:induction false} AwakeStays(s: State, es: seq<Event>, t: TaskId)
    requires Inv(s) && Shaped(s) && Happens(s, es) && LeftAlone(s, es, t) && 0 < t && Awake(s, t)
    ensures Awake(Run(s, es), t)
    decreases es
  {
    hide Inv, Shaped, Perform, Awake, Allowed, Spares;
    if es != [] {
      StepInv(s, es[0]);
      PerformAwake(s, es[0], t);
      AwakeStays(Perform(s, es[0]), es[1..], t);
    }
  }

  /** A sleeping task wakes with the tick that WakesIn names and not before. */
  lemma {:induction false} SleepsTill(s: State, es: seq<Event>, t: TaskId, time: uint32)
    requires Inv(s) && Shaped(s) && Happens(s, es) && LeftAlone(s, es, t) && 0 < t && Asleep(s, t, time) && s.current != t
    ensures var k := WakesIn(t, s.ticks, time);
            if k.None? || TickCount(es) < k.value then Asleep(Run(s, es), t, time) else Awake(Run(s, es), t)
    decreases es
  {
    hide Inv, Shaped, Perform, Awake, Asleep, Allowed, Spares, WakesIn, Ticks;
    OneTickLess(t, s.ticks, time);
    if es != [] {
      var e := es[0];
      StepInv(s, e);
      PerformSleeper(s, e, t, time);
      if Ticks(e) && WakesIn(t, s.ticks, time) == Some(1) {
        AwakeStays(Perform(s, e), es[1..], t);
      } else {
        SleepsTill(Perform(s, e), es[1..], t, time);
      }
    }
  }

  /** After how many ticks a sleep of n ticks that begins at tick `now` ends: after n if the time to wake is below
      2^32, and never if it is exactly 2^32, which is kept as 0, or if the array of tasks does not hold the task. A
      time beyond 2^32 wraps round, so that the next tick ends the sleep - unless that tick wraps too. */
  function SleepEnds(t: TaskId, now: uint32, n: uint32): Option<nat> {
    if t >= MAX_TASKS || now + n == WORD then None
    else if now + n < WORD || now == WORD - 1 then Some(n)
    else Some(1)
  }

  lemma SleepEndsIn(t: TaskId, now: uint32, n: uint32)
    requires n > 0
    ensures WakesIn(t, now, Wrap32(now + n)) == SleepEnds(t, now, n)
  {
  }

  /** In every run that leaves it alone, a task that calls task_sleep is asleep until the tick that SleepEnds
      names and can run from then on. Counting the tick of the call itself, it wakes after exactly the ticks it
      asked for if and only if it is one of the first 32 tasks and the time to wake is not 2^32 or more, or the
      counter stood at its largest value. */
  lemma Sleeper(s: State, n: uint32, es: seq<Event>)
    requires Inv(s) && Shaped(s) && n > 0 && s.current > 0
    requires Inv(Perform(s, SleepFor(n))) && Shaped(Perform(s, SleepFor(n))) && Happens(Perform(s, SleepFor(n)), es)
    requires LeftAlone(Perform(s, SleepFor(n)), es, s.current)
    ensures var t, r := s.current, Run(Perform(s, SleepFor(n)), es);
            var end := SleepEnds(t, s.ticks, n);
            && t < |r.tasks|
            && (r.tasks[t].state == SLEEPING <==> end.None? || 1 + TickCount(es) < end.value)
            && (Ready(r.tasks[t]) <==> end.Some? && 1 + TickCount(es) >= end.value)
  {
    var t, d, s1 := s.current, Dozed(s, n), Perform(s, SleepFor(n));
    var time := Wrap32(s.ticks + n);
    DozedShaped(s, n);
    DozedSleeper(s, n);
    ScheduleSleeper(d, t);
    SleepEndsIn(t, s.ticks, n);
    OneTickLess(t, s.ticks, time);
    assert s1 == Schedule(d);
    hide Inv, Shaped, Perform, Schedule, Dozed, WakesIn, SleepEnds, LeftAlone, Happens, Run, TickCount;
    if WakesIn(t, s.ticks, time) == Some(1) {
      AwakeStays(s1, es, t);
    } else {
      SleepsTill(s1, es, t, time);
    }
  }

  lemma DozedSleeper(s: State, n: uint32)
    requires Shaped(s)
    ensures var d := Dozed(s, n);
            && Asleep(d, s.current, Wrap32(s.ticks + n)) && d.current == s.current && d.ticks == s.ticks
            && d.tasks[s.current].slice == 0
  {
    hide Without;
  }

  /** The idle task cannot sleep: when nobody else can run, it gets the CPU all the same. */
  lemma IdleCannotSleep(n: uint32)
    requires n > 0
    ensures Shaped(Boot()) && Ready(Perform(Boot(), SleepFor(n)).tasks[0]) && Perform(Boot(), SleepFor(n)).current == 0
  {
    BootInv();
    var d := Dozed(Boot(), n);
    DozedShaped(Boot(), n);
    var s1 := Ticked(d);
    CheckWakes(CountTick(d), 0);
    CheckLengthens(CountTick(d), 0);
    hide CheckSleeping;
    assert MustSwitch(s1);
    var q, k := SelectBest(s1, 0);
    hide Select;
  }
}
