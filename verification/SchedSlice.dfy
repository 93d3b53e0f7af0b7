/** How long a task keeps the CPU under the scheduler of src/kernel/task.c: for as many timer ticks as its slice
    says, if it does not yield, block or die, and not one more. */
module SchedSlice {
  import opened Common
  import opened Tasks
  import opened Sched

  predicate Halted(t: Task) {
    t.state == BLOCKED || t.state == ZOMBIE
  }

  /** The k-th task of the ring is the first that is no zombie, and near enough to be found. */
  ghost predicate FirstLive(s: State, k: nat)
    requires Valid(s)
  {
    && k < |s.ring| && k <= 32 && s.tasks[s.ring[k]].state != ZOMBIE
    && forall i | 0 <= i < k :: s.tasks[s.ring[i]].state == ZOMBIE
  }

  /** One tick of the current task is used up and nothing else has changed. */
  ghost predicate OneTickLess(s: State, s': State)
    requires Valid(s)
  {
    && s'.current == s.current && s'.ring == s.ring && s'.nextPid == s.nextPid && |s'.tasks| == |s.tasks|
    && s'.ticks == (s.ticks + 1) % 0x1_0000_0000
    && (forall t | 0 <= t < |s.tasks| && t != s.current :: s'.tasks[t] == s.tasks[t])
    && s'.tasks[s.current].slice == s.tasks[s.current].slice - 1
    && s'.tasks[s.current].state == s.tasks[s.current].state
    && s'.tasks[s.current].totalTicks
       == (s.tasks[s.current].totalTicks + if s.tasks[s.current].state == RUNNING then 1 else 0) % 0x1_0000_0000
  }

  /** The CPU goes to the k-th task of the ring, with five ticks and a switch more on its account; it moves to
      the end of the ring, and who was RUNNING before is READY. */
  ghost predicate Hands(s: State, s': State, k: nat)
    requires Valid(s) && k < |s.ring|
  {
    var t := s.ring[k];
    && s'.current == t && s'.ring == s.ring[k + 1..] + s.ring[..k + 1] && |s'.tasks| == |s.tasks|
    && s'.ticks == (s.ticks + 1) % 0x1_0000_0000
    && t < |s.tasks| && s'.tasks[t].slice == 5 && s'.tasks[t].switches == (s.tasks[t].switches + 1) % 0x1_0000_0000
    && s'.tasks[t].state == (if t == s.current then READY else RUNNING)
    && (forall u | 0 <= u < |s.tasks| && u != t && u != s.current :: s'.tasks[u] == s.tasks[u])
    && (t != s.current ==>
          s'.tasks[s.current].state == if s.tasks[s.current].state == RUNNING then READY else s.tasks[s.current].state)
  }

  lemma RotatePast(ring: seq<TaskId>, k: nat)
    requires k < |ring|
    ensures var r := ring[k..] + ring[..k]; r != [] && r[0] == ring[k] && Rotate(r) == ring[k + 1..] + ring[..k + 1]
  {
  }

  /** The switch of task_schedule in these terms. */
  lemma SwitchTakes(s: State, k: nat)
    requires Valid(s) && FirstLive(s, k)
    ensures var s', t := Switch(s), s.ring[k];
            && t < |s.tasks| && s'.current == t && s'.ring == s.ring[k + 1..] + s.ring[..k + 1] && s'.ticks == s.ticks
            && |s'.tasks| == |s.tasks|
            && forall u | 0 <= u < |s.tasks| ::
                 s'.tasks[u] == var x := if u == t then Dispatch(s.tasks[u]) else s.tasks[u];
                                if u == s.current then Preempt(x) else x
  {
    Unfold(s);
    SkipFindsFirstLive(s.tasks, s.ring, MAX_SKIPS, k);
    RotatePast(s.ring, k);
    hide SkipZombies, Rotate, Valid, Dispatch, Preempt;
  }

  lemma SwitchHands(s: State, s1: State, k: nat)
    requires Valid(s) && Valid(s1) && FirstLive(s1, k) && s1.ring == s.ring && s1.current == s.current
    requires |s1.tasks| == |s.tasks| && s1.ticks == (s.ticks + 1) % 0x1_0000_0000
    requires forall t | 0 <= t < |s.tasks| && t != s.current :: s1.tasks[t] == s.tasks[t]
    requires var t, u := s.tasks[s.current], s1.tasks[s.current]; u.state == t.state && u.switches == t.switches
    ensures Hands(s, Switch(s1), k)
  {
    Unfold(s);
    Unfold(s1);
    WrapIsMod(s1.tasks[s.ring[k]].switches);
    hide Switch, Valid, FirstLive, Wrap32;
    SwitchTakes(s1, k);
  }

  lemma WrapIsMod(x: uint32)
    ensures Wrap32(x + 1) == (x + 1) % 0x1_0000_0000
  {
  }

  /** A tick takes the CPU away exactly if it is the last of the slice, or the task is blocked or dead; it then
      goes to the first live task of the ring. */
  lemma TickDoes(s: State, k: nat)
    requires Valid(s) && FirstLive(s, k)
    ensures var t := s.tasks[s.current];
            if t.slice > 1 && !Halted(t) then OneTickLess(s, Schedule(s)) else Hands(s, Schedule(s), k)
  {
    CountValid(s);
    Unfold(s);
    hide Switch, Hands, Valid, FirstLive;
    var t := s.tasks[s.current];
    if !(t.slice > 1 && !Halted(t)) {
      SwitchHands(s, CountTick(s), k);
    }
  }

  /** A yield takes it away at once. */
  lemma YieldDoes(s: State, k: nat)
    requires Valid(s) && FirstLive(s, k)
    ensures Hands(s, Yield(s), k)
  {
    CountValid(s);
    CountValid(Drain(s));
    Unfold(s);
    hide Switch, Hands, Valid, FirstLive;
    SwitchHands(s, CountTick(Drain(s)), k);
  }

  /** A new task is READY with five ticks and a pid that no task has, and stands at the end of the ring. */
  lemma CreateDoes(s: State)
    requires Valid(s)
    ensures var s', n := Create(s), |s.tasks|;
            && s'.ring == s.ring + [n] && |s'.tasks| == n + 1 && s'.tasks[..n] == s.tasks
            && s'.tasks[n].state == READY && s'.tasks[n].slice == 5
            && (forall t | 0 <= t < n :: s.tasks[t].pid < s'.tasks[n].pid)
            && s'.current == s.current && s'.ticks == s.ticks
  {
  }

  // ---------------------------------------------------------------- over runs

  ghost predicate Happens(s: State, es: seq<Event>)
    requires Valid(s)
    decreases es
  {
    es == [] || (Allowed(s, es[0]) && (PerformValid(s, es[0]); Happens(Perform(s, es[0]), es[1..])))
  }

  ghost function Run(s: State, es: seq<Event>): (r: State)
    requires Valid(s) && Happens(s, es)
    ensures Valid(r)
    decreases es
  {
    if es == [] then s else (PerformValid(s, es[0]); Run(Perform(s, es[0]), es[1..]))
  }

  /** Task t neither yields nor is blocked or killed; everything else may happen. */
  predicate LeftAlone(es: seq<Event>, t: TaskId) {
    forall e | e in es :: e != GiveUp && e != Mark(t, BLOCKED) && e != Mark(t, ZOMBIE)
  }

  lemma StepKeeps(s: State, e: Event)
    requires Valid(s) && Allowed(s, e) && e != GiveUp && e != Mark(s.current, BLOCKED) && e != Mark(s.current, ZOMBIE)
    requires !Halted(s.tasks[s.current]) && (e == Tick ==> s.tasks[s.current].slice > 1)
    ensures s.ring != [] && InRange(s.ring, |s.tasks|)
    ensures var s' := Perform(s, e);
            && s'.current == s.current < |s'.tasks| && !Halted(s'.tasks[s'.current])
            && s'.tasks[s'.current].slice == s.tasks[s.current].slice - if e == Tick then 1 else 0
  {
    Unfold(s);
    hide Valid, Switch;
  }

  /** Whatever else happens, a task that neither yields nor blocks nor dies keeps the CPU until its slice is
      counted down. */
  lemma {:induction false} KeepsCpu(s: State, es: seq<Event>)
    requires Valid(s) && Happens(s, es) && LeftAlone(es, s.current) && !Halted(s.tasks[s.current])
    requires es == [] || TickCount(es) < s.tasks[s.current].slice
    ensures var r := Run(s, es);
            && r.current == s.current && !Halted(r.tasks[r.current])
            && r.tasks[r.current].slice == s.tasks[s.current].slice - TickCount(es)
    decreases es
  {
    if es != [] {
      var e := es[0];
      PerformValid(s, e);
      assert e in es && forall x | x in es[1..] :: x in es;
      StepKeeps(s, e);
      hide Valid, Perform, Allowed;
      KeepsCpu(Perform(s, e), es[1..]);
    }
  }

  /** A task that is given the CPU keeps it for four ticks, and the fifth takes it away, whatever else happens in
      between. */
  lemma FiveTicks(s: State, s1: State, k: nat, es: seq<Event>, j: nat)
    requires Valid(s) && k < |s.ring| && Hands(s, s1, k) && Valid(s1) && Happens(s1, es)
    requires LeftAlone(es, s.ring[k]) && TickCount(es) == 4
    requires FirstLive(Run(s1, es), j)
    ensures var r := Run(s1, es);
            && r.current == s.ring[k] && r.tasks[r.current].slice == 1
            && Hands(r, Schedule(r), j)
  {
    Unfold(s1);
    assert s1.current == s.ring[k] && s1.tasks[s1.current].slice == 5 && !Halted(s1.tasks[s1.current]);
    hide Schedule, Hands, FirstLive, Run, Valid;
    KeepsCpu(s1, es);
    TickDoes(Run(s1, es), j);
  }
}
