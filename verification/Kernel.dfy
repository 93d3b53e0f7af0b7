/** Scheduler and ports together: every kernel call is one step, and a blocking receive is two, the one that
    blocks and the one that finishes when the task has the CPU again. */
module Kernel {
  import opened Common
  import opened Sched
  import opened Tasks
  import opened Ipc

  /** Everything a port accepted and delivered since it was created. */
  datatype PortLog = PortLog(accepted: seq<Letter>, received: seq<Letter>)

  /** inRecv: the tasks that are inside ipc_recv after the call to task_yield, each with its port. */
  datatype Sys = Sys(sched: State, ports: seq<Port>, log: seq<PortLog>, inRecv: map<TaskId, nat>)

  datatype Call =
    | Timer
    | YieldCpu
    | Spawn
    | Kill(t: TaskId)
    | CreatePort
    | CreateNamed(name: Option<Name>)
    | Destroy(port: nat)
    | Send(dest: nat, replyTo: uint32, kind: uint32, data: Option<seq<byte>>, size: uint32)
    | TryRecv(port: nat)
    | Recv(port: nat)
    | Resume

  ghost predicate Shaped(s: Sys) {
    && s.sched.ring != [] && InRange(s.sched.ring, |s.sched.tasks|) && s.sched.current < |s.sched.tasks|
    && |s.ports| == |s.log| == PORTS
    && (forall i | 0 <= i < PORTS :: HasSlots(s.ports[i]))
    && (forall t | t in s.inRecv :: s.inRecv[t] < PORTS)
  }

  function Me(s: Sys): nat
    requires s.sched.current < |s.sched.tasks|
  {
    s.sched.tasks[s.sched.current].pid
  }

  /** A task inside ipc_recv makes no calls; interrupts and other tasks still act. */
  predicate CanDo(s: Sys, c: Call) {
    match c
    case Timer => true
    case Kill(t) => t < |s.sched.tasks|
    case Send(_, r, k, data, size) => Readable(Parcel(0, r, k, data, size))
    case Resume => s.sched.current in s.inRecv
    case _ => s.sched.current !in s.inRecv
  }

  predicate Owns(s: Sys, p: nat)
    requires s.sched.current < |s.sched.tasks|
  {
    p < |s.ports| && s.ports[p].inUse && s.ports[p].owner == Me(s)
  }

  function Wake(st: State, t: Option<TaskId>): State {
    if t.Some? && t.value < |st.tasks| then SetState(st, t.value, READY) else st
  }

  ghost function OpenPort(s: Sys, name: Name): Sys
    requires Shaped(s)
  {
    match FreeFrom(s.ports, 0)
    case None => s
    case Some(i) => s.(ports := s.ports[i := Opened(s.ports[i], Me(s), name)], log := s.log[i := PortLog([], [])])
  }

  ghost function TakeLetter(s: Sys, p: nat): Sys
    requires Shaped(s) && p < PORTS && s.ports[p].count > 0
  {
    s.(ports := s.ports[p := Dequeue(s.ports[p])],
       log := s.log[p := s.log[p].(received := s.log[p].received + [Open(s.ports[p].queue[s.ports[p].head])])])
  }

  predicate Accepts(s: Sys, dest: nat, size: nat) {
    dest < |s.ports| && s.ports[dest].inUse && size <= MAX_BODY && s.ports[dest].count < QUEUE
  }

  ghost function Deliver(s: Sys, dest: nat, x: Parcel): Sys
    requires Shaped(s) && Accepts(s, dest, x.size) && Readable(x)
  {
    var p := s.ports[dest];
    s.(ports := s.ports[dest := Enqueue(p, x)],
       log := s.log[dest := s.log[dest].(accepted := s.log[dest].accepted + [Open(Written(p.queue[p.tail], x))])],
       sched := Wake(s.sched, p.waiter))
  }

  ghost function Sleep(s: Sys, p: nat): Sys
    requires Shaped(s) && p < PORTS
  {
    var t := s.sched.current;
    s.(ports := s.ports[p := s.ports[p].(waiter := Some(t))], inRecv := s.inRecv[t := p],
       sched := Sched.Yield(SetState(s.sched, t, BLOCKED)))
  }

  ghost function Leave(s: Sys): Sys {
    s.(inRecv := s.inRecv - {s.sched.current})
  }

  ghost function Perform(s: Sys, c: Call): Sys
    requires Shaped(s) && CanDo(s, c)
  {
    match c
    case Timer => s.(sched := Schedule(s.sched))
    case YieldCpu => s.(sched := Sched.Yield(s.sched))
    case Spawn => s.(sched := Create(s.sched))
    case Kill(t) => s.(sched := SetState(s.sched, t, ZOMBIE))
    case CreatePort => OpenPort(s, [])
    case CreateNamed(name) =>
      if name.None? || FindFrom(s.ports, name.value, 0).Some? then s else OpenPort(s, Stored(name.value))
    case Destroy(p) =>
      if !Owns(s, p) then s
      else s.(sched := Wake(s.sched, s.ports[p].waiter), ports := s.ports[p := Closed(s.ports[p])])
    case Send(dest, r, k, data, size) =>
      if Accepts(s, dest, size) then Deliver(s, dest, Parcel(Me(s), r, k, data, size))
      else if dest < PORTS && s.ports[dest].inUse && size <= MAX_BODY then
        s.(ports := s.ports[dest := s.ports[dest].(drops := Wrap32(s.ports[dest].drops + 1))])
      else s
    case TryRecv(p) => if Owns(s, p) && s.ports[p].count > 0 then TakeLetter(s, p) else s
    case Recv(p) =>
      if !Owns(s, p) then s else if s.ports[p].count > 0 then TakeLetter(s, p) else Sleep(s, p)
    case Resume =>
      var p := s.inRecv[s.sched.current];
      if s.ports[p].count > 0 then TakeLetter(Leave(s), p) else Leave(s)
  }

  /** The value the call returns; a receive that blocks has not returned yet. */
  ghost function Reply(s: Sys, c: Call): int
    requires Shaped(s) && CanDo(s, c)
  {
    match c
    case CreatePort => (match FreeFrom(s.ports, 0) case None => -1 case Some(i) => i)
    case CreateNamed(name) =>
      if name.None? || FindFrom(s.ports, name.value, 0).Some? then -1
      else (match FreeFrom(s.ports, 0) case None => -1 case Some(i) => i)
    case Destroy(p) => if Owns(s, p) then 0 else -1
    case Send(dest, _, _, _, size) => if Accepts(s, dest, size) then 0 else -1
    case TryRecv(p) => if !Owns(s, p) then -1 else if s.ports[p].count == 0 then -2 else 0
    case Recv(p) => if Owns(s, p) then 0 else -1
    case Resume => if s.ports[s.inRecv[s.sched.current]].count > 0 then 0 else -1
    case _ => 0
  }

  // ---------------------------------------------------------------- the invariant

  /** The queue holds what was accepted and not yet received, and the counters count it. */
  ghost predicate PortOk(p: Port, l: PortLog) {
    && HasSlots(p)
    && (p.inUse ==> && QueueOk(p) && l.accepted == l.received + Waiting(p)
                    && p.totalSent == |l.accepted| % 0x1_0000_0000
                    && p.totalReceived == |l.received| % 0x1_0000_0000)
  }

  ghost predicate PortsOk(ports: seq<Port>, log: seq<PortLog>) {
    && |ports| == |log| == PORTS
    && (forall i | 0 <= i < PORTS :: PortOk(ports[i], log[i]))
  }

  /** A registered waiter means an empty queue, and the waiter owns the port. */
  ghost predicate WaiterOk(p: Port, tasks: seq<Task>) {
    p.waiter.Some? ==>
      p.inUse && p.count == 0 && p.waiter.value < |tasks| && tasks[p.waiter.value].pid == p.owner
  }

  ghost predicate WaitersOk(ports: seq<Port>, tasks: seq<Task>) {
    forall i | 0 <= i < |ports| :: WaiterOk(ports[i], tasks)
  }

  /** Whoever is inside ipc_recv owns the port it waits at. */
  ghost predicate ReceiversOk(ports: seq<Port>, inRecv: map<TaskId, nat>, tasks: seq<Task>) {
    forall t | t in inRecv ::
      t < |tasks| && inRecv[t] < |ports| && ports[inRecv[t]].inUse && ports[inRecv[t]].owner == tasks[t].pid
  }

  /** A BLOCKED task is inside ipc_recv and registered with the port it waits at. */
  ghost predicate BlockedOk(ports: seq<Port>, inRecv: map<TaskId, nat>, tasks: seq<Task>) {
    forall t | 0 <= t < |tasks| && tasks[t].state == BLOCKED ::
      t in inRecv && inRecv[t] < |ports| && ports[inRecv[t]].waiter == Some(t)
  }

  /** While its port is empty, whoever is inside ipc_recv stays registered there. */
  ghost predicate RegisteredOk(ports: seq<Port>, inRecv: map<TaskId, nat>) {
    forall t | t in inRecv && inRecv[t] < |ports| :: ports[inRecv[t]].count == 0 ==> ports[inRecv[t]].waiter == Some(t)
  }

  ghost predicate Coherent(s: Sys) {
    && Sched.Valid(s.sched)
    && PortsOk(s.ports, s.log)
    && WaitersOk(s.ports, s.sched.tasks)
    && ReceiversOk(s.ports, s.inRecv, s.sched.tasks)
    && BlockedOk(s.ports, s.inRecv, s.sched.tasks)
    && RegisteredOk(s.ports, s.inRecv)
    && PrefixFree(s.ports)
  }

  lemma InvShaped(s: Sys)
    requires Coherent(s)
    ensures Shaped(s)
  {
    Unfold(s.sched);
    forall i | 0 <= i < PORTS ensures HasSlots(s.ports[i]) {
      assert PortOk(s.ports[i], s.log[i]);
    }
  }

  // ---------------------------------------------------------------- steps of the scheduler

  /** Every task keeps its pid, and none is BLOCKED that was not. */
  ghost predicate Calm(before: seq<Task>, after: seq<Task>) {
    && |before| <= |after|
    && (forall t | 0 <= t < |before| :: after[t].pid == before[t].pid &&
                                        (after[t].state == BLOCKED ==> before[t].state == BLOCKED))
    && (forall t | |before| <= t < |after| :: after[t].state != BLOCKED)
  }

  lemma ScheduleCalm(st: State)
    requires Sched.Valid(st)
    ensures Calm(st.tasks, Schedule(st).tasks) && Calm(st.tasks, Sched.Yield(st).tasks)
  {
    hide SkipZombies, Rotate, IsRing, Pids, OneRuns, Slices;
    Unfold(st);
    CountValid(st);
    CountValid(Drain(st));
    if MustSwitch(CountTick(st)) { SwitchCalm(CountTick(st)); }
    SwitchCalm(CountTick(Drain(st)));
  }

  lemma SwitchCalm(st: State)
    requires st.ring != [] && InRange(st.ring, |st.tasks|) && st.current < |st.tasks|
    ensures Calm(st.tasks, Switch(st).tasks)
  {
    hide SkipZombies, Rotate;
  }

  lemma CalmKeeps(s: Sys, st: State)
    requires Coherent(s) && Sched.Valid(st) && Calm(s.sched.tasks, st.tasks)
    ensures Coherent(s.(sched := st))
  {
    hide Sched.Valid, PortOk, PrefixFree;
    var s' := s.(sched := st);
    forall i | 0 <= i < |s.ports| ensures WaiterOk(s'.ports[i], st.tasks) {
      assert WaiterOk(s.ports[i], s.sched.tasks);
    }
  }

  lemma WakeOk(s: Sys, t: Option<TaskId>)
    requires Coherent(s)
    ensures Coherent(s.(sched := Wake(s.sched, t)))
  {
    if t.Some? && t.value < |s.sched.tasks| {
      SetStateValid(s.sched, t.value, READY);
      CalmKeeps(s, Wake(s.sched, t));
    }
  }

  lemma CreateCalm(st: State)
    ensures Calm(st.tasks, Create(st).tasks)
  {
  }

  lemma SetStateCalm(st: State, t: TaskId, x: TaskState)
    requires t < |st.tasks| && x != BLOCKED
    ensures Calm(st.tasks, SetState(st, t, x).tasks)
  {
  }

  lemma SchedulerStep(s: Sys, c: Call)
    requires Coherent(s) && Shaped(s) && CanDo(s, c) && (c.Timer? || c.YieldCpu? || c.Spawn? || c.Kill?)
    ensures Coherent(Perform(s, c))
  {
    assert Sched.Valid(s.sched);
    hide Schedule, Sched.Yield, Create, SetState, Coherent, Calm, Sched.Valid, HasSlots;
    match c
    case Timer => ScheduleValid(s.sched); ScheduleCalm(s.sched); CalmKeeps(s, Schedule(s.sched));
    case YieldCpu => ScheduleValid(s.sched); ScheduleCalm(s.sched); CalmKeeps(s, Sched.Yield(s.sched));
    case Spawn => CreateValid(s.sched); CreateCalm(s.sched); CalmKeeps(s, Create(s.sched));
    case Kill(t) =>
      SetStateValid(s.sched, t, ZOMBIE);
      SetStateCalm(s.sched, t, ZOMBIE);
      CalmKeeps(s, SetState(s.sched, t, ZOMBIE));
  }

  // ---------------------------------------------------------------- steps on one port

  /** What has to hold of a new value of port p for the invariant to last. */
  ghost predicate Fits(s: Sys, p: nat, q: Port, l: PortLog)
    requires |s.ports| == PORTS && p < PORTS
  {
    && PortOk(q, l)
    && WaiterOk(q, s.sched.tasks)
    && |q.name| < NAME_MAX
    && (forall t | t in s.inRecv && s.inRecv[t] == p :: t < |s.sched.tasks| && q.inUse && q.owner == s.sched.tasks[t].pid)
    && (forall t | 0 <= t < |s.sched.tasks| && s.sched.tasks[t].state == BLOCKED && t in s.inRecv && s.inRecv[t] == p ::
          q.waiter == Some(t))
    && (q.count == 0 ==> forall t | t in s.inRecv && s.inRecv[t] == p :: q.waiter == Some(t))
  }

  lemma ReplacePort(s: Sys, p: nat, q: Port, l: PortLog)
    requires Coherent(s) && Shaped(s) && p < PORTS && Fits(s, p, q, l)
    requires PrefixFree(s.ports[p := q])
    ensures Coherent(s.(ports := s.ports[p := q], log := s.log[p := l]))
  {
    hide Sched.Valid, PortOk, PrefixFree;
    var s' := s.(ports := s.ports[p := q], log := s.log[p := l]);
    forall i | 0 <= i < PORTS ensures WaiterOk(s'.ports[i], s.sched.tasks) && PortOk(s'.ports[i], s'.log[i]) {
      assert WaiterOk(s.ports[i], s.sched.tasks);
    }
  }

  /** Names that stay or go do no harm. */
  lemma NamesStay(ports: seq<Port>, p: nat, q: Port)
    requires PrefixFree(ports) && p < |ports| && q.name == ports[p].name && (q.inUse ==> ports[p].inUse)
    ensures PrefixFree(ports[p := q])
  {
  }

  lemma PortFacts(s: Sys, p: nat)
    requires Coherent(s) && p < PORTS
    ensures |s.ports| == |s.log| == PORTS && Fits(s, p, s.ports[p], s.log[p])
  {
  }

  lemma OpenStep(s: Sys, name: Name)
    requires Coherent(s) && Shaped(s) && (name == [] || FindFrom(s.ports, name, 0) == None)
    ensures Coherent(OpenPort(s, Stored(name)))
  {
    match FreeFrom(s.ports, 0)
    case None =>
    case Some(i) =>
      PortFacts(s, i);
      OpenedOk(s.ports[i], Me(s), Stored(name));
      OpenedPrefixFree(s.ports, i, Me(s), name);
      hide Coherent, Contents, QueueOk, PrefixFree;
      ReplacePort(s, i, Opened(s.ports[i], Me(s), Stored(name)), PortLog([], []));
  }

  /** Only one task has the pid of the current one. */
  lemma PidsApart(s: Sys, t: TaskId)
    requires Coherent(s) && Shaped(s) && t < |s.sched.tasks| && s.sched.tasks[t].pid == Me(s)
    ensures t == s.sched.current
  {
  }

  ghost predicate NobodyIn(s: Sys, p: nat) {
    forall t | t in s.inRecv :: s.inRecv[t] != p
  }

  /** Nobody else is inside ipc_recv at a port of the current task's. */
  lemma OnlyMe(s: Sys, p: nat)
    requires Coherent(s) && Shaped(s) && Owns(s, p)
    ensures forall t | t in s.inRecv && s.inRecv[t] == p :: t == s.sched.current
    ensures s.sched.current !in s.inRecv ==> NobodyIn(s, p)
  {
    forall t | t in s.inRecv && s.inRecv[t] == p ensures t == s.sched.current {
      PidsApart(s, t);
    }
  }

  /** After the waiter of a port is woken, no BLOCKED task waits there. */
  lemma WokenPort(s: Sys, p: nat)
    requires Coherent(s) && Shaped(s) && p < PORTS
    ensures forall t | 0 <= t < |s.sched.tasks| && t in s.inRecv && s.inRecv[t] == p ::
              Wake(s.sched, s.ports[p].waiter).tasks[t].state != BLOCKED
  {
  }

  lemma ClosedFits(s: Sys, p: nat, q: Port, l: PortLog)
    requires |s.ports| == PORTS && p < PORTS && PortOk(q, l) && |q.name| < NAME_MAX
    requires NobodyIn(s, p)
    ensures Fits(s, p, Closed(q), l)
  {
  }

  lemma DestroyStep(s: Sys, p: nat)
    requires Coherent(s) && Shaped(s) && CanDo(s, Destroy(p)) && Owns(s, p)
    ensures Coherent(Perform(s, Destroy(p)))
  {
    var w := Wake(s.sched, s.ports[p].waiter);
    WakeOk(s, s.ports[p].waiter);
    WokenPort(s, p);
    PortFacts(s, p);
    var s1 := s.(sched := w);
    InvShaped(s1);
    OnlyMe(s, p);
    NamesStay(s.ports, p, Closed(s.ports[p]));
    ClosedFits(s1, p, s.ports[p], s.log[p]);
    hide Coherent, Fits, Closed, PrefixFree, Wake;
    ReplacePort(s1, p, Closed(s.ports[p]), s.log[p]);
    assert s.log[p := s.log[p]] == s.log;
  }

  lemma CountUp(n: nat)
    ensures (n + 1) % 0x1_0000_0000 == Wrap32(n % 0x1_0000_0000 + 1)
  {
  }

  /** The port and its history after the first letter was taken. */
  lemma TakenPort(q: Port, l: PortLog)
    requires PortOk(q, l) && q.inUse && q.count > 0
    ensures var l' := l.(received := l.received + [Open(q.queue[q.head])]);
            PortOk(Dequeue(q), l') && Dequeue(q).name == q.name && Dequeue(q).inUse
  {
    DequeueLetter(q, q.queue[q.head]);
    CountUp(|l.received|);
    hide QueueOk, Waiting, Open;
  }

  lemma TakeStep(s: Sys, p: nat)
    requires Coherent(s) && Shaped(s) && p < PORTS && s.ports[p].count > 0 && s.ports[p].inUse
    requires NobodyIn(s, p)
    ensures Coherent(TakeLetter(s, p))
  {
    var q, l := s.ports[p], s.log[p];
    var l' := l.(received := l.received + [Open(q.queue[q.head])]);
    PortFacts(s, p);
    TakenPort(q, l);
    NamesStay(s.ports, p, Dequeue(q));
    assert Fits(s, p, Dequeue(q), l') by { hide Coherent, PortOk, PrefixFree; }
    hide Coherent, Fits, Dequeue, PrefixFree;
    ReplacePort(s, p, Dequeue(q), l');
  }

  lemma DeliverStep(s: Sys, dest: nat, x: Parcel)
    requires Coherent(s) && Shaped(s) && Accepts(s, dest, x.size) && Readable(x)
    ensures Coherent(Deliver(s, dest, x))
  {
    var q, l := s.ports[dest], s.log[dest];
    var s1 := s.(sched := Wake(s.sched, q.waiter));
    WakeOk(s, q.waiter);
    WokenPort(s, dest);
    PortFacts(s, dest);
    PortFacts(s1, dest);
    InvShaped(s1);
    EnqueueLetter(q, x);
    CountUp(|l.accepted|);
    var l' := l.(accepted := l.accepted + [Open(Written(q.queue[q.tail], x))]);
    hide QueueOk, Waiting, Written, PrefixFree, Wake;
    assert l'.accepted == l'.received + Waiting(Enqueue(q, x));
    NamesStay(s.ports, dest, Enqueue(q, x));
    assert Fits(s1, dest, Enqueue(q, x), l') by { hide Coherent; }
    hide Coherent, Fits, Enqueue;
    ReplacePort(s1, dest, Enqueue(q, x), l');
  }

  lemma DropStep(s: Sys, dest: nat, n: uint32)
    requires Coherent(s) && Shaped(s) && dest < PORTS && s.ports[dest].inUse
    ensures Coherent(s.(ports := s.ports[dest := s.ports[dest].(drops := n)]))
  {
    var q := s.ports[dest].(drops := n);
    PortFacts(s, dest);
    assert Contents(q) == Contents(s.ports[dest]);
    NamesStay(s.ports, dest, q);
    hide Coherent, PrefixFree;
    assert Fits(s, dest, q, s.log[dest]);
    ReplacePort(s, dest, q, s.log[dest]);
    assert s.log[dest := s.log[dest]] == s.log;
  }

  lemma EnterRecv(s: Sys, p: nat)
    requires Coherent(s) && Shaped(s) && Owns(s, p) && s.sched.current !in s.inRecv
    requires s.ports[p].waiter == Some(s.sched.current)
    ensures Coherent(s.(inRecv := s.inRecv[s.sched.current := p]))
  {
    hide Sched.Valid, PortsOk, WaitersOk, PrefixFree;
  }

  lemma RegisterWaiter(s: Sys, p: nat)
    requires Coherent(s) && Shaped(s) && Owns(s, p) && s.ports[p].count == 0 && NobodyIn(s, p)
    ensures var q := s.ports[p].(waiter := Some(s.sched.current));
            Coherent(s.(ports := s.ports[p := q]))
  {
    var q := s.ports[p].(waiter := Some(s.sched.current));
    PortFacts(s, p);
    assert PortOk(q, s.log[p]) by { hide Coherent; assert s.ports[p].inUse; assert Contents(q) == Contents(s.ports[p]); }
    NamesStay(s.ports, p, q);
    hide Coherent, PortOk, PrefixFree;
    ReplacePort(s, p, q, s.log[p]);
    assert s.log[p := s.log[p]] == s.log;
  }

  lemma MarkBlocked(s: Sys, t: TaskId)
    requires Coherent(s) && t in s.inRecv && s.inRecv[t] < |s.ports| && s.ports[s.inRecv[t]].waiter == Some(t)
    requires t < |s.sched.tasks|
    ensures Coherent(s.(sched := SetState(s.sched, t, BLOCKED)))
  {
    SetStateValid(s.sched, t, BLOCKED);
    var st := SetState(s.sched, t, BLOCKED);
    hide Sched.Valid, PortsOk, PrefixFree;
    forall i | 0 <= i < |s.ports| ensures WaiterOk(s.ports[i], st.tasks) {
      assert WaiterOk(s.ports[i], s.sched.tasks);
    }
  }

  /** The state in which the receiver has marked itself BLOCKED and not yet given up the CPU. */
  lemma BlockStep(s: Sys, p: nat)
    requires Coherent(s) && Shaped(s) && s.sched.current !in s.inRecv && Owns(s, p) && s.ports[p].count == 0
    ensures var t := s.sched.current;
            Coherent(s.(ports := s.ports[p := s.ports[p].(waiter := Some(t))], inRecv := s.inRecv[t := p],
                   sched := SetState(s.sched, t, BLOCKED)))
  {
    var t := s.sched.current;
    OnlyMe(s, p);
    var s1 := s.(ports := s.ports[p := s.ports[p].(waiter := Some(t))]);
    RegisterWaiter(s, p);
    InvShaped(s1);
    hide Coherent, SetState, HasSlots, NobodyIn;
    EnterRecv(s1, p);
    MarkBlocked(s1.(inRecv := s.inRecv[t := p]), t);
  }

  lemma SleepStep(s: Sys, p: nat)
    requires Coherent(s) && Shaped(s) && s.sched.current !in s.inRecv && Owns(s, p) && s.ports[p].count == 0
    ensures Coherent(Sleep(s, p))
  {
    var t := s.sched.current;
    var s1 := s.(ports := s.ports[p := s.ports[p].(waiter := Some(t))], inRecv := s.inRecv[t := p],
                 sched := SetState(s.sched, t, BLOCKED));
    BlockStep(s, p);
    ScheduleValid(s1.sched);
    ScheduleCalm(s1.sched);
    hide Sched.Yield, PortsOk, ReceiversOk, WaitersOk, BlockedOk, PrefixFree, SetState;
    CalmKeeps(s1, Sched.Yield(s1.sched));
  }

  lemma LeaveStep(s: Sys)
    requires Inv(s) && Shaped(s)
    ensures Coherent(Leave(s)) && Shaped(Leave(s))
  {
    hide Sched.Valid, PortsOk, PrefixFree, HasSlots;
  }

  // ---------------------------------------------------------------- every run

  /** Between calls the current task is not BLOCKED. */
  predicate Awake(st: State) {
    st.current < |st.tasks| && st.tasks[st.current].state != BLOCKED
  }

  lemma SwitchAwake(st: State)
    requires st.ring != [] && InRange(st.ring, |st.tasks|) && st.current < |st.tasks|
    ensures Awake(Switch(st))
  {
    hide SkipZombies, Rotate;
  }

  lemma ScheduleAwake(st: State)
    requires Sched.Valid(st)
    ensures Awake(Schedule(st)) && Awake(Sched.Yield(st))
  {
    hide SkipZombies, Rotate, IsRing, Pids, OneRuns, Slices;
    Unfold(st);
    CountValid(st);
    CountValid(Drain(st));
    hide Switch;
    if MustSwitch(CountTick(st)) { SwitchAwake(CountTick(st)); }
    SwitchAwake(CountTick(Drain(st)));
  }

  ghost predicate Inv(s: Sys) {
    Coherent(s) && Awake(s.sched)
  }

  lemma StepAwake(s: Sys, c: Call)
    requires Inv(s) && Shaped(s) && CanDo(s, c)
    ensures Awake(Perform(s, c).sched)
  {
    assert Sched.Valid(s.sched);
    hide Coherent, Sched.Valid, Schedule, Sched.Yield, HasSlots;
    match c
    case Timer => ScheduleAwake(s.sched);
    case YieldCpu => ScheduleAwake(s.sched);
    case Recv(p) =>
      if Owns(s, p) && s.ports[p].count == 0 {
        SetStateValid(s.sched, s.sched.current, BLOCKED);
        ScheduleAwake(SetState(s.sched, s.sched.current, BLOCKED));
      }
    case _ =>
  }

  lemma StepCoherent(s: Sys, c: Call)
    requires Inv(s) && Shaped(s) && CanDo(s, c)
    ensures Coherent(Perform(s, c))
  {
    hide Coherent, OpenPort, TakeLetter, Deliver, Sleep, Leave, HasSlots;
    match c
    case CreatePort => OpenStep(s, []);
    case CreateNamed(name) =>
      if name.Some? && FindFrom(s.ports, name.value, 0).None? { OpenStep(s, name.value); }
    case Destroy(p) => if Owns(s, p) { DestroyStep(s, p); }
    case Send(dest, r, k, data, size) =>
      if Accepts(s, dest, size) {
        DeliverStep(s, dest, Parcel(Me(s), r, k, data, size));
      } else if dest < PORTS && s.ports[dest].inUse && size <= MAX_BODY {
        DropStep(s, dest, Wrap32(s.ports[dest].drops + 1));
      }
    case TryRecv(p) => if Owns(s, p) && s.ports[p].count > 0 { OnlyMe(s, p); TakeStep(s, p); }
    case Recv(p) =>
      if Owns(s, p) {
        OnlyMe(s, p);
        if s.ports[p].count > 0 { TakeStep(s, p); } else { SleepStep(s, p); }
      }
    case Resume =>
      ResumeStillOwns(s);
      LeaveStep(s);
      var p := s.inRecv[s.sched.current];
      OnlyMe(s, p);
      if s.ports[p].count > 0 { LeaveFacts(s, p); TakeStep(Leave(s), p); }
    case _ => SchedulerStep(s, c);
  }

  lemma LeaveFacts(s: Sys, p: nat)
    requires forall t | t in s.inRecv && s.inRecv[t] == p :: t == s.sched.current
    ensures Leave(s).ports == s.ports && Leave(s).log == s.log && NobodyIn(Leave(s), p)
  {
  }

  /** Every kernel call keeps the invariant. */
  lemma StepInv(s: Sys, c: Call)
    requires Inv(s) && Shaped(s) && CanDo(s, c)
    ensures Inv(Perform(s, c)) && Shaped(Perform(s, c))
  {
    StepCoherent(s, c);
    StepAwake(s, c);
    hide *;
    InvShaped(Perform(s, c));
  }

  /** The receive that resumes works on a live port of its own, although it checks neither again. */
  lemma ResumeStillOwns(s: Sys)
    requires Inv(s) && Shaped(s) && CanDo(s, Resume)
    ensures Owns(s, s.inRecv[s.sched.current])
  {
  }

  /** A receive comes back empty exactly if its task is still registered at the port: no message came since. */
  lemma EmptyResume(s: Sys)
    requires Inv(s) && Shaped(s) && CanDo(s, Resume)
    ensures Reply(s, Resume) == -1 <==> s.ports[s.inRecv[s.sched.current]].waiter == Some(s.sched.current)
  {
    var p := s.inRecv[s.sched.current];
    assert WaiterOk(s.ports[p], s.sched.tasks);
    hide Sched.Valid, PortsOk, WaitersOk, BlockedOk, PrefixFree;
  }

  /** ipc_init after task_init; the message slots may hold anything. */
  ghost predicate Booted(s: Sys) {
    && s.sched == State([Task(0, RUNNING, TIME_SLICE, 0, 0)], [0], 0, 0, 1)
    && |s.ports| == |s.log| == PORTS
    && (forall i | 0 <= i < PORTS ::
          !s.ports[i].inUse && s.ports[i].name == [] && s.ports[i].waiter == None && HasSlots(s.ports[i]))
    && s.inRecv == map[]
  }

  lemma BootInv(s: Sys)
    requires Booted(s)
    ensures Inv(s)
  {
  }

  ghost predicate Happens(s: Sys, cs: seq<Call>)
    requires Inv(s) && Shaped(s)
    decreases cs
  {
    cs == [] || (CanDo(s, cs[0]) && (StepInv(s, cs[0]); Happens(Perform(s, cs[0]), cs[1..])))
  }

  /** Any interleaving of kernel calls and interrupts: the invariant holds throughout. */
  ghost function Run(s: Sys, cs: seq<Call>): (r: Sys)
    requires Inv(s) && Shaped(s) && Happens(s, cs)
    ensures Inv(r) && Shaped(r)
    decreases cs
  {
    if cs == [] then s else (StepInv(s, cs[0]); Run(Perform(s, cs[0]), cs[1..]))
  }

  /** No wakeup is lost: whoever is BLOCKED waits at a live port of its own, is registered there, and
      nothing is queued. */
  lemma NoLostWakeup(s: Sys, cs: seq<Call>, t: TaskId)
    requires Inv(s) && Shaped(s) && Happens(s, cs)
    requires t < |Run(s, cs).sched.tasks| && Run(s, cs).sched.tasks[t].state == BLOCKED
    ensures var r := Run(s, cs);
            t in r.inRecv &&
            var p := r.ports[r.inRecv[t]];
            p.inUse && p.owner == r.sched.tasks[t].pid && p.waiter == Some(t) && p.count == 0
  {
    var r := Run(s, cs);
    hide Run, Happens, Sched.Valid, PortsOk;
    assert BlockedOk(r.ports, r.inRecv, r.sched.tasks);
    assert WaiterOk(r.ports[r.inRecv[t]], r.sched.tasks);
  }

  /** An accepted message makes the waiting task READY and takes it off the port. */
  lemma SendWakes(s: Sys, c: Call, t: TaskId)
    requires Inv(s) && Shaped(s) && c.Send? && CanDo(s, c) && Reply(s, c) == 0 && s.ports[c.dest].waiter == Some(t)
    ensures t < |s.sched.tasks| && Perform(s, c).sched.tasks[t].state == READY
    ensures Perform(s, c).ports[c.dest].waiter == None && Perform(s, c).ports[c.dest].count == 1
  {
    assert WaiterOk(s.ports[c.dest], s.sched.tasks);
  }

  /** A port that is in use delivers what it accepted, in order and once: what was received is the first
      part of what was accepted and the queue is the rest, 16 letters at most. */
  lemma Fifo(s: Sys, cs: seq<Call>, p: nat)
    requires Inv(s) && Shaped(s) && Happens(s, cs) && p < PORTS && Run(s, cs).ports[p].inUse
    ensures var r := Run(s, cs);
            var q, l := r.ports[p], r.log[p];
            && QueueOk(q) && l.accepted == l.received + Waiting(q)
            && |Waiting(q)| == q.count <= QUEUE
            && q.totalSent == |l.accepted| % 0x1_0000_0000 && q.totalReceived == |l.received| % 0x1_0000_0000
  {
    var r := Run(s, cs);
    hide Run, Happens, Sched.Valid, WaitersOk, BlockedOk, ReceiversOk, PrefixFree;
    assert PortOk(r.ports[p], r.log[p]);
  }

  /** In the run, the owner of port p does not destroy it. */
  ghost predicate Survives(s: Sys, cs: seq<Call>, p: nat)
    requires Inv(s) && Shaped(s) && Happens(s, cs)
    decreases cs
  {
    cs == [] || (!(cs[0] == Destroy(p) && Owns(s, p)) &&
                 (StepInv(s, cs[0]); Survives(Perform(s, cs[0]), cs[1..], p)))
  }

  /** s' has the same port p as s, and its history only grew. */
  ghost predicate SamePort(s: Sys, s': Sys, p: nat)
    requires Shaped(s) && Shaped(s') && p < PORTS
  {
    && s'.ports[p].inUse == s.ports[p].inUse && s'.ports[p].name == s.ports[p].name
    && s'.ports[p].owner == s.ports[p].owner
    && s.log[p].accepted <= s'.log[p].accepted && s.log[p].received <= s'.log[p].received
  }

  lemma StepSamePort(s: Sys, c: Call, p: nat)
    requires Inv(s) && Shaped(s) && CanDo(s, c) && p < PORTS && s.ports[p].inUse
    requires !(c == Destroy(p) && Owns(s, p))
    ensures Shaped(Perform(s, c)) && SamePort(s, Perform(s, c), p)
  {
    StepInv(s, c);
    StepOnPorts(s, c, p);
  }

  lemma StepOnPorts(s: Sys, c: Call, p: nat)
    requires Inv(s) && Shaped(s) && CanDo(s, c) && p < PORTS && s.ports[p].inUse && Shaped(Perform(s, c))
    requires !(c == Destroy(p) && Owns(s, p))
    ensures SamePort(s, Perform(s, c), p)
  {
    hide Inv, HasSlots, Schedule, Sched.Yield, SetState, Create, InRange, Wake;
    if c.Send? {
      hide Enqueue, Written;
      if Accepts(s, c.dest, c.size) { EnqueueKeeps(s.ports[c.dest], Parcel(Me(s), c.replyTo, c.kind, c.data, c.size)); }
    } else {
      hide Deliver, Accepts;
    }
  }

  lemma EnqueueKeeps(q: Port, x: Parcel)
    requires HasSlots(q) && x.size <= MAX_BODY && Readable(x)
    ensures Enqueue(q, x).inUse == q.inUse && Enqueue(q, x).name == q.name && Enqueue(q, x).owner == q.owner
  {
  }

  /** Nobody but its owner takes a port away, renames it, hands it over or changes its history. */
  lemma {:induction false} PortLasts(s: Sys, cs: seq<Call>, p: nat)
    requires Inv(s) && Shaped(s) && Happens(s, cs) && p < PORTS && s.ports[p].inUse && Survives(s, cs, p)
    ensures SamePort(s, Run(s, cs), p)
    decreases cs
  {
    if cs != [] {
      hide Inv, Perform, Shaped, CanDo;
      StepInv(s, cs[0]);
      StepSamePort(s, cs[0], p);
      PortLasts(Perform(s, cs[0]), cs[1..], p);
    }
  }

  /** A port created under a non-empty name is what ipc_find_port returns for that name in every later state,
      until its owner destroys it; also for names too long to be stored whole. */
  lemma NamedPortIsFound(s: Sys, name: Name, cs: seq<Call>)
    requires Inv(s) && Shaped(s) && name != [] && CanDo(s, CreateNamed(Some(name)))
    requires 0 <= Reply(s, CreateNamed(Some(name))) < PORTS
    requires var s1 := Perform(s, CreateNamed(Some(name)));
             Inv(s1) && Shaped(s1) && Happens(s1, cs) && Survives(s1, cs, Reply(s, CreateNamed(Some(name))))
    ensures FindFrom(Run(Perform(s, CreateNamed(Some(name))), cs).ports, name, 0)
            == Some(Reply(s, CreateNamed(Some(name))) as nat)
  {
    var c := CreateNamed(Some(name));
    var s1, i := Perform(s, c), Reply(s, c);
    assert s1.ports[i].inUse && s1.ports[i].name == Stored(name) && Stored(name) != [];
    hide Perform, Reply, Sched.Valid, PortsOk, WaitersOk, BlockedOk, ReceiversOk, Happens, Run, Survives;
    PortLasts(s1, cs, i);
    NameFindsItsPort(Run(s1, cs).ports, i, name);
  }

  /** The letters that call c adds to port p. */
  ghost function Posted(s: Sys, c: Call, p: nat): seq<Letter>
    requires Shaped(s) && CanDo(s, c)
  {
    if c.Send? && c.dest == p && Accepts(s, p, c.size) then
      var q := s.ports[p];
      [Open(Written(q.queue[q.tail], Parcel(Me(s), c.replyTo, c.kind, c.data, c.size)))]
    else []
  }

  /** The letters that a run adds to port p. */
  ghost function Posts(s: Sys, cs: seq<Call>, p: nat): seq<Letter>
    requires Inv(s) && Shaped(s) && Happens(s, cs)
    decreases cs
  {
    if cs == [] then [] else (StepInv(s, cs[0]); Posted(s, cs[0], p) + Posts(Perform(s, cs[0]), cs[1..], p))
  }

  /** Task t does not leave ipc_recv in the run. */
  ghost predicate StaysIn(s: Sys, cs: seq<Call>, t: TaskId)
    requires Inv(s) && Shaped(s) && Happens(s, cs)
    decreases cs
  {
    cs == [] || (!(cs[0] == Resume && s.sched.current == t) &&
                 (StepInv(s, cs[0]); StaysIn(Perform(s, cs[0]), cs[1..], t)))
  }

  /** Task t is inside ipc_recv at port p, which accepted these letters and delivered those. */
  ghost predicate Receiving(s: Sys, t: TaskId, p: nat, accepted: seq<Letter>, received: seq<Letter>) {
    && |s.ports| == |s.log| == PORTS && p < PORTS
    && t in s.inRecv && s.inRecv[t] == p && s.ports[p].inUse && s.log[p] == PortLog(accepted, received)
  }

  /** Whatever is called, a task inside ipc_recv stays there with its port, which nobody else takes from. */
  lemma StepReceiving(s: Sys, c: Call, t: TaskId, p: nat, accepted: seq<Letter>, received: seq<Letter>)
    requires Inv(s) && Shaped(s) && CanDo(s, c) && !(c == Resume && s.sched.current == t)
    requires Receiving(s, t, p, accepted, received)
    ensures Receiving(Perform(s, c), t, p, accepted + Posted(s, c, p), received)
  {
    assert s.sched.current < |s.sched.tasks|;
    assert accepted + [] == accepted;
    if Owns(s, p) { OnlyMe(s, p); }
    if c == Resume { ResumeStillOwns(s); }
    hide Inv, HasSlots;
    if c.Send? {
      SendReceiving(s, c, t, p, accepted, received);
    } else {
      OthersReceiving(s, c, t, p, accepted, received);
    }
  }

  lemma SendReceiving(s: Sys, c: Call, t: TaskId, p: nat, accepted: seq<Letter>, received: seq<Letter>)
    requires Shaped(s) && CanDo(s, c) && c.Send? && Receiving(s, t, p, accepted, received)
    ensures Receiving(Perform(s, c), t, p, accepted + Posted(s, c, p), received)
  {
    hide InRange, Wake, Enqueue, Written;
    assert accepted + [] == accepted;
    if Accepts(s, c.dest, c.size) {
      EnqueueKeeps(s.ports[c.dest], Parcel(Me(s), c.replyTo, c.kind, c.data, c.size));
    }
  }

  lemma OthersReceiving(s: Sys, c: Call, t: TaskId, p: nat, accepted: seq<Letter>, received: seq<Letter>)
    requires Shaped(s) && CanDo(s, c) && !c.Send? && Receiving(s, t, p, accepted, received)
    requires Owns(s, p) ==> t == s.sched.current
    requires c == Resume ==> s.sched.current != t && Owns(s, s.inRecv[s.sched.current])
    ensures Receiving(Perform(s, c), t, p, accepted, received)
  {
    hide InRange, HasSlots, Wake, SetState, Matches;
  }

  lemma {:induction false} RunReceiving(s: Sys, cs: seq<Call>, t: TaskId, p: nat, accepted: seq<Letter>,
          received: seq<Letter>)
    requires Inv(s) && Shaped(s) && Happens(s, cs) && StaysIn(s, cs, t) && Receiving(s, t, p, accepted, received)
    ensures Receiving(Run(s, cs), t, p, accepted + Posts(s, cs, p), received)
    decreases cs
  {
    hide Inv, Perform, Shaped, CanDo, Receiving, Posted;
    if cs == [] {
      assert accepted + [] == accepted;
    } else {
      var c := cs[0];
      StepInv(s, c);
      StepReceiving(s, c, t, p, accepted, received);
      var s1, more := Perform(s, c), Posted(s, c, p);
      RunReceiving(s1, cs[1..], t, p, accepted + more, received);
      assert accepted + more + Posts(s1, cs[1..], p) == accepted + (more + Posts(s1, cs[1..], p));
    }
  }

  /** A receive that blocks and later resumes, with any calls in between: it succeeds exactly if a message was
      accepted for its port meanwhile, and then it delivers the first such message. */
  lemma BlockedReceive(s: Sys, p: nat, cs: seq<Call>)
    requires Inv(s) && Shaped(s) && CanDo(s, Recv(p)) && Owns(s, p) && s.ports[p].count == 0
    requires var s1 := Perform(s, Recv(p));
             Inv(s1) && Shaped(s1) && Happens(s1, cs) && StaysIn(s1, cs, s.sched.current)
    requires var r := Run(Perform(s, Recv(p)), cs); r.sched.current == s.sched.current
    ensures var posts := Posts(Perform(s, Recv(p)), cs, p);
            var r := Run(Perform(s, Recv(p)), cs);
            && CanDo(r, Resume)
            && (Reply(r, Resume) == 0 <==> posts != [])
            && (Reply(r, Resume) == -1 <==> posts == [])
            && Perform(r, Resume).log[p].received == s.log[p].received + if posts == [] then [] else [posts[0]]
  {
    var t, s1 := s.sched.current, Perform(s, Recv(p));
    var l := s.log[p];
    hide Perform, Inv, Shaped, Owns, Receiving;
    BeginReceive(s, p);
    RunReceiving(s1, cs, t, p, l.received, l.received);
    ResumeReceives(Run(s1, cs), p, l.received, Posts(s1, cs, p));
  }

  lemma BeginReceive(s: Sys, p: nat)
    requires Inv(s) && Shaped(s) && CanDo(s, Recv(p)) && Owns(s, p) && s.ports[p].count == 0
    ensures p < |s.log|
    ensures Receiving(Perform(s, Recv(p)), s.sched.current, p, s.log[p].received, s.log[p].received)
  {
    assert PortOk(s.ports[p], s.log[p]);
    NothingWaits(s.ports[p]);
    hide Inv, Sched.Yield, SetState, HasSlots;
  }

  lemma NothingWaits(q: Port)
    requires QueueOk(q) && q.count == 0
    ensures Waiting(q) == []
  {
  }

  /** What the task inside ipc_recv gets when it goes on. */
  lemma ResumeReceives(r: Sys, p: nat, received: seq<Letter>, posts: seq<Letter>)
    requires Inv(r) && Shaped(r) && Receiving(r, r.sched.current, p, received + posts, received)
    ensures CanDo(r, Resume) && (Reply(r, Resume) == 0 <==> posts != []) && (Reply(r, Resume) == -1 <==> posts == [])
    ensures |Perform(r, Resume).log| == PORTS
    ensures Perform(r, Resume).log[p].received == received + if posts == [] then [] else [posts[0]]
  {
    var q := r.ports[p];
    assert PortOk(q, r.log[p]);
    assert received + posts == received + Waiting(q);
    assert posts == (received + posts)[|received|..] == Waiting(q);
    hide Inv, PortOk;
    if q.count > 0 { DequeueLetter(q, q.queue[q.head]); }
  }

  /** When a resumed receive finds nothing its port is alive all the same: the state in which the only live
      task waits at its own port leads there. */
  lemma AloneWakesEmpty(s: Sys, p: nat)
    requires Inv(s) && Shaped(s) && CanDo(s, Recv(p)) && Owns(s, p) && s.ports[p].count == 0
    requires |s.sched.tasks| <= MAX_SKIPS && s.sched.tasks[s.sched.current].state != ZOMBIE
    requires forall t | 0 <= t < |s.sched.tasks| && t != s.sched.current :: s.sched.tasks[t].state == ZOMBIE
    ensures var s1 := Perform(s, Recv(p));
            && Shaped(s1) && CanDo(s1, Resume) && Reply(s1, Resume) == -1
            && s1.sched.current == s.sched.current && s1.sched.tasks[s1.sched.current].state == READY
            && Perform(s1, Resume).ports[p].inUse
            && Perform(s1, Resume).ports[p].waiter == Some(s.sched.current)
  {
    StepInv(s, Recv(p));
    var t := s.sched.current;
    SetStateValid(s.sched, t, BLOCKED);
    AloneKeepsCpu(SetState(s.sched, t, BLOCKED));
  }

  lemma AloneKeepsCpu(st: State)
    requires Sched.Valid(st) && |st.tasks| <= MAX_SKIPS && st.tasks[st.current].state != ZOMBIE
    requires forall t | 0 <= t < |st.tasks| && t != st.current :: st.tasks[t].state == ZOMBIE
    ensures Sched.Yield(st).current == st.current && Sched.Yield(st).tasks[st.current].state == READY
  {
    var st1 := CountTick(Drain(st));
    Unfold(st);
    CountValid(st);
    CountValid(Drain(st));
    InRing(st, st.current);
    var k := Position(st.ring, st.current);
    forall i | 0 <= i < k ensures st1.tasks[st1.ring[i]].state == ZOMBIE {
      assert st.ring[i] in st.ring[..k];
    }
    hide SkipZombies, Sched.Valid, Position;
    SkipFindsFirstLive(st1.tasks, st1.ring, MAX_SKIPS, k);
  }
}
