/** The block-device client, the ATA driver and everything else that runs, on the kernel: the steps of the
    programs with what the kernel answers them, the proof that every run is one of module BlkProtocol, and what
    that means for the calls. */
module BlkSystem {
  import opened Common
  import opened Tasks
  import Ipc
  import Kernel
  import Sched
  import opened BlkProtocol
  import opened BlkClient
  import opened BlkOverIpc

  /** The kernel and the variables of the two programs: the client's request counter and the calls in progress,
      the driver's request in work with the port to answer to, and the disk. `jobs` and `settled` are histories. */
  datatype World = World(k: Kernel.Sys, nextId: nat, calls: map<TaskId, Request>, job: Option<Job>, answerTo: uint32,
                         disk: Disk, jobs: seq<Job>, settled: seq<Settled>)

  /** Ask and Await are the two halves of a client call of the current task, Wakened the end of an ipc_recv that
      blocked; the driver likewise. Else is any other kernel call, timer tick or kill. */
  datatype Step =
    | Ask(op: uint32, drive: uint32, lba: uint32, count: uint32, buffer: uint32)
    | Await
    | Wakened
    | DriverWaits
    | DriverWakened
    | Operate(ok: bool, data: Sector)
    | Reply
    | Else(c: Kernel.Call)

  ghost predicate Sound(w: World, dp: nat, cp: uint32) {
    && Kernel.Inv(w.k) && Kernel.Shaped(w.k) && dp < Ipc.PORTS && cp < Ipc.PORTS && dp != cp
    && w.k.ports[dp].inUse && w.k.ports[cp].inUse
  }

  /** Only the client functions and the driver use the two ports, in the order of their code; the driver's name
      leads to its port. */
  ghost predicate CanStep(w: World, st: Step, dp: nat, cp: uint32)
    requires Sound(w, dp, cp)
  {
    var me := w.k.sched.current;
    match st
    case Ask(_, _, _, _, _) =>
      me !in w.k.inRecv && me !in w.calls && w.nextId < WORD && Ipc.FindFrom(w.k.ports, DRIVER_NAME, 0) == Some(dp)
    case Await => me !in w.k.inRecv && me in w.calls
    case Wakened => me in w.k.inRecv && w.k.inRecv[me] == cp
    case DriverWaits => me !in w.k.inRecv && Kernel.Owns(w.k, dp) && w.job.None?
    case DriverWakened => me in w.k.inRecv && w.k.inRecv[me] == dp
    case Operate(ok, _) => Kernel.Owns(w.k, dp) && w.job.Some? && Possible(w.job.value, w.disk, ok)
    case Reply => Kernel.Owns(w.k, dp) && w.job.Some? && w.job.value.over
    case Else(c) => Kernel.CanDo(w.k, c) && Quiet(w.k, c, dp) && Quiet(w.k, c, cp)
  }

  /** The kernel call of the step, if it makes one. */
  ghost function CallOf(w: World, st: Step, dp: nat, cp: uint32): (c: Option<Kernel.Call>)
    requires Sound(w, dp, cp) && CanStep(w, st, dp, cp)
    ensures c.Some? ==> Kernel.CanDo(w.k, c.value)
  {
    match st
    case Ask(_, _, _, _, _) => Some(RequestMessage(dp, cp, NewRequest(w, st)))
    case Await => Some(Kernel.Recv(cp))
    case Wakened => Some(Kernel.Resume)
    case DriverWaits => Some(Kernel.Recv(dp))
    case DriverWakened => Some(Kernel.Resume)
    case Operate(_, _) => None
    case Reply => Some(ResponseMessage(w.answerTo, OnWireResponse(ResponseTo(w.job.value))))
    case Else(c) => Some(c)
  }

  function NewRequest(w: World, st: Step): Request
    requires st.Ask?
  {
    Request(w.nextId, st.op, st.drive, st.lba, st.count, st.buffer)
  }

  /** The id as the 32 bits of the message hold it. */
  function OnWireResponse(r: Response): (r': Response)
    ensures r'.id < WORD && (r.id < WORD ==> r' == r)
  {
    r.(id := r.id % 0x1_0000_0000)
  }

  /** How the client judges the letter it received. */
  ghost function JudgeLetter(req: Request, l: Ipc.Letter): Outcome {
    if |l.body| < RESPONSE_SIZE then Failed else Judge(req, DecodeResponse(l.body))
  }

  /** The current task's call ends with the letter received, or without one. */
  ghost function Settle(w: World, l: Option<Ipc.Letter>): World {
    var me := w.k.sched.current;
    if me !in w.calls then w
    else
      var o := if l.None? then Failed else JudgeLetter(w.calls[me], l.value);
      w.(calls := w.calls - {me}, settled := w.settled + [Settled(w.calls[me], o)])
  }

  /** What the driver does with the letter it received: one that is too short is ignored. */
  ghost function Accept(w: World, l: Ipc.Letter): World {
    if |l.body| < REQUEST_SIZE then w else w.(job := Some(Begin(DecodeRequest(l.body))), answerTo := l.replyTo)
  }

  /** The programs' variables after the step, the kernel being as it was. */
  ghost function Programs(w: World, st: Step, dp: nat, cp: uint32): World
    requires Sound(w, dp, cp) && CanStep(w, st, dp, cp)
  {
    var k := w.k;
    var me := k.sched.current;
    match st
    case Ask(_, _, _, _, _) =>
      var req := NewRequest(w, st);
      if Kernel.Reply(k, RequestMessage(dp, cp, req)) != 0 then
        w.(nextId := w.nextId + 1, settled := w.settled + [Settled(req, NotSent)])
      else w.(nextId := w.nextId + 1, calls := w.calls[me := req])
    case Await =>
      if Kernel.Reply(k, Kernel.Recv(cp)) != 0 then Settle(w, None)
      else if k.ports[cp].count == 0 then w
      else Settle(w, Some(FirstLetter(k, cp)))
    case Wakened =>
      Settle(w, if Kernel.Reply(k, Kernel.Resume) != 0 then None else Some(FirstLetter(k, cp)))
    case DriverWaits => if k.ports[dp].count == 0 then w else Accept(w, FirstLetter(k, dp))
    case DriverWakened => if Kernel.Reply(k, Kernel.Resume) != 0 then w else Accept(w, FirstLetter(k, dp))
    case Operate(ok, data) =>
      var j := w.job.value;
      w.(job := Some(Advance(j, w.disk, ok, data)), disk := DiskAfter(j, w.disk, ok, data))
    case Reply => w.(job := None, jobs := w.jobs + [w.job.value])
    case Else(_) => w
  }

  ghost function Next(w: World, st: Step, dp: nat, cp: uint32): World
    requires Sound(w, dp, cp) && CanStep(w, st, dp, cp)
  {
    var c := CallOf(w, st, dp, cp);
    Programs(w, st, dp, cp).(k := if c.None? then w.k else Kernel.Perform(w.k, c.value))
  }

  // ---------------------------------------------------------------- the protocol behind it

  ghost predicate SameVars(w: World, b: Sys) {
    && b.nextId == w.nextId && b.calls == w.calls && b.running == w.job && b.disk == w.disk && b.jobs == w.jobs
    && b.settled == w.settled
  }

  ghost predicate OwnerOk(k: Kernel.Sys, p: nat, t: TaskId) {
    p < |k.ports| && t < |k.sched.tasks| && k.sched.tasks[t].pid == k.ports[p].owner
  }

  ghost predicate JobOk(w: World, cp: uint32) {
    w.job.Some? ==> w.answerTo == cp && w.job.value.req.id < WORD
  }

  /** Whoever waits at the client's port is in a call, and the driver waits only between requests. */
  ghost predicate WaitersOk(inRecv: map<TaskId, nat>, calls: map<TaskId, Request>, busy: bool, dp: nat, cp: uint32) {
    && (forall t | t in inRecv && inRecv[t] == cp :: t in calls)
    && (busy ==> forall t | t in inRecv :: inRecv[t] != dp)
  }

  /** A state of the protocol for this state of the system: the same variables, and the two queues are what waits
      at the ports. */
  ghost predicate Sim(w: World, b: Sys, dp: nat, cp: uint32) {
    && Carries(w.k, b, dp, cp) && SameVars(w, b) && OwnerOk(w.k, cp, b.owner) && JobOk(w, cp)
    && WaitersOk(w.k.inRecv, w.calls, w.job.Some?, dp, cp)
  }

  /** The fields of the protocol's state that the ports carry. */
  lemma SameQueues(k: Kernel.Sys, b: Sys, b': Sys, dp: nat, cp: uint32)
    requires Carries(k, b, dp, cp) && b'.toDriver == b.toDriver && b'.toClient == b.toClient
    ensures Carries(k, b', dp, cp)
  {
  }

  // ---------------------------------------------------------------- kernel facts

  lemma PidsKept(k: Kernel.Sys, c: Kernel.Call, t: TaskId)
    requires Kernel.Inv(k) && Kernel.Shaped(k) && Kernel.CanDo(k, c) && t < |k.sched.tasks|
    ensures var k' := Kernel.Perform(k, c); t < |k'.sched.tasks| && k'.sched.tasks[t].pid == k.sched.tasks[t].pid
  {
    assert Sched.Valid(k.sched);
    hide Kernel.Inv, Kernel.Coherent, Sched.Valid, Sched.Schedule, Sched.Yield, Ipc.HasSlots, Ipc.Enqueue;
    match c
    case Timer => Kernel.ScheduleCalm(k.sched);
    case YieldCpu => Kernel.ScheduleCalm(k.sched);
    case Recv(p) =>
      if Kernel.Owns(k, p) && k.ports[p].count == 0 {
        Sched.SetStateValid(k.sched, k.sched.current, BLOCKED);
        Kernel.ScheduleCalm(Sched.SetState(k.sched, k.sched.current, BLOCKED));
      }
    case _ =>
  }

  /** A port keeps its owner. */
  lemma OwnerKept(k: Kernel.Sys, c: Kernel.Call, p: nat, t: TaskId)
    requires Kernel.Inv(k) && Kernel.Shaped(k) && Kernel.CanDo(k, c) && p < Ipc.PORTS && k.ports[p].inUse
    requires OwnerOk(k, p, t) && !(c == Kernel.Destroy(p) && Kernel.Owns(k, p))
    ensures OwnerOk(Kernel.Perform(k, c), p, t)
  {
    Kernel.StepSamePort(k, c, p);
    PidsKept(k, c, t);
  }

  /** Who is inside ipc_recv after the call. */
  lemma InRecvAfter(k: Kernel.Sys, c: Kernel.Call)
    requires Kernel.Shaped(k) && Kernel.CanDo(k, c)
    ensures Kernel.Perform(k, c).inRecv ==
            match c
            case Recv(p) =>
              if Kernel.Owns(k, p) && k.ports[p].count == 0 then k.inRecv[k.sched.current := p] else k.inRecv
            case Resume => k.inRecv - {k.sched.current}
            case _ => k.inRecv
  {
    hide Ipc.HasSlots, Sched.Schedule, Sched.Yield, Sched.SetState, Sched.Create, Kernel.Wake, Ipc.Enqueue, Ipc.Written,
      Ipc.Dequeue, Ipc.Matches, Ipc.Opened;
  }

  /** Only the task that a port belongs to owns it. */
  lemma OwnerIs(k: Kernel.Sys, p: nat, t: TaskId)
    requires Kernel.Inv(k) && Kernel.Shaped(k) && p < Ipc.PORTS && k.ports[p].inUse
    requires OwnerOk(k, p, t)
    ensures Kernel.Owns(k, p) <==> k.sched.current == t
  {
    if Kernel.Owns(k, p) { Kernel.PidsApart(k, t); }
  }

  /** Blocking at an empty port, and going on with nothing there, leave what the ports carry. */
  lemma BlockKeeps(k: Kernel.Sys, b: Sys, dp: nat, cp: uint32, p: nat)
    requires Carries(k, b, dp, cp) && (p == dp || p == cp) && k.sched.current !in k.inRecv
    requires Kernel.Owns(k, p) && k.ports[p].count == 0
    ensures Carries(Kernel.Perform(k, Kernel.Recv(p)), b, dp, cp)
  {
    var q := k.ports[p].(waiter := Some(k.sched.current));
    Kernel.StepInv(k, Kernel.Recv(p));
    assert Ipc.QueueOk(q) && Ipc.Contents(q) == Ipc.Contents(k.ports[p]) && Ipc.Waiting(q) == Ipc.Waiting(k.ports[p]);
    assert Kernel.Perform(k, Kernel.Recv(p)).ports == k.ports[p := q];
    hide Kernel.Inv, Kernel.Shaped, Kernel.Perform, Ipc.Waiting, Ipc.QueueOk, HoldsRequests, HoldsResponses;
  }

  lemma LeaveKeeps(k: Kernel.Sys, b: Sys, dp: nat, cp: uint32)
    requires Carries(k, b, dp, cp) && Kernel.CanDo(k, Kernel.Resume) && k.ports[k.inRecv[k.sched.current]].count == 0
    ensures Carries(Kernel.Perform(k, Kernel.Resume), b, dp, cp)
  {
    Kernel.StepInv(k, Kernel.Resume);
    assert Kernel.Perform(k, Kernel.Resume).ports == k.ports;
    hide Kernel.Inv, Kernel.Shaped, Kernel.Perform, Ipc.Waiting, Ipc.QueueOk, HoldsRequests, HoldsResponses;
  }

  // ---------------------------------------------------------------- each step is one of the protocol, or none

  /** The step as the protocol sees it, if it sees it. */
  ghost function EventsOf(w: World, st: Step, dp: nat, cp: uint32): seq<Event>
    requires Sound(w, dp, cp) && CanStep(w, st, dp, cp)
  {
    var me := w.k.sched.current;
    match st
    case Ask(op, drive, lba, count, buffer) => [Start(me, op, drive, lba, count, buffer)]
    case Await => if Kernel.Owns(w.k, cp) && w.k.ports[cp].count == 0 then [] else [Finish(me)]
    case Wakened => [Finish(me)]
    case DriverWaits => if w.k.ports[dp].count == 0 then [] else [Take]
    case DriverWakened => if w.k.ports[dp].count == 0 then [] else [Take]
    case Operate(ok, data) => [Hardware(ok, data)]
    case Reply => [Answer]
    case Else(_) => []
  }

  /** The events es take the protocol from b to where the system goes with the step. */
  ghost predicate Follows(w: World, st: Step, b: Sys, es: seq<Event>, dp: nat, cp: uint32)
    requires Sound(w, dp, cp) && CanStep(w, st, dp, cp)
  {
    Happens(b, es) && Sim(Next(w, st, dp, cp), Run(b, es), dp, cp)
  }

  lemma OneEvent(b: Sys, e: Event)
    requires CanHappen(b, e)
    ensures Happens(b, [e]) && Run(b, [e]) == Perform(b, e)
  {
    assert [e][0] == e && [e][1..] == [];
  }

  /** A call of the protocol that ends like the client's. */
  lemma SettleVars(w: World, b: Sys, l: Option<Ipc.Letter>)
    requires SameVars(w, b) && w.k.sched.current in w.calls
    requires match l
             case None => w.k.sched.current != b.owner || b.toClient == []
             case Some(m) =>
               && w.k.sched.current == b.owner && b.toClient != [] && |m.body| == 12
               && DecodeResponse(m.body) == b.toClient[0]
    ensures SameVars(Settle(w, l), EndCall(b, w.k.sched.current))
  {
    hide DecodeResponse;
  }

  /** The protocol sees nothing of a step that only changes the kernel. */
  lemma NoStep(w: World, b: Sys, st: Step, k: Kernel.Sys, dp: nat, cp: uint32)
    requires Sound(w, dp, cp) && CanStep(w, st, dp, cp) && Sim(w, b, dp, cp) && Next(w, st, dp, cp) == w.(k := k)
    requires Carries(k, b, dp, cp) && OwnerOk(k, cp, b.owner) && WaitersOk(k.inRecv, w.calls, w.job.Some?, dp, cp)
    ensures Follows(w, st, b, [], dp, cp)
  {
    hide Carries, WaitersOk, OwnerOk, Next, Sound, CanStep;
  }

  /** A step of the protocol, put together. */
  lemma OneStep(w: World, b: Sys, st: Step, e: Event, dp: nat, cp: uint32)
    requires Sound(w, dp, cp) && CanStep(w, st, dp, cp) && CanHappen(b, e)
    requires var w', b' := Next(w, st, dp, cp), Perform(b, e);
             && Carries(w'.k, b', dp, cp) && SameVars(w', b') && OwnerOk(w'.k, cp, b'.owner) && JobOk(w', cp)
             && WaitersOk(w'.k.inRecv, w'.calls, w'.job.Some?, dp, cp)
    ensures Follows(w, st, b, [e], dp, cp)
  {
    hide Carries, SameVars, OwnerOk, JobOk, WaitersOk, Next, Sound, CanStep, Happens, Run, CanHappen, Perform;
    OneEvent(b, e);
  }

  lemma AskVars(w: World, b: Sys, st: Step, dp: nat, cp: uint32)
    requires Sound(w, dp, cp) && CanStep(w, st, dp, cp) && st.Ask? && SameVars(w, b)
    requires Kernel.Reply(w.k, RequestMessage(dp, cp, NewRequest(w, st))) == 0 <==> |b.toDriver| < QUEUE
    ensures var me, w' := w.k.sched.current, Next(w, st, dp, cp);
            && SameVars(w', Send(b, me, NewRequest(w, st)))
            && w'.job == w.job && w'.answerTo == w.answerTo && (forall t | t in w.calls :: t in w'.calls)
            && w'.k == Kernel.Perform(w.k, RequestMessage(dp, cp, NewRequest(w, st)))
  {
    hide Kernel.Inv, Kernel.Shaped, Kernel.Perform, Kernel.Reply, EncodeRequest;
  }

  lemma AskEvents(w: World, st: Step, dp: nat, cp: uint32)
    requires Sound(w, dp, cp) && CanStep(w, st, dp, cp) && st.Ask?
    ensures EventsOf(w, st, dp, cp) == [Start(w.k.sched.current, st.op, st.drive, st.lba, st.count, st.buffer)]
  {
    hide Sound, CanStep;
  }

  /** The tasks in calls and the driver's job after a new call. */
  lemma AskRest(w: World, b: Sys, w': World, dp: nat, cp: uint32)
    requires JobOk(w, cp) && WaitersOk(w.k.inRecv, w.calls, w.job.Some?, dp, cp)
    requires w'.job == w.job && w'.answerTo == w.answerTo && w'.k.inRecv == w.k.inRecv
    requires forall t | t in w.calls :: t in w'.calls
    ensures JobOk(w', cp) && WaitersOk(w'.k.inRecv, w'.calls, w'.job.Some?, dp, cp)
  {
  }

  lemma AskInRecv(k: Kernel.Sys, dp: nat, cp: uint32, req: Request)
    requires OnWire(req) && Kernel.Shaped(k) && Kernel.CanDo(k, RequestMessage(dp, cp, req))
    ensures RequestMessage(dp, cp, req).Send? && Kernel.Perform(k, RequestMessage(dp, cp, req)).inRecv == k.inRecv
  {
    hide Kernel.Shaped, Kernel.Perform;
    InRecvAfter(k, RequestMessage(dp, cp, req));
  }

  lemma AskSim(w: World, b: Sys, st: Step, dp: nat, cp: uint32)
    requires Sound(w, dp, cp) && CanStep(w, st, dp, cp) && Sim(w, b, dp, cp) && st.Ask?
    ensures Follows(w, st, b, EventsOf(w, st, dp, cp), dp, cp)
  {
    assert w.k.sched.current < |w.k.sched.tasks| && w.k.ports[cp].inUse;
    hide EventsOf, Carries, Kernel.Inv, Kernel.Shaped, Kernel.Perform, Kernel.Reply, Kernel.CanDo, OwnerOk, Next, Follows,
      RequestMessage, Ipc.QueueOk, Ipc.Waiting, WaitersOk, JobOk, Perform, CanHappen;
    var me, req := w.k.sched.current, NewRequest(w, st);
    var e := Start(me, st.op, st.drive, st.lba, st.count, st.buffer);
    var c := RequestMessage(dp, cp, req);
    RequestIsSent(w.k, b, dp, cp, me, req);
    AskInRecv(w.k, dp, cp, req);
    AskVars(w, b, st, dp, cp);
    OwnerKept(w.k, c, cp, b.owner);
    AskRest(w, b, Next(w, st, dp, cp), dp, cp);
    AskIsStart(b, e);
    hide SameVars, Sound, CanStep;
    AskEvents(w, st, dp, cp);
    OneStep(w, b, st, e, dp, cp);
  }

  lemma AskIsStart(b: Sys, e: Event)
    requires e.Start? && e.t !in b.calls
    ensures CanHappen(b, e)
    ensures Perform(b, e) == Send(b, e.t, Request(b.nextId, e.op, e.drive, e.lba, e.count, e.buffer))
    ensures Perform(b, e).owner == b.owner
  {
  }

  /** The variables after the driver has answered. */
  lemma ReplyVars(w: World, b: Sys, dp: nat, cp: uint32)
    requires Sound(w, dp, cp) && CanStep(w, Reply, dp, cp) && SameVars(w, b) && JobOk(w, cp)
    requires WaitersOk(w.k.inRecv, w.calls, w.job.Some?, dp, cp)
    ensures w.job.value.req.id < WORD && CanHappen(b, Answer) && b.running == w.job && Perform(b, Answer).owner == b.owner
    ensures var c := ResponseMessage(cp, ResponseTo(w.job.value));
            var w' := Next(w, Reply, dp, cp);
            && c.Send? && Kernel.CanDo(w.k, c) && w'.k == Kernel.Perform(w.k, c) && w'.calls == w.calls && w'.job == None
            && SameVars(w', Perform(b, Answer)) && JobOk(w', cp)
            && WaitersOk(w.k.inRecv, w'.calls, false, dp, cp)
  {
    hide Kernel.Perform, Kernel.Shaped, Kernel.Inv, EncodeResponse;
  }

  lemma ReplySim(w: World, b: Sys, dp: nat, cp: uint32)
    requires Sound(w, dp, cp) && CanStep(w, Reply, dp, cp) && Sim(w, b, dp, cp)
    ensures Follows(w, Reply, b, [Answer], dp, cp)
  {
    assert w.k.sched.current < |w.k.sched.tasks| && w.k.ports[cp].inUse;
    hide Carries, Kernel.Inv, Kernel.Shaped, Kernel.Perform, Kernel.CanDo, OwnerOk, Next, Follows, ResponseMessage,
      ResponseTo, Ipc.QueueOk, Ipc.Waiting, WaitersOk, JobOk, SameVars, Perform, CanHappen;
    ReplyVars(w, b, dp, cp);
    hide CanStep;
    var c := ResponseMessage(cp, ResponseTo(w.job.value));
    AnswerIsSent(w.k, b, dp, cp);
    OwnerKept(w.k, c, cp, b.owner);
    InRecvAfter(w.k, c);
    OneStep(w, b, Reply, Answer, dp, cp);
  }

  lemma OperateSim(w: World, b: Sys, st: Step, dp: nat, cp: uint32)
    requires Sound(w, dp, cp) && CanStep(w, st, dp, cp) && Sim(w, b, dp, cp) && st.Operate?
    ensures Follows(w, st, b, EventsOf(w, st, dp, cp), dp, cp)
  {
    hide Carries, Kernel.Inv, Kernel.Shaped, Happens, Run, OwnerOk, WaitersOk;
    var e := Hardware(st.ok, st.data);
    OneEvent(b, e);
    SameQueues(w.k, b, Perform(b, e), dp, cp);
  }

  lemma ElseSim(w: World, b: Sys, c: Kernel.Call, dp: nat, cp: uint32)
    requires Sound(w, dp, cp) && CanStep(w, Else(c), dp, cp) && Sim(w, b, dp, cp)
    ensures Follows(w, Else(c), b, [], dp, cp)
  {
    assert !(c == Kernel.Destroy(cp) && Kernel.Owns(w.k, cp));
    assert Next(w, Else(c), dp, cp) == w.(k := Kernel.Perform(w.k, c)) by {
      hide Kernel.Perform, Kernel.Inv, Kernel.Shaped;
    }
    hide Carries, Kernel.Inv, Kernel.Shaped, Kernel.Perform, OwnerOk, Quiet, Next, Follows, CanStep;
    OthersKeep(w.k, b, dp, cp, c);
    QuietKeeps(w.k, c, dp);
    QuietKeeps(w.k, c, cp);
    OwnerKept(w.k, c, cp, b.owner);
    NoStep(w, b, Else(c), Kernel.Perform(w.k, c), dp, cp);
  }

  lemma RefusedStays(k: Kernel.Sys, p: nat)
    requires Kernel.Shaped(k) && Kernel.CanDo(k, Kernel.Recv(p)) && !Kernel.Owns(k, p)
    ensures Kernel.Perform(k, Kernel.Recv(p)) == k
  {
  }

  /** What the programs' variables are after a receive of the client's. */
  lemma AfterAwait(w: World, st: Step, dp: nat, cp: uint32)
    requires Sound(w, dp, cp) && CanStep(w, st, dp, cp) && (st.Await? || st.Wakened?)
    ensures var w' := Programs(w, st, dp, cp);
            if st.Await? && Kernel.Owns(w.k, cp) && w.k.ports[cp].count == 0 then w' == w
            else if (st.Await? && !Kernel.Owns(w.k, cp)) || w.k.ports[cp].count == 0 then w' == Settle(w, None)
            else w' == Settle(w, Some(FirstLetter(w.k, cp)))
  {
    hide Kernel.Inv, Ipc.HasSlots, Settle;
  }

  lemma AfterDriver(w: World, st: Step, dp: nat, cp: uint32)
    requires Sound(w, dp, cp) && CanStep(w, st, dp, cp) && (st.DriverWaits? || st.DriverWakened?)
    ensures Programs(w, st, dp, cp) == if w.k.ports[dp].count == 0 then w else Accept(w, FirstLetter(w.k, dp))
  {
    hide Kernel.Inv, Ipc.HasSlots, Accept;
  }

  /** A receive that blocks, or the driver's that goes on with nothing there. */
  lemma IdleSim(w: World, b: Sys, st: Step, dp: nat, cp: uint32, p: nat)
    requires Sound(w, dp, cp) && CanStep(w, st, dp, cp) && Sim(w, b, dp, cp)
    requires (st.Await? && p == cp) || ((st.DriverWaits? || st.DriverWakened?) && p == dp)
    requires Kernel.Owns(w.k, p) && w.k.ports[p].count == 0
    ensures Follows(w, st, b, [], dp, cp)
  {
    var k, c := w.k, ReceiveCall(st, p);
    IdleNext(w, st, dp, cp, p);
    IdleWaiters(w, b, st, dp, cp, p);
    assert Kernel.CanDo(k, c) && !c.Destroy?;
    assert Carries(Kernel.Perform(k, c), b, dp, cp) by {
      if st.DriverWakened? { LeaveKeeps(k, b, dp, cp); } else { BlockKeeps(k, b, dp, cp, p); }
    }
    hide Carries, Kernel.Inv, Kernel.Shaped, Kernel.Perform, Kernel.Owns, Kernel.CanDo, OwnerOk, WaitersOk, Next, Follows,
      CanStep;
    OwnerKept(k, c, cp, b.owner);
    NoStep(w, b, st, Kernel.Perform(k, c), dp, cp);
  }

  lemma IdleNext(w: World, st: Step, dp: nat, cp: uint32, p: nat)
    requires Sound(w, dp, cp) && CanStep(w, st, dp, cp)
    requires (st.Await? && p == cp) || ((st.DriverWaits? || st.DriverWakened?) && p == dp)
    requires Kernel.Owns(w.k, p) && w.k.ports[p].count == 0
    ensures Kernel.CanDo(w.k, ReceiveCall(st, p))
    ensures Next(w, st, dp, cp) == w.(k := Kernel.Perform(w.k, ReceiveCall(st, p)))
  {
    if st.Await? { AfterAwait(w, st, dp, cp); } else { AfterDriver(w, st, dp, cp); }
    hide Programs, Kernel.Perform, Kernel.Inv;
  }

  lemma IdleWaiters(w: World, b: Sys, st: Step, dp: nat, cp: uint32, p: nat)
    requires Sound(w, dp, cp) && CanStep(w, st, dp, cp) && Sim(w, b, dp, cp)
    requires (st.Await? && p == cp) || ((st.DriverWaits? || st.DriverWakened?) && p == dp)
    requires Kernel.Owns(w.k, p) && w.k.ports[p].count == 0 && Kernel.CanDo(w.k, ReceiveCall(st, p))
    ensures WaitersOk(Kernel.Perform(w.k, ReceiveCall(st, p)).inRecv, w.calls, w.job.Some?, dp, cp)
  {
    InRecvAfter(w.k, ReceiveCall(st, p));
    hide Carries, Kernel.Inv, Kernel.Shaped, Kernel.Perform;
  }

  /** The kernel call of a client's or the driver's receive. */
  function ReceiveCall(st: Step, p: nat): Kernel.Call {
    if st.Await? || st.DriverWaits? then Kernel.Recv(p) else Kernel.Resume
  }

  /** The end of a client call, put together. */
  lemma EndSim(w: World, b: Sys, st: Step, l: Option<Ipc.Letter>, c: Kernel.Call, k: Kernel.Sys, dp: nat, cp: uint32)
    requires Sound(w, dp, cp) && CanStep(w, st, dp, cp) && Sim(w, b, dp, cp) && (st.Await? || st.Wakened?)
    requires c == ReceiveCall(st, cp) && Kernel.CanDo(w.k, c) && k == Kernel.Perform(w.k, c)
    requires w.k.sched.current in w.calls && Programs(w, st, dp, cp) == Settle(w, l)
    requires SameVars(Settle(w, l), EndCall(b, w.k.sched.current))
    requires Carries(k, EndCall(b, w.k.sched.current), dp, cp) && OwnerOk(k, cp, b.owner)
    requires k.inRecv == w.k.inRecv - {w.k.sched.current}
    ensures Follows(w, st, b, [Finish(w.k.sched.current)], dp, cp)
  {
    hide Carries, Kernel.Inv, Kernel.Shaped, Kernel.Perform, Happens, Run, OwnerOk, Programs, JudgeLetter, Follows;
    assert Next(w, st, dp, cp) == Settle(w, l).(k := k);
    OneStep(w, b, st, Finish(w.k.sched.current), dp, cp);
  }

  lemma NotInside(inRecv: map<TaskId, nat>, t: TaskId)
    requires t !in inRecv
    ensures inRecv - {t} == inRecv
  {
  }

  /** A call that ends with an error: the task does not own the port, or it resumed with nothing there. */
  lemma FailedSim(w: World, b: Sys, st: Step, dp: nat, cp: uint32)
    requires Sound(w, dp, cp) && CanStep(w, st, dp, cp) && Sim(w, b, dp, cp)
    requires (st.Await? && !Kernel.Owns(w.k, cp)) || (st.Wakened? && w.k.ports[cp].count == 0)
    ensures Follows(w, st, b, [Finish(w.k.sched.current)], dp, cp)
  {
    var k, me, c := w.k, w.k.sched.current, ReceiveCall(st, cp);
    AfterAwait(w, st, dp, cp);
    assert me in w.calls;
    assert Carries(Kernel.Perform(k, c), b, dp, cp) by {
      if st.Await? { RefusedStays(k, cp); } else { LeaveKeeps(k, b, dp, cp); }
    }
    hide Carries, Kernel.Inv, Kernel.Shaped, Kernel.Perform, Kernel.Owns, Ipc.QueueOk, Happens, Run, OwnerOk, Programs,
      WaitersOk, Follows, Settle;
    OwnerKept(k, c, cp, b.owner);
    OwnerIs(k, cp, b.owner);
    InRecvAfter(k, c);
    QueueLength(k, b, dp, cp);
    SameQueues(Kernel.Perform(k, c), b, EndCall(b, me), dp, cp);
    SettleVars(w, b, None);
    if st.Await? { NotInside(k.inRecv, me); }
    EndSim(w, b, st, None, c, Kernel.Perform(k, c), dp, cp);
  }

  /** A call that ends with a message. */
  lemma AnsweredSim(w: World, b: Sys, st: Step, dp: nat, cp: uint32)
    requires Sound(w, dp, cp) && CanStep(w, st, dp, cp) && Sim(w, b, dp, cp)
    requires (st.Await? || st.Wakened?) && Kernel.Owns(w.k, cp) && w.k.ports[cp].count > 0
    ensures Follows(w, st, b, [Finish(w.k.sched.current)], dp, cp)
  {
    var k, me, c := w.k, w.k.sched.current, ReceiveCall(st, cp);
    AfterAwait(w, st, dp, cp);
    assert me in w.calls;
    assert Takes(k, c, cp);
    hide Carries, Kernel.Inv, Kernel.Shaped, Kernel.Perform, Ipc.QueueOk, Happens, Run, OwnerOk, Programs, WaitersOk,
      Follows, Settle, FirstLetter, DecodeResponse, Takes;
    OwnerKept(k, c, cp, b.owner);
    OwnerIs(k, cp, b.owner);
    hide Kernel.Owns;
    InRecvAfter(k, c);
    ClientReceives(k, b, dp, cp, c);
    SameQueues(Kernel.Perform(k, c), b.(toClient := b.toClient[1..]), EndCall(b, me), dp, cp);
    SettleVars(w, b, Some(FirstLetter(k, cp)));
    if st.Await? { NotInside(k.inRecv, me); }
    EndSim(w, b, st, Some(FirstLetter(k, cp)), c, Kernel.Perform(k, c), dp, cp);
  }

  lemma AwaitSim(w: World, b: Sys, st: Step, dp: nat, cp: uint32)
    requires Sound(w, dp, cp) && CanStep(w, st, dp, cp) && Sim(w, b, dp, cp) && (st.Await? || st.Wakened?)
    ensures Follows(w, st, b, EventsOf(w, st, dp, cp), dp, cp)
  {
    var k := w.k;
    if st.Wakened? { Kernel.ResumeStillOwns(k); }
    assert |k.ports| == Ipc.PORTS && k.sched.current < |k.sched.tasks|;
    PortQueue(k, cp);
    hide Follows, Sim, Kernel.Inv, Kernel.Shaped;
    if st.Await? && Kernel.Owns(k, cp) && k.ports[cp].count == 0 {
      IdleSim(w, b, st, dp, cp, cp);
    } else {
      if Kernel.Owns(k, cp) && k.ports[cp].count > 0 {
        AnsweredSim(w, b, st, dp, cp);
      } else {
        FailedSim(w, b, st, dp, cp);
      }
    }
  }

  /** The driver takes the first request of the protocol's queue. */
  lemma AcceptVars(w: World, b: Sys, l: Ipc.Letter, cp: uint32)
    requires SameVars(w, b) && w.job.None? && b.toDriver != [] && |l.body| == 24
    requires DecodeRequest(l.body) == b.toDriver[0] && l.replyTo == cp
    ensures CanHappen(b, Take) && SameVars(Accept(w, l), Perform(b, Take)) && JobOk(Accept(w, l), cp)
    ensures Accept(w, l).calls == w.calls
    ensures var b' := Perform(b, Take);
            b'.toDriver == b.toDriver[1..] && b'.toClient == b.toClient && b'.owner == b.owner
  {
    assert DecodeRequest(l.body).id < WORD;
    hide DecodeRequest;
  }

  /** Nobody waits at the driver's port once the driver has taken a request. */
  lemma TakeFacts(w: World, b: Sys, st: Step, dp: nat, cp: uint32)
    requires Sound(w, dp, cp) && CanStep(w, st, dp, cp) && Sim(w, b, dp, cp) && (st.DriverWaits? || st.DriverWakened?)
    requires Kernel.Owns(w.k, dp) && w.k.ports[dp].count > 0
    ensures Takes(w.k, ReceiveCall(st, dp), dp) && w.job.None?
    ensures WaitersOk(Kernel.Perform(w.k, ReceiveCall(st, dp)).inRecv, w.calls, true, dp, cp)
  {
    var k, c := w.k, ReceiveCall(st, dp);
    assert Takes(k, c, dp);
    assert k.sched.current < |k.sched.tasks|;
    hide Carries, Kernel.Inv, Kernel.Shaped, Kernel.Perform, Takes, SameVars, OwnerOk, JobOk;
    InRecvAfter(k, c);
    Kernel.OnlyMe(k, dp);
  }

  /** The driver takes a request, at once or after blocking. */
  lemma TakeSim(w: World, b: Sys, st: Step, dp: nat, cp: uint32)
    requires Sound(w, dp, cp) && CanStep(w, st, dp, cp) && Sim(w, b, dp, cp) && (st.DriverWaits? || st.DriverWakened?)
    requires Kernel.Owns(w.k, dp) && w.k.ports[dp].count > 0
    ensures Follows(w, st, b, [Take], dp, cp)
  {
    var k, c := w.k, ReceiveCall(st, dp);
    assert Kernel.CanDo(k, c) && !c.Destroy?;
    hide Carries, Kernel.Inv, Kernel.Shaped, Kernel.Perform, Kernel.Owns, Kernel.CanDo, Ipc.QueueOk, OwnerOk, Programs,
      WaitersOk, FirstLetter, Takes, Accept, DecodeRequest, CanStep, Next, Follows, ReceiveCall, Perform, CanHappen,
      SameVars, JobOk;
    TakeFacts(w, b, st, dp, cp);
    AfterDriver(w, st, dp, cp);
    var k', l := Kernel.Perform(k, c), FirstLetter(k, dp);
    OwnerKept(k, c, cp, b.owner);
    DriverReceives(k, b, dp, cp, c);
    AcceptVars(w, b, l, cp);
    SameQueues(k', b.(toDriver := b.toDriver[1..]), Perform(b, Take), dp, cp);
    AcceptNext(w, st, l, dp, cp);
    NewVars(Accept(w, l), k', Perform(b, Take), cp);
    OneStep(w, b, st, Take, dp, cp);
  }

  lemma AcceptNext(w: World, st: Step, l: Ipc.Letter, dp: nat, cp: uint32)
    requires Sound(w, dp, cp) && CanStep(w, st, dp, cp) && (st.DriverWaits? || st.DriverWakened?)
    requires Programs(w, st, dp, cp) == Accept(w, l) && |l.body| == 24
    ensures Next(w, st, dp, cp) == Accept(w, l).(k := Kernel.Perform(w.k, ReceiveCall(st, dp)))
    ensures Next(w, st, dp, cp).job.Some?
  {
    hide Programs, DecodeRequest;
  }

  /** The programs' variables do not depend on the kernel. */
  lemma NewVars(w: World, k: Kernel.Sys, b: Sys, cp: uint32)
    ensures SameVars(w, b) ==> SameVars(w.(k := k), b)
    ensures JobOk(w, cp) ==> JobOk(w.(k := k), cp)
  {
  }

  lemma DriverSim(w: World, b: Sys, st: Step, dp: nat, cp: uint32)
    requires Sound(w, dp, cp) && CanStep(w, st, dp, cp) && Sim(w, b, dp, cp) && (st.DriverWaits? || st.DriverWakened?)
    ensures Follows(w, st, b, EventsOf(w, st, dp, cp), dp, cp)
  {
    var k := w.k;
    if st.DriverWakened? { Kernel.ResumeStillOwns(k); }
    assert |k.ports| == Ipc.PORTS;
    PortQueue(k, dp);
    hide Follows, Sim, Kernel.Inv, Kernel.Shaped;
    if k.ports[dp].count > 0 {
      TakeSim(w, b, st, dp, cp);
    } else {
      IdleSim(w, b, st, dp, cp, dp);
    }
  }

  /** Every step of the system is a step of the protocol, or nothing that the protocol sees. */
  lemma StepSim(w: World, b: Sys, st: Step, dp: nat, cp: uint32)
    requires Sound(w, dp, cp) && CanStep(w, st, dp, cp) && Sim(w, b, dp, cp)
    ensures Follows(w, st, b, EventsOf(w, st, dp, cp), dp, cp)
  {
    hide Follows, Sim, Sound, CanStep;
    match st
    case Ask(_, _, _, _, _) => AskSim(w, b, st, dp, cp);
    case Await => AwaitSim(w, b, st, dp, cp);
    case Wakened => AwaitSim(w, b, st, dp, cp);
    case DriverWaits => DriverSim(w, b, st, dp, cp);
    case DriverWakened => DriverSim(w, b, st, dp, cp);
    case Operate(_, _) => OperateSim(w, b, st, dp, cp);
    case Reply => ReplySim(w, b, dp, cp);
    case Else(c) => ElseSim(w, b, c, dp, cp);
  }

  // ---------------------------------------------------------------- every run

  lemma NotDestroyed(w: World, st: Step, dp: nat, cp: uint32)
    requires Sound(w, dp, cp) && CanStep(w, st, dp, cp) && CallOf(w, st, dp, cp).Some?
    ensures forall p | p == dp || p == cp :: !(CallOf(w, st, dp, cp).value == Kernel.Destroy(p) && Kernel.Owns(w.k, p))
  {
    hide Kernel.Inv;
  }

  lemma StepSound(w: World, st: Step, dp: nat, cp: uint32)
    requires Sound(w, dp, cp) && CanStep(w, st, dp, cp)
    ensures Sound(Next(w, st, dp, cp), dp, cp)
  {
    var c := CallOf(w, st, dp, cp);
    assert Next(w, st, dp, cp).k == if c.None? then w.k else Kernel.Perform(w.k, c.value) by {
      hide CallOf, Programs, Kernel.Inv, Kernel.Perform, CanStep;
    }
    if c.Some? {
      NotDestroyed(w, st, dp, cp);
      hide CallOf, Programs, Kernel.Inv, Kernel.Perform, CanStep, Next;
      Kernel.StepInv(w.k, c.value);
      Kernel.StepSamePort(w.k, c.value, dp);
      Kernel.StepSamePort(w.k, c.value, cp);
    }
  }

  ghost predicate Goes(w: World, steps: seq<Step>, dp: nat, cp: uint32)
    requires Sound(w, dp, cp)
    decreases steps
  {
    steps == [] ||
    (CanStep(w, steps[0], dp, cp) &&
     (StepSound(w, steps[0], dp, cp); Goes(Next(w, steps[0], dp, cp), steps[1..], dp, cp)))
  }

  /** Client calls, driver and everything else in any interleaving. */
  ghost function RunAll(w: World, steps: seq<Step>, dp: nat, cp: uint32): (r: World)
    requires Sound(w, dp, cp) && Goes(w, steps, dp, cp)
    ensures Sound(r, dp, cp)
    decreases steps
  {
    if steps == [] then w
    else (StepSound(w, steps[0], dp, cp); RunAll(Next(w, steps[0], dp, cp), steps[1..], dp, cp))
  }

  /** The kernel calls of a run. */
  ghost function Calls(w: World, steps: seq<Step>, dp: nat, cp: uint32): seq<Kernel.Call>
    requires Sound(w, dp, cp) && Goes(w, steps, dp, cp)
    decreases steps
  {
    if steps == [] then []
    else
      StepSound(w, steps[0], dp, cp);
      var c := CallOf(w, steps[0], dp, cp);
      (if c.Some? then [c.value] else []) + Calls(Next(w, steps[0], dp, cp), steps[1..], dp, cp)
  }

  /** The kernel goes through a run of its own. */
  lemma {:induction false} KernelRuns(w: World, steps: seq<Step>, dp: nat, cp: uint32)
    requires Sound(w, dp, cp) && Goes(w, steps, dp, cp)
    ensures Kernel.Happens(w.k, Calls(w, steps, dp, cp))
    ensures Kernel.Run(w.k, Calls(w, steps, dp, cp)) == RunAll(w, steps, dp, cp).k
    decreases steps
  {
    hide Kernel.Inv, Kernel.Shaped, Kernel.Perform, Kernel.CanDo, CanStep, Programs, CallOf;
    if steps != [] {
      StepSound(w, steps[0], dp, cp);
      var w', c := Next(w, steps[0], dp, cp), CallOf(w, steps[0], dp, cp);
      var rest := Calls(w', steps[1..], dp, cp);
      KernelRuns(w', steps[1..], dp, cp);
      if c.Some? {
        Kernel.StepInv(w.k, c.value);
        assert ([c.value] + rest)[0] == c.value && ([c.value] + rest)[1..] == rest;
      } else {
        assert [] + rest == rest;
      }
    }
  }

  lemma {:induction false} HappensJoin(b: Sys, a: seq<Event>, c: seq<Event>)
    requires Happens(b, a) && Happens(Run(b, a), c)
    ensures Happens(b, a + c) && Run(b, a + c) == Run(Run(b, a), c)
    decreases a
  {
    hide Perform, CanHappen;
    if a == [] {
      assert a + c == c;
    } else {
      assert (a + c)[1..] == a[1..] + c;
      HappensJoin(Perform(b, a[0]), a[1..], c);
    }
  }

  /** A run as the protocol sees it. */
  ghost function AllEvents(w: World, steps: seq<Step>, dp: nat, cp: uint32): seq<Event>
    requires Sound(w, dp, cp) && Goes(w, steps, dp, cp)
    decreases steps
  {
    if steps == [] then []
    else
      (StepSound(w, steps[0], dp, cp);
       EventsOf(w, steps[0], dp, cp) + AllEvents(Next(w, steps[0], dp, cp), steps[1..], dp, cp))
  }

  /** Every run of the system is a run of the protocol, whose queues are what waits at the ports at the end. */
  lemma {:induction false} RunSim(w: World, b: Sys, steps: seq<Step>, dp: nat, cp: uint32)
    requires Sound(w, dp, cp) && Goes(w, steps, dp, cp) && Sim(w, b, dp, cp)
    ensures var es := AllEvents(w, steps, dp, cp);
            Happens(b, es) && Sim(RunAll(w, steps, dp, cp), Run(b, es), dp, cp)
    decreases steps
  {
    hide Sound, CanStep, Sim, Next, EventsOf;
    if steps != [] {
      StepSound(w, steps[0], dp, cp);
      StepSim(w, b, steps[0], dp, cp);
      var first, w' := EventsOf(w, steps[0], dp, cp), Next(w, steps[0], dp, cp);
      RunSim(w', Run(b, first), steps[1..], dp, cp);
      HappensJoin(b, first, AllEvents(w', steps[1..], dp, cp));
    }
  }

  /** Both ports are there and empty, and no request has been sent yet. */
  ghost predicate Fresh(w: World, dp: nat, cp: uint32, owner: TaskId) {
    && Sound(w, dp, cp) && w.k.ports[dp].count == 0 == w.k.ports[cp].count && OwnerOk(w.k, cp, owner)
    && (forall t | t in w.k.inRecv :: w.k.inRecv[t] != dp && w.k.inRecv[t] != cp)
    && w.nextId == 1 && w.calls == map[] && w.job == None && w.jobs == [] && w.settled == []
  }

  lemma FreshSim(w: World, dp: nat, cp: uint32, owner: TaskId)
    requires Fresh(w, dp, cp, owner)
    ensures Sim(w, Initial(owner, w.disk), dp, cp)
  {
    PortQueue(w.k, dp);
    PortQueue(w.k, cp);
    Kernel.NothingWaits(w.k.ports[dp]);
    Kernel.NothingWaits(w.k.ports[cp]);
    hide Kernel.Inv, Kernel.Shaped, Ipc.Waiting, Ipc.QueueOk;
  }

  /** The state of the protocol that a run ends with. */
  lemma RunInvariant(w: World, steps: seq<Step>, dp: nat, cp: uint32, owner: TaskId) returns (b: Sys)
    requires Fresh(w, dp, cp, owner) && Goes(w, steps, dp, cp)
    ensures Inv(b, w.disk) && Sim(RunAll(w, steps, dp, cp), b, dp, cp)
  {
    hide Sound, Sim, Goes, RunAll, AllEvents, Inv;
    FreshSim(w, dp, cp, owner);
    var es := AllEvents(w, steps, dp, cp);
    RunSim(w, Initial(owner, w.disk), steps, dp, cp);
    InitialInv(owner, w.disk);
    RunInv(Initial(owner, w.disk), w.disk, es);
    b := Run(Initial(owner, w.disk), es);
  }

  /** In every run of the system every client call that succeeded was executed by the driver exactly once, with
      the sectors it asked for; one that failed at most once; and one that was not sent never. */
  lemma CallsAreSafe(w: World, steps: seq<Step>, dp: nat, cp: uint32, owner: TaskId, n: nat)
    requires Fresh(w, dp, cp, owner) && Goes(w, steps, dp, cp) && n < |RunAll(w, steps, dp, cp).settled|
    ensures var r := RunAll(w, steps, dp, cp); Safe(r.jobs, w.disk, r.settled[n])
  {
    var b := RunInvariant(w, steps, dp, cp, owner);
    hide Fresh, Goes, RunAll, Inv, Safe, Carries;
    SafeWhereInv(b, w.disk, n);
  }

  /** No request is executed twice, and the disk is the initial one with the executed writes replayed in order. */
  lemma DiskIsReplay(w: World, steps: seq<Step>, dp: nat, cp: uint32, owner: TaskId, id: nat)
    requires Fresh(w, dp, cp, owner) && Goes(w, steps, dp, cp)
    ensures var r := RunAll(w, steps, dp, cp);
            && Executions(r.jobs, id) <= 1
            && r.disk == Replay(w.disk, r.jobs + if r.job.Some? then [r.job.value] else [])
  {
    var b := RunInvariant(w, steps, dp, cp, owner);
    hide Fresh, Goes, RunAll, Carries, Executions;
    ReplayWhereInv(b, w.disk);
    InPipeline(b);
    AtMostOnce(b.jobs, id);
  }

  /** The first `n` ports are in use, with these names, and all belong to the idle task. */
  ghost predicate PortsMade(s: Kernel.Sys, n: nat, names: seq<Ipc.Name>) {
    && |s.ports| == Ipc.PORTS && |names| == n <= Ipc.PORTS && s.inRecv == map[]
    && |s.sched.tasks| == 1 && s.sched.tasks[0].pid == 0 && s.sched.current == 0
    && (forall i | 0 <= i < n :: && s.ports[i].inUse && s.ports[i].name == names[i] && s.ports[i].owner == 0
                                 && s.ports[i].count == 0)
    && (forall i | n <= i < Ipc.PORTS :: !s.ports[i].inUse)
  }

  lemma FirstUnused(ports: seq<Ipc.Port>, n: nat, k: nat)
    requires k <= n < |ports| && (forall i | 0 <= i < n :: ports[i].inUse) && !ports[n].inUse
    ensures Ipc.FreeFrom(ports, k) == Some(n)
    decreases n - k
  {
    if k < n { FirstUnused(ports, n, k + 1); }
  }

  /** The next port that is created. */
  lemma OnePortMore(s: Kernel.Sys, n: nat, names: seq<Ipc.Name>, name: Ipc.Name)
    requires Kernel.Shaped(s) && PortsMade(s, n, names) && n < Ipc.PORTS
    ensures PortsMade(Kernel.OpenPort(s, name), n + 1, names + [name])
  {
    FirstUnused(s.ports, n, 0);
    hide Ipc.HasSlots;
  }

  lemma NameFree(s: Kernel.Sys)
    requires Kernel.Shaped(s) && PortsMade(s, 1, [[]])
    ensures Ipc.FindFrom(s.ports, DRIVER_NAME, 0) == None
  {
  }

  lemma NameFound(s: Kernel.Sys)
    requires Kernel.Shaped(s) && PortsMade(s, 2, [[], DRIVER_NAME])
    ensures Ipc.FindFrom(s.ports, DRIVER_NAME, 0) == Some(1)
  {
    assert s.ports[0].name == [] && s.ports[1].name == DRIVER_NAME;
  }

  /** Such a state is reached: after boot the client's port and the driver's are created. */
  lemma FreshReached(s: Kernel.Sys, disk: Disk)
    requires Kernel.Booted(s) && Kernel.Inv(s) && Kernel.Shaped(s)
    ensures var cs := [Kernel.CreatePort, Kernel.CreateNamed(Some(DRIVER_NAME))];
            && Kernel.Happens(s, cs)
            && var k := Kernel.Run(s, cs);
            && Fresh(World(k, 1, map[], None, 0, disk, [], []), 1, 0, 0)
            && Ipc.FindFrom(k.ports, DRIVER_NAME, 0) == Some(1)
  {
    var c, d := Kernel.CreatePort, Kernel.CreateNamed(Some(DRIVER_NAME));
    FirstPort(s);
    var s1 := Kernel.Perform(s, c);
    Kernel.StepInv(s, c);
    SecondPort(s1);
    var s2 := Kernel.Perform(s1, d);
    Kernel.StepInv(s1, d);
    hide Kernel.Booted, Kernel.Inv, Kernel.Shaped, Kernel.Perform, Kernel.CanDo, Kernel.Happens, Kernel.Run, PortsMade,
      Fresh;
    TwoCalls(s, c, d);
    NameFound(s2);
    MadeFresh(s2, disk);
  }

  lemma TwoCalls(s: Kernel.Sys, c: Kernel.Call, d: Kernel.Call)
    requires Kernel.Inv(s) && Kernel.Shaped(s) && Kernel.CanDo(s, c)
    requires var s1 := Kernel.Perform(s, c); Kernel.Inv(s1) && Kernel.Shaped(s1) && Kernel.CanDo(s1, d)
    ensures Kernel.Happens(s, [c, d]) && Kernel.Run(s, [c, d]) == Kernel.Perform(Kernel.Perform(s, c), d)
  {
    hide Kernel.Inv, Kernel.Shaped, Kernel.Perform, Kernel.CanDo;
    var s1 := Kernel.Perform(s, c);
    Kernel.StepInv(s1, d);
    var rest := [d];
    assert rest[0] == d && rest[1..] == [];
    assert Kernel.Happens(s1, rest) && Kernel.Run(s1, rest) == Kernel.Perform(s1, d);
    assert [c, d][0] == c && [c, d][1..] == rest;
  }

  lemma FirstPort(s: Kernel.Sys)
    requires Kernel.Booted(s) && Kernel.Shaped(s)
    ensures Kernel.CanDo(s, Kernel.CreatePort) && PortsMade(Kernel.Perform(s, Kernel.CreatePort), 1, [[]])
  {
    var none: seq<Ipc.Name> := [];
    assert PortsMade(s, 0, none);
    hide Kernel.OpenPort;
    OnePortMore(s, 0, none, []);
    assert none + [[]] == [[]];
  }

  lemma SecondPort(s: Kernel.Sys)
    requires Kernel.Shaped(s) && PortsMade(s, 1, [[]])
    ensures var d := Kernel.CreateNamed(Some(DRIVER_NAME));
            Kernel.CanDo(s, d) && PortsMade(Kernel.Perform(s, d), 2, [[], DRIVER_NAME])
  {
    NameFree(s);
    hide Kernel.OpenPort;
    OnePortMore(s, 1, [[]], DRIVER_NAME);
    assert [[]] + [DRIVER_NAME] == [[], DRIVER_NAME];
  }

  lemma MadeFresh(s: Kernel.Sys, disk: Disk)
    requires Kernel.Inv(s) && Kernel.Shaped(s) && PortsMade(s, 2, [[], DRIVER_NAME])
    ensures Fresh(World(s, 1, map[], None, 0, disk, [], []), 1, 0, 0)
  {
    hide Kernel.Inv, Kernel.Shaped;
  }
}
