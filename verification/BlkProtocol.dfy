/** The request/reply protocol between the block-device client (src/drivers/blkdev_ipc_client.c) and the ATA
    driver (src/lib/ata_driver.c), with calls from any number of tasks, receives that return early and
    replies that nobody waited for. */
module BlkProtocol {
  import opened Common
  import opened Tasks

  const READ: uint32 := 1
  const WRITE: uint32 := 2
  const FLUSH: uint32 := 3

  const OK: uint32 := 0
  const ERROR: uint32 := 1
  const INVALID: uint32 := 2

  const SECTOR := 512
  /** IPC_PORT_QUEUE_SIZE, for the queues of both ports. */
  const QUEUE := 16

  type Sector = seq<byte>
  /** The sectors that exist, by drive and block address. */
  type Disk = map<(uint32, uint32), Sector>

  /** blkdev_request_t */
  datatype Request = Request(id: nat, op: uint32, drive: uint32, lba: uint32, count: uint32, buffer: uint32)

  /** blkdev_response_t */
  datatype Response = Response(id: nat, status: uint32, bytes: uint32)

  /** A request in the hands of the driver, with the sectors moved so far. */
  datatype Job = Job(req: Request, moved: seq<Sector>, status: uint32, over: bool)

  // ---------------------------------------------------------------- the driver, one request

  function Begin(req: Request): Job {
    if req.op == READ || req.op == WRITE then Job(req, [], OK, req.count == 0)
    else if req.op == FLUSH then Job(req, [], OK, false)
    else Job(req, [], INVALID, true)
  }

  /** Sector number i of a request as the controller's registers name it: they take one bit of the drive and
      28 bits of the block address. */
  function At(req: Request, i: nat): (uint32, uint32) {
    (req.drive % 2, (req.lba + i) % 0x1000_0000)
  }

  /** The sectors moved are those asked for exactly if the registers can name them. */
  lemma RightSectors(req: Request)
    ensures (forall i: nat | i < req.count :: At(req, i) == (req.drive, req.lba + i)) <==>
            req.count == 0 || (req.drive < 2 && req.lba + req.count <= 0x1000_0000)
  {
    if req.count > 0 {
      var last: nat := req.count - 1;
      assert At(req, last) == (req.drive, req.lba + last) ==> req.drive < 2 && req.lba + last < 0x1000_0000;
    }
  }

  /** Block address of the next sector of a job. */
  function Next(j: Job): (uint32, uint32) {
    At(j.req, |j.moved|)
  }

  predicate Holds(disk: Disk, at: (uint32, uint32), sector: Sector) {
    at in disk && disk[at] == sector
  }

  predicate Moves(req: Request) {
    req.op == READ || req.op == WRITE
  }

  /** May the next hardware operation of the job end this way? Sectors that do not exist cannot be moved. */
  predicate Possible(j: Job, disk: Disk, ok: bool) {
    !j.over && (ok && Moves(j.req) ==> Next(j) in disk)
  }

  /** One round of the loop in handle_request; `data` is what the buffer of a write holds. */
  function Advance(j: Job, disk: Disk, ok: bool, data: Sector): Job
    requires Possible(j, disk, ok)
  {
    if !ok then j.(status := ERROR, over := true)
    else if Moves(j.req) then
      var sector := if j.req.op == READ then disk[Next(j)] else data;
      j.(moved := j.moved + [sector], over := |j.moved| + 1 == j.req.count)
    else j.(over := true)
  }

  function DiskAfter(j: Job, disk: Disk, ok: bool, data: Sector): Disk {
    if ok && j.req.op == WRITE then disk[Next(j) := data] else disk
  }

  /** The size of n sectors in a uint32_t. */
  function Bytes(n: nat): uint32 {
    512 * n % 0x1_0000_0000
  }

  function ResponseTo(j: Job): Response {
    Response(j.req.id, j.status, Bytes(|j.moved|))
  }

  // ---------------------------------------------------------------- client, queues and driver together

  /** What a call of the client came to. */
  datatype Outcome = NotSent | Failed | Done(bytes: uint32)

  datatype Settled = Settled(req: Request, outcome: Outcome)

  /** `owner` is the task that owns the client's port; `calls` are the calls in progress; `jobs` and
      `settled` are histories. */
  datatype Sys = Sys(nextId: nat, owner: TaskId, calls: map<TaskId, Request>, toDriver: seq<Request>,
                     running: Option<Job>, toClient: seq<Response>, disk: Disk, jobs: seq<Job>,
                     settled: seq<Settled>)

  datatype Event =
    | Start(t: TaskId, op: uint32, drive: uint32, lba: uint32, count: uint32, buffer: uint32)
    | Finish(t: TaskId)
    | Take
    | Hardware(ok: bool, data: Sector)
    | Answer

  predicate CanHappen(s: Sys, e: Event) {
    match e
    case Start(t, _, _, _, _, _) => t !in s.calls
    case Finish(t) => t in s.calls
    case Take => s.running.None? && s.toDriver != []
    case Hardware(ok, data) => s.running.Some? && Possible(s.running.value, s.disk, ok)
    case Answer => s.running.Some? && s.running.value.over
  }

  /** How a call ends with the reply it received. */
  function Judge(req: Request, r: Response): Outcome {
    if r.id != req.id || r.status != OK then Failed
    else Done(if req.op == FLUSH then 0 else r.bytes)
  }

  /** A receive fails for a task that does not own the client's port, and when it was resumed too early. */
  function EndCall(s: Sys, t: TaskId): Sys
    requires t in s.calls
  {
    var req, calls := s.calls[t], s.calls - {t};
    if t != s.owner || s.toClient == [] then s.(calls := calls, settled := s.settled + [Settled(req, Failed)])
    else s.(calls := calls, toClient := s.toClient[1..],
            settled := s.settled + [Settled(req, Judge(req, s.toClient[0]))])
  }

  function Send(s: Sys, t: TaskId, req: Request): Sys {
    var s1 := s.(nextId := s.nextId + 1);
    if |s.toDriver| >= QUEUE then s1.(settled := s.settled + [Settled(req, NotSent)])
    else s1.(toDriver := s.toDriver + [req], calls := s.calls[t := req])
  }

  function Perform(s: Sys, e: Event): Sys
    requires CanHappen(s, e)
  {
    match e
    case Start(t, op, drive, lba, count, buffer) => Send(s, t, Request(s.nextId, op, drive, lba, count, buffer))
    case Finish(t) => EndCall(s, t)
    case Take => s.(running := Some(Begin(s.toDriver[0])), toDriver := s.toDriver[1..])
    case Hardware(ok, data) =>
      var j := s.running.value;
      s.(running := Some(Advance(j, s.disk, ok, data)), disk := DiskAfter(j, s.disk, ok, data))
    case Answer =>
      var j := s.running.value;
      s.(running := None, jobs := s.jobs + [j],
         toClient := if |s.toClient| >= QUEUE then s.toClient else s.toClient + [ResponseTo(j)])
  }

  // ---------------------------------------------------------------- what a job did to the disk

  /** The disk after the first n moves of a job. */
  function Applied(disk: Disk, j: Job, n: nat): Disk
    requires n <= |j.moved|
  {
    if n == 0 || j.req.op != WRITE then disk
    else Applied(disk, j, n - 1)[At(j.req, n - 1) := j.moved[n - 1]]
  }

  /** The disk after a sequence of jobs. */
  function Replay(disk: Disk, jobs: seq<Job>): Disk {
    if jobs == [] then disk
    else var j := jobs[|jobs| - 1]; Applied(Replay(disk, jobs[..|jobs| - 1]), j, |j.moved|)
  }

  /** The job moved the right sectors: what a read delivered is what the disk held, from the first sector
      asked for on, and nothing was moved for other requests. */
  ghost predicate Honest(j: Job, before: Disk) {
    && |j.moved| <= j.req.count
    && (!Moves(j.req) ==> j.moved == [])
    && (!Moves(j.req) && j.req.op != FLUSH ==> j.over && j.status == INVALID)
    && (j.req.op == READ ==>
          forall i | 0 <= i < |j.moved| :: Holds(before, At(j.req, i), j.moved[i]))
    && (j.over && j.status == OK && Moves(j.req) ==> |j.moved| == j.req.count)
    && (!j.over && Moves(j.req) ==> |j.moved| < j.req.count)
  }

  ghost predicate AllHonest(disk: Disk, jobs: seq<Job>) {
    forall k | 0 <= k < |jobs| :: jobs[k].over && Honest(jobs[k], Replay(disk, jobs[..k]))
  }

  // ---------------------------------------------------------------- the invariant

  function Requests(jobs: seq<Job>): (r: seq<Request>)
    ensures |r| == |jobs| && forall i | 0 <= i < |r| :: r[i] == jobs[i].req
  {
    seq(|jobs|, i requires 0 <= i < |jobs| => jobs[i].req)
  }

  /** Every request that reached the driver's port, in order: executed, in execution, waiting. */
  function Pipeline(s: Sys): seq<Request> {
    Requests(s.jobs) + (if s.running.Some? then [s.running.value.req] else []) + s.toDriver
  }

  /** Ids grow along the pipeline, so no request is in it twice. */
  ghost predicate Growing(rs: seq<Request>, bound: nat) {
    && (forall i, j | 0 <= i < j < |rs| :: rs[i].id < rs[j].id)
    && (forall i | 0 <= i < |rs| :: rs[i].id < bound)
  }

  /** Any request in the pipeline with the id of req is req. */
  ghost predicate Owns(rs: seq<Request>, req: Request) {
    forall i | 0 <= i < |rs| && rs[i].id == req.id :: rs[i] == req
  }

  ghost predicate CallsOk(s: Sys) {
    forall t | t in s.calls :: s.calls[t].id < s.nextId && Owns(Pipeline(s), s.calls[t])
  }

  /** The response tells the result of a job that was executed. */
  ghost predicate Truthful(jobs: seq<Job>, r: Response) {
    exists k :: 0 <= k < |jobs| && r == ResponseTo(jobs[k])
  }

  ghost predicate RepliesOk(s: Sys) {
    forall i | 0 <= i < |s.toClient| :: Truthful(s.jobs, s.toClient[i])
  }

  /** What the outcome of a call says about the work of the driver. */
  ghost predicate SettledOk(s: Sys, x: Settled) {
    && x.req.id < s.nextId
    && Owns(Pipeline(s), x.req)
    && (x.outcome.NotSent? ==> forall i | 0 <= i < |Pipeline(s)| :: Pipeline(s)[i].id != x.req.id)
    && (x.outcome.Done? ==> exists k :: 0 <= k < |s.jobs| && Succeeded(s.jobs[k], x))
  }

  ghost predicate Succeeded(j: Job, x: Settled) {
    && x.outcome.Done? && j.req == x.req && j.status == OK
    && x.outcome.bytes == if x.req.op == FLUSH then 0 else Bytes(|j.moved|)
  }

  ghost predicate Inv(s: Sys, start: Disk) {
    && Growing(Pipeline(s), s.nextId)
    && CallsOk(s)
    && RepliesOk(s)
    && AllSettled(s, s.settled)
    && AllHonest(start, s.jobs)
    && (match s.running
        case None => s.disk == Replay(start, s.jobs)
        case Some(j) => Honest(j, Replay(start, s.jobs)) &&
                        s.disk == Applied(Replay(start, s.jobs), j, |j.moved|))
  }

  /** Nothing sent yet. */
  function Initial(owner: TaskId, disk: Disk): Sys {
    Sys(1, owner, map[], [], None, [], disk, [], [])
  }

  lemma InitialInv(owner: TaskId, disk: Disk)
    ensures Inv(Initial(owner, disk), disk)
  {
  }

  // ---------------------------------------------------------------- each event keeps it

  ghost predicate AllSettled(s: Sys, xs: seq<Settled>) {
    forall i | 0 <= i < |xs| :: SettledOk(s, xs[i])
  }

  /** A step that leaves the pipeline alone and at most adds jobs keeps what was settled. */
  lemma KeepSettled(s: Sys, s': Sys, xs: seq<Settled>)
    requires AllSettled(s, xs)
    requires Pipeline(s') == Pipeline(s) && s.jobs <= s'.jobs && s.nextId <= s'.nextId
    ensures AllSettled(s', xs)
  {
    hide Pipeline, Succeeded, Owns;
    forall i | 0 <= i < |xs| ensures SettledOk(s', xs[i]) {
      var x := xs[i];
      assert SettledOk(s, x);
      if x.outcome.Done? {
        var k :| 0 <= k < |s.jobs| && Succeeded(s.jobs[k], x);
        assert s'.jobs[k] == s.jobs[k];
      }
    }
  }

  lemma OneMoreSettled(s: Sys, xs: seq<Settled>, x: Settled)
    requires AllSettled(s, xs) && SettledOk(s, x)
    ensures AllSettled(s, xs + [x])
  {
    hide SettledOk;
  }

  lemma KeepReplies(s: Sys, s': Sys, rs: seq<Response>)
    requires RepliesOk(s) && s.jobs <= s'.jobs
    requires forall i | 0 <= i < |rs| :: rs[i] in s.toClient
    requires s'.toClient == rs
    ensures RepliesOk(s')
  {
    forall i | 0 <= i < |rs| ensures Truthful(s'.jobs, rs[i]) {
      var n :| 0 <= n < |s.toClient| && s.toClient[n] == rs[i];
      MoreJobs(s.jobs, s'.jobs, s.toClient[n]);
    }
  }

  lemma MoreJobs(jobs: seq<Job>, more: seq<Job>, r: Response)
    requires Truthful(jobs, r) && jobs <= more
    ensures Truthful(more, r)
  {
    var k :| 0 <= k < |jobs| && r == ResponseTo(jobs[k]);
    assert more[k] == jobs[k];
  }

  /** A new request has a new id; it concerns none of the calls so far. */
  lemma Append(rs: seq<Request>, req: Request, bound: nat)
    requires Growing(rs, bound) && req.id == bound
    ensures Growing(rs + [req], bound + 1) && Owns(rs + [req], req)
    ensures forall x: Request | x.id < bound && Owns(rs, x) :: Owns(rs + [req], x)
  {
  }

  lemma StartInv(s: Sys, start: Disk, e: Event)
    requires Inv(s, start) && e.Start? && CanHappen(s, e)
    ensures Inv(Perform(s, e), start)
  {
    var req := Request(s.nextId, e.op, e.drive, e.lba, e.count, e.buffer);
    Append(Pipeline(s), req, s.nextId);
    if |s.toDriver| >= QUEUE { RefusedInv(s, start, e.t, req); } else { SentInv(s, start, e.t, req); }
  }

  lemma RefusedInv(s: Sys, start: Disk, t: TaskId, req: Request)
    requires Inv(s, start) && req.id == s.nextId && |s.toDriver| >= QUEUE
    ensures Inv(Send(s, t, req), start)
  {
    var s' := Send(s, t, req);
    assert Pipeline(s') == Pipeline(s);
    KeepReplies(s, s', s.toClient);
    KeepSettled(s, s', s.settled);
    assert Owns(Pipeline(s), req);
    hide Pipeline, Honest, AllHonest, Applied, Replay, AllSettled;
    OneMoreSettled(s', s.settled, Settled(req, NotSent));
  }

  lemma SentInv(s: Sys, start: Disk, t: TaskId, req: Request)
    requires Inv(s, start) && req.id == s.nextId && |s.toDriver| < QUEUE
    ensures Inv(Send(s, t, req), start)
  {
    var s' := Send(s, t, req);
    Append(Pipeline(s), req, s.nextId);
    assert Pipeline(s') == Pipeline(s) + [req];
    KeepReplies(s, s', s.toClient);
    hide Pipeline, Growing, RepliesOk, Honest, AllHonest, Owns, Applied, Replay, AllSettled;
    SettledGrows(s, s', s.settled, req);
  }

  lemma SettledGrows(s: Sys, s': Sys, xs: seq<Settled>, req: Request)
    requires AllSettled(s, xs) && req.id == s.nextId <= s'.nextId
    requires Pipeline(s') == Pipeline(s) + [req] && s'.jobs == s.jobs
    requires forall x: Request | x.id < s.nextId && Owns(Pipeline(s), x) :: Owns(Pipeline(s'), x)
    ensures AllSettled(s', xs)
  {
    hide Pipeline, Owns, Succeeded;
    forall i | 0 <= i < |xs| ensures SettledOk(s', xs[i]) {
      assert SettledOk(s, xs[i]);
    }
  }

  /** What a finishing call reports is so. */
  lemma JudgedOk(s: Sys, req: Request)
    requires Owns(Pipeline(s), req) && req.id < s.nextId && RepliesOk(s) && s.toClient != []
    ensures SettledOk(s, Settled(req, Judge(req, s.toClient[0])))
  {
    var r := s.toClient[0];
    assert Truthful(s.jobs, r);
    var k :| 0 <= k < |s.jobs| && r == ResponseTo(s.jobs[k]);
    assert Pipeline(s)[k] == s.jobs[k].req;
    hide Pipeline, Bytes;
    if Judge(req, r).Done? { assert Succeeded(s.jobs[k], Settled(req, Judge(req, r))); }
  }

  lemma FinishInv(s: Sys, start: Disk, t: TaskId)
    requires Inv(s, start) && t in s.calls
    ensures Inv(EndCall(s, t), start)
  {
    var s' := EndCall(s, t);
    var req := s.calls[t];
    assert Pipeline(s') == Pipeline(s);
    hide Pipeline, Honest, AllHonest, Owns, Applied, Replay, Growing, Judge, AllSettled;
    KeepReplies(s, s', s'.toClient);
    if t == s.owner && s.toClient != [] {
      JudgedOk(s, req);
      OneMoreSettled(s, s.settled, Settled(req, Judge(req, s.toClient[0])));
    } else {
      OneMoreSettled(s, s.settled, Settled(req, Failed));
    }
    hide RepliesOk;
    KeepSettled(s, s', s'.settled);
  }

  lemma TakeInv(s: Sys, start: Disk)
    requires Inv(s, start) && CanHappen(s, Take)
    ensures Inv(Perform(s, Take), start)
  {
    var s' := Perform(s, Take);
    assert Pipeline(s') == Pipeline(s);
    hide Pipeline, AllHonest, Owns, Replay, Growing, AllSettled;
    KeepReplies(s, s', s'.toClient);
    hide RepliesOk;
    KeepSettled(s, s', s'.settled);
  }

  lemma AppliedPrefix(disk: Disk, j: Job, j': Job, n: nat)
    requires j'.req == j.req && j.moved <= j'.moved && n <= |j.moved|
    ensures Applied(disk, j', n) == Applied(disk, j, n)
  {
    if n > 0 && j.req.op == WRITE { AppliedPrefix(disk, j, j', n - 1); }
  }

  lemma ReadsLeaveDisk(disk: Disk, j: Job)
    requires j.req.op != WRITE
    ensures Applied(disk, j, |j.moved|) == disk
  {
  }

  lemma AdvanceHonest(j: Job, before: Disk, ok: bool, data: Sector)
    requires Honest(j, before) && Possible(j, Applied(before, j, |j.moved|), ok)
    ensures var disk := Applied(before, j, |j.moved|);
            var j' := Advance(j, disk, ok, data);
            Honest(j', before) && DiskAfter(j, disk, ok, data) == Applied(before, j', |j'.moved|) && j'.req == j.req
  {
    var disk := Applied(before, j, |j.moved|);
    var j' := Advance(j, disk, ok, data);
    if j.req.op != WRITE { ReadsLeaveDisk(before, j); ReadsLeaveDisk(before, j'); }
    AppliedPrefix(before, j, j', |j.moved|);
    if ok && j.req.op == WRITE { AppliedUnfold(before, j', |j'.moved|); }
    hide Applied, At;
    if j.req.op == READ {
      forall i | 0 <= i < |j'.moved| ensures Holds(before, At(j'.req, i), j'.moved[i]) {
        if i < |j.moved| { assert Holds(before, At(j.req, i), j.moved[i]); }
      }
    }
  }

  lemma AppliedUnfold(disk: Disk, j: Job, n: nat)
    requires 0 < n <= |j.moved| && j.req.op == WRITE
    ensures Applied(disk, j, n)
            == Applied(disk, j, n - 1)[At(j.req, n - 1) := j.moved[n - 1]]
  {
  }

  lemma HardwareInv(s: Sys, start: Disk, ok: bool, data: Sector)
    requires Inv(s, start) && CanHappen(s, Hardware(ok, data))
    ensures Inv(Perform(s, Hardware(ok, data)), start)
  {
    var s' := Perform(s, Hardware(ok, data));
    AdvanceHonest(s.running.value, Replay(start, s.jobs), ok, data);
    assert Pipeline(s') == Pipeline(s);
    hide Pipeline, AllHonest, Owns, Replay, Growing, Advance, DiskAfter, Applied, Honest, AllSettled;
    KeepReplies(s, s', s'.toClient);
    KeepSettled(s, s', s'.settled);
  }

  lemma AnswerInv(s: Sys, start: Disk)
    requires Inv(s, start) && CanHappen(s, Answer)
    ensures Inv(Perform(s, Answer), start)
  {
    var s' := Perform(s, Answer);
    var j := s.running.value;
    assert Pipeline(s') == Pipeline(s);
    hide Pipeline, Owns, Growing, AllSettled, Honest;
    assert Replay(start, s'.jobs) == Applied(Replay(start, s.jobs), j, |j.moved|) by {
      assert s'.jobs[..|s.jobs|] == s.jobs;
    }
    OneMoreJob(start, s.jobs, j);
    hide Replay, Applied, AllHonest;
    AnswerReplies(s, s');
    hide RepliesOk;
    KeepSettled(s, s', s'.settled);
  }

  lemma OneMoreJob(start: Disk, jobs: seq<Job>, j: Job)
    requires AllHonest(start, jobs) && j.over && Honest(j, Replay(start, jobs))
    ensures AllHonest(start, jobs + [j])
  {
    hide Honest;
    var more := jobs + [j];
    forall k | 0 <= k < |more| ensures more[k].over && Honest(more[k], Replay(start, more[..k])) {
      assert more[..k] == jobs[..k];
    }
    assert jobs[..|jobs|] == jobs;
  }

  lemma AnswerReplies(s: Sys, s': Sys)
    requires RepliesOk(s) && CanHappen(s, Answer) && s' == Perform(s, Answer)
    ensures RepliesOk(s')
  {
    forall i | 0 <= i < |s'.toClient| ensures Truthful(s'.jobs, s'.toClient[i]) {
      if i < |s.toClient| {
        MoreJobs(s.jobs, s'.jobs, s.toClient[i]);
      } else {
        assert s'.jobs[|s.jobs|] == s.running.value;
      }
    }
  }

  lemma StepInv(s: Sys, start: Disk, e: Event)
    requires Inv(s, start) && CanHappen(s, e)
    ensures Inv(Perform(s, e), start)
  {
    match e
    case Start(_, _, _, _, _, _) => StartInv(s, start, e);
    case Finish(t) => FinishInv(s, start, t);
    case Take => TakeInv(s, start);
    case Hardware(ok, data) => HardwareInv(s, start, ok, data);
    case Answer => AnswerInv(s, start);
  }

  // ---------------------------------------------------------------- every run

  predicate Happens(s: Sys, es: seq<Event>)
    decreases es
  {
    es == [] || (CanHappen(s, es[0]) && Happens(Perform(s, es[0]), es[1..]))
  }

  function Run(s: Sys, es: seq<Event>): Sys
    requires Happens(s, es)
    decreases es
  {
    if es == [] then s else Run(Perform(s, es[0]), es[1..])
  }

  lemma {:induction false} RunInv(s: Sys, start: Disk, es: seq<Event>)
    requires Inv(s, start) && Happens(s, es)
    ensures Inv(Run(s, es), start)
    decreases es
  {
    hide Inv, Perform, CanHappen;
    if es != [] {
      StepInv(s, start, es[0]);
      RunInv(Perform(s, es[0]), start, es[1..]);
    }
  }

  /** How often the driver executed a request with the given id. */
  function Executions(jobs: seq<Job>, id: nat): nat {
    if jobs == [] then 0
    else (if jobs[|jobs| - 1].req.id == id then 1 else 0) + Executions(jobs[..|jobs| - 1], id)
  }

  lemma {:induction false} NoneWithout(jobs: seq<Job>, id: nat)
    requires forall i | 0 <= i < |jobs| :: jobs[i].req.id != id
    ensures Executions(jobs, id) == 0
  {
    if jobs != [] { NoneWithout(jobs[..|jobs| - 1], id); }
  }

  lemma {:induction false} AtMostOnce(jobs: seq<Job>, id: nat)
    requires forall i, j | 0 <= i < j < |jobs| :: jobs[i].req.id < jobs[j].req.id
    ensures Executions(jobs, id) <= 1
    ensures (exists k :: 0 <= k < |jobs| && jobs[k].req.id == id) ==> Executions(jobs, id) == 1
  {
    if jobs != [] {
      var n := |jobs| - 1;
      if jobs[n].req.id == id { NoneWithout(jobs[..n], id); }
      else {
        AtMostOnce(jobs[..n], id);
        if k :| 0 <= k < |jobs| && jobs[k].req.id == id { assert jobs[..n][k] == jobs[k]; }
      }
    }
  }

  /** The request was executed by job k of the run, completely, on the sectors that At names for it. */
  ghost predicate ExecutedBy(jobs: seq<Job>, start: Disk, k: nat, x: Settled)
    requires x.outcome.Done?
  {
    && k < |jobs|
    && jobs[k].req == x.req && jobs[k].status == OK
    && (Moves(x.req) ==> |jobs[k].moved| == x.req.count &&
                         x.outcome.bytes == Bytes(x.req.count))
    && (x.req.op == READ ==>
          forall i | 0 <= i < x.req.count :: Holds(Replay(start, jobs[..k]), At(x.req, i), jobs[k].moved[i]))
  }

  /** A call that succeeded was executed exactly once, with the sectors it asked for; one that failed was
      executed at most once, and never if it was not sent. */
  ghost predicate Safe(jobs: seq<Job>, start: Disk, x: Settled) {
    match x.outcome
    case NotSent => Executions(jobs, x.req.id) == 0
    case Failed => Executions(jobs, x.req.id) <= 1
    case Done(_) => Executions(jobs, x.req.id) == 1 && exists k :: ExecutedBy(jobs, start, k, x)
  }

  lemma CallsAreSafe(owner: TaskId, disk: Disk, es: seq<Event>, n: nat)
    requires Happens(Initial(owner, disk), es) && n < |Run(Initial(owner, disk), es).settled|
    ensures var s := Run(Initial(owner, disk), es); Safe(s.jobs, disk, s.settled[n])
  {
    InitialInv(owner, disk);
    RunInv(Initial(owner, disk), disk, es);
    var s := Run(Initial(owner, disk), es);
    hide Run, Happens, Safe;
    SafeWhereInv(s, disk, n);
  }

  lemma SafeWhereInv(s: Sys, start: Disk, n: nat)
    requires Inv(s, start) && n < |s.settled|
    ensures Safe(s.jobs, start, s.settled[n])
  {
    var x := s.settled[n];
    assert SettledOk(s, x) && AllHonest(start, s.jobs);
    hide Executions, Succeeded, Honest, AllHonest, RepliesOk, CallsOk, Replay, Applied;
    InPipeline(s);
    AtMostOnce(s.jobs, x.req.id);
    hide Pipeline, Growing, Owns;
    match x.outcome
    case NotSent => NoneWithout(s.jobs, x.req.id);
    case Failed =>
    case Done(_) =>
      var k :| 0 <= k < |s.jobs| && Succeeded(s.jobs[k], x);
      SuccessMeans(s, start, k, x);
  }

  lemma InPipeline(s: Sys)
    requires Growing(Pipeline(s), s.nextId)
    ensures forall i | 0 <= i < |s.jobs| :: i < |Pipeline(s)| && Pipeline(s)[i] == s.jobs[i].req
    ensures forall i, j | 0 <= i < j < |s.jobs| :: s.jobs[i].req.id < s.jobs[j].req.id
  {
    var p := Pipeline(s);
    forall i, j | 0 <= i < j < |s.jobs| ensures s.jobs[i].req.id < s.jobs[j].req.id {
      assert p[i].id < p[j].id;
    }
  }

  lemma SuccessMeans(s: Sys, start: Disk, k: nat, x: Settled)
    requires AllHonest(start, s.jobs) && k < |s.jobs| && Succeeded(s.jobs[k], x)
    ensures ExecutedBy(s.jobs, start, k, x) && s.jobs[k].req.id == x.req.id
  {
    hide Replay;
    assert s.jobs[k].over && Honest(s.jobs[k], Replay(start, s.jobs[..k]));
  }

  /** The disk only ever changes through writes the driver executed: it is the initial disk with the jobs
      replayed in order, the one in progress last. */
  lemma DiskIsReplay(owner: TaskId, disk: Disk, es: seq<Event>)
    requires Happens(Initial(owner, disk), es)
    ensures var s := Run(Initial(owner, disk), es);
            s.disk == Replay(disk, s.jobs + if s.running.Some? then [s.running.value] else [])
  {
    InitialInv(owner, disk);
    RunInv(Initial(owner, disk), disk, es);
    ReplayWhereInv(Run(Initial(owner, disk), es), disk);
  }

  lemma ReplayWhereInv(s: Sys, start: Disk)
    requires Inv(s, start)
    ensures s.disk == Replay(start, s.jobs + if s.running.Some? then [s.running.value] else [])
  {
    if s.running.Some? {
      assert (s.jobs + [s.running.value])[..|s.jobs|] == s.jobs;
    } else {
      assert s.jobs + [] == s.jobs;
    }
  }
}
