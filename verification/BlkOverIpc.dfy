/** The block-device protocol on the kernel's ports: the two queues of module BlkProtocol are what waits at the
    driver's port and at the client's port, message for message, and every run of the kernel in which only the
    client functions and the driver use these ports is a run of the protocol. */
module BlkOverIpc {
  import opened Common
  import Ipc
  import Kernel
  import BlkProtocol
  import Sched
  import opened Tasks
  import opened BlkClient

  ghost predicate AllOnWire(rs: seq<BlkProtocol.Request>) {
    forall i | 0 <= i < |rs| :: OnWire(rs[i])
  }

  ghost predicate AllNumbered(rs: seq<BlkProtocol.Response>) {
    forall i | 0 <= i < |rs| :: rs[i].id < WORD
  }

  /** Letter for letter, the port holds these requests, each asking for its answer at port cp. */
  ghost predicate HoldsRequests(ls: seq<Ipc.Letter>, rs: seq<BlkProtocol.Request>, cp: nat) {
    && |ls| == |rs| && AllOnWire(rs)
    && forall i | 0 <= i < |ls| :: ls[i].body == EncodeRequest(rs[i]) && ls[i].replyTo == cp
  }

  ghost predicate HoldsResponses(ls: seq<Ipc.Letter>, rs: seq<BlkProtocol.Response>) {
    && |ls| == |rs| && AllNumbered(rs)
    && forall i | 0 <= i < |ls| :: ls[i].body == EncodeResponse(rs[i])
  }

  lemma OneRequestMore(ls: seq<Ipc.Letter>, rs: seq<BlkProtocol.Request>, cp: nat, l: Ipc.Letter,
          req: BlkProtocol.Request)
    requires HoldsRequests(ls, rs, cp) && OnWire(req) && l.body == EncodeRequest(req) && l.replyTo == cp
    ensures HoldsRequests(ls + [l], rs + [req], cp)
  {
    hide EncodeRequest;
  }

  lemma OneResponseMore(ls: seq<Ipc.Letter>, rs: seq<BlkProtocol.Response>, l: Ipc.Letter, r: BlkProtocol.Response)
    requires HoldsResponses(ls, rs) && r.id < WORD && l.body == EncodeResponse(r)
    ensures HoldsResponses(ls + [l], rs + [r])
  {
    hide EncodeResponse;
  }

  lemma FirstRequest(ls: seq<Ipc.Letter>, l: Ipc.Letter, rest: seq<Ipc.Letter>, rs: seq<BlkProtocol.Request>, cp: nat)
    requires HoldsRequests(ls, rs, cp) && ls == [l] + rest
    ensures rs != [] && |l.body| == 24 && DecodeRequest(l.body) == rs[0] && l.replyTo == cp
    ensures HoldsRequests(rest, rs[1..], cp)
  {
    hide EncodeRequest, DecodeRequest;
    assert ls[0] == l && forall i | 0 <= i < |rest| :: rest[i] == ls[i + 1];
    assert OnWire(rs[0]) && l.body == EncodeRequest(rs[0]);
    RequestRoundTrip(rs[0], []);
    assert l.body + [] == l.body;
  }

  lemma FirstResponse(ls: seq<Ipc.Letter>, l: Ipc.Letter, rest: seq<Ipc.Letter>, rs: seq<BlkProtocol.Response>)
    requires HoldsResponses(ls, rs) && ls == [l] + rest
    ensures rs != [] && |l.body| == 12 && DecodeResponse(l.body) == rs[0]
    ensures HoldsResponses(rest, rs[1..])
  {
    hide EncodeResponse, DecodeResponse;
    assert ls[0] == l && forall i | 0 <= i < |rest| :: rest[i] == ls[i + 1];
    assert rs[0].id < WORD && l.body == EncodeResponse(rs[0]);
    ResponseRoundTrip(rs[0], []);
    assert l.body + [] == l.body;
  }

  /** The kernel's ports dp and cp carry the two queues of the protocol. */
  ghost predicate Carries(k: Kernel.Sys, b: BlkProtocol.Sys, dp: nat, cp: uint32) {
    && Kernel.Inv(k) && Kernel.Shaped(k) && dp < Ipc.PORTS && cp < Ipc.PORTS && dp != cp
    && k.ports[dp].inUse && Ipc.QueueOk(k.ports[dp]) && HoldsRequests(Ipc.Waiting(k.ports[dp]), b.toDriver, cp)
    && k.ports[cp].inUse && Ipc.QueueOk(k.ports[cp]) && HoldsResponses(Ipc.Waiting(k.ports[cp]), b.toClient)
  }

  /** The message that carries a request. */
  function RequestMessage(dp: nat, cp: uint32, req: BlkProtocol.Request): Kernel.Call
    requires OnWire(req)
  {
    Kernel.Send(dp, cp, 0, Some(EncodeRequest(req)), REQUEST_SIZE)
  }

  function ResponseMessage(cp: uint32, r: BlkProtocol.Response): Kernel.Call
    requires r.id < WORD
  {
    Kernel.Send(cp, 0, 0, Some(EncodeResponse(r)), RESPONSE_SIZE)
  }

  /** A port that is in use has a well-formed queue. */
  lemma PortQueue(k: Kernel.Sys, p: nat)
    requires Kernel.Inv(k) && Kernel.Shaped(k) && p < Ipc.PORTS && k.ports[p].inUse
    ensures Ipc.QueueOk(k.ports[p]) && |Ipc.Waiting(k.ports[p])| == k.ports[p].count <= Ipc.QUEUE
  {
    assert Kernel.PortOk(k.ports[p], k.log[p]);
  }

  /** What sending a letter with data does to the port it goes to, and to another. */
  lemma SendLetter(k: Kernel.Sys, c: Kernel.Call, p: nat)
    requires Kernel.Inv(k) && Kernel.Shaped(k) && c.Send? && Kernel.CanDo(k, c) && c.data.Some?
    requires c.dest < Ipc.PORTS && k.ports[c.dest].inUse && c.size <= Ipc.MAX_BODY
    requires p < Ipc.PORTS && k.ports[p].inUse
    ensures var k' := Kernel.Perform(k, c);
            && Kernel.Inv(k') && Kernel.Shaped(k') && k'.ports[p].inUse
            && Ipc.QueueOk(k.ports[p]) && Ipc.QueueOk(k'.ports[p])
            && (Kernel.Reply(k, c) == 0 <==> k.ports[c.dest].count < Ipc.QUEUE)
            && Ipc.Waiting(k'.ports[p]) ==
               if p == c.dest && Kernel.Reply(k, c) == 0 then
                 Ipc.Waiting(k.ports[p]) + [Ipc.Letter(Kernel.Me(k), c.replyTo, c.kind, c.data.value[..c.size])]
               else Ipc.Waiting(k.ports[p])
  {
    Kernel.StepInv(k, c);
    PortQueue(k, p);
    var x := Ipc.Parcel(Kernel.Me(k), c.replyTo, c.kind, c.data, c.size);
    if p == c.dest {
      if k.ports[p].count < Ipc.QUEUE {
        Ipc.EnqueueLetter(k.ports[p], x);
      } else {
        DropWaiting(k.ports[p], Wrap32(k.ports[p].drops + 1));
      }
    }
  }

  lemma DropWaiting(q: Ipc.Port, n: uint32)
    requires Ipc.QueueOk(q)
    ensures Ipc.QueueOk(q.(drops := n)) && Ipc.Waiting(q.(drops := n)) == Ipc.Waiting(q)
  {
    assert Ipc.Contents(q.(drops := n)) == Ipc.Contents(q);
  }

  lemma QueueLength(k: Kernel.Sys, b: BlkProtocol.Sys, dp: nat, cp: uint32)
    requires Carries(k, b, dp, cp)
    ensures k.ports[dp].count == |b.toDriver| && k.ports[cp].count == |b.toClient|
  {
    PortQueue(k, dp);
    PortQueue(k, cp);
  }

  /** Sending to one of the two ports leaves a sound pair of queues: the letters that one of them holds are as
      before, and the other has one more, or not. */
  lemma SendCarries(k: Kernel.Sys, b: BlkProtocol.Sys, b': BlkProtocol.Sys, dp: nat, cp: uint32, c: Kernel.Call)
    requires Carries(k, b, dp, cp) && c.Send? && Kernel.CanDo(k, c) && c.data.Some? && c.size <= Ipc.MAX_BODY
    requires var l := Ipc.Letter(Kernel.Me(k), c.replyTo, c.kind, c.data.value[..c.size]);
             var more := Kernel.Reply(k, c) == 0;
             || (c.dest == dp && b'.toClient == b.toClient &&
                 HoldsRequests(Ipc.Waiting(k.ports[dp]) + (if more then [l] else []), b'.toDriver, cp))
             || (c.dest == cp && b'.toDriver == b.toDriver &&
                 HoldsResponses(Ipc.Waiting(k.ports[cp]) + (if more then [l] else []), b'.toClient))
    ensures Carries(Kernel.Perform(k, c), b', dp, cp)
  {
    NothingMore(Ipc.Waiting(k.ports[dp]));
    NothingMore(Ipc.Waiting(k.ports[cp]));
    hide Kernel.Inv, Kernel.Shaped, Kernel.Perform, Kernel.Reply, Kernel.CanDo, Ipc.Waiting, Ipc.QueueOk, HoldsRequests,
      HoldsResponses;
    SendLetter(k, c, dp);
    SendLetter(k, c, cp);
  }

  lemma NothingMore(ls: seq<Ipc.Letter>)
    ensures ls + [] == ls
  {
  }

  /** A send is accepted exactly if the queue has room. */
  lemma RoomAt(k: Kernel.Sys, b: BlkProtocol.Sys, dp: nat, cp: uint32, c: Kernel.Call)
    requires Carries(k, b, dp, cp) && c.Send? && Kernel.CanDo(k, c) && c.size <= Ipc.MAX_BODY
    requires c.dest == dp || c.dest == cp
    ensures Kernel.Reply(k, c) == 0 <==> (if c.dest == dp then |b.toDriver| else |b.toClient|) < BlkProtocol.QUEUE
  {
    QueueLength(k, b, dp, cp);
  }

  /** Sending a request through the kernel is the protocol's step, with the same outcome. */
  lemma RequestIsSent(k: Kernel.Sys, b: BlkProtocol.Sys, dp: nat, cp: uint32, t: nat, req: BlkProtocol.Request)
    requires Carries(k, b, dp, cp) && req.id == b.nextId < WORD
    ensures var c := RequestMessage(dp, cp, req);
            && Kernel.CanDo(k, c)
            && (Kernel.Reply(k, c) == 0 <==> |b.toDriver| < BlkProtocol.QUEUE)
            && Carries(Kernel.Perform(k, c), BlkProtocol.Send(b, t, req), dp, cp)
  {
    var c := RequestMessage(dp, cp, req);
    var ls := Ipc.Waiting(k.ports[dp]);
    assert k.sched.current < |k.sched.tasks| && HoldsRequests(ls, b.toDriver, cp);
    RoomAt(k, b, dp, cp, c);
    hide Carries, Kernel.Perform, Kernel.Reply, Ipc.Waiting, EncodeRequest, HoldsRequests;
    assert EncodeRequest(req)[..24] == EncodeRequest(req);
    OneRequestMore(ls, b.toDriver, cp, Ipc.Letter(Kernel.Me(k), cp, 0, EncodeRequest(req)), req);
    NothingMore(ls);
    SendCarries(k, b, BlkProtocol.Send(b, t, req), dp, cp, c);
  }

  /** So is sending an answer: it is dropped exactly if the client's queue is full. */
  lemma AnswerIsSent(k: Kernel.Sys, b: BlkProtocol.Sys, dp: nat, cp: uint32)
    requires Carries(k, b, dp, cp) && BlkProtocol.CanHappen(b, BlkProtocol.Answer) && b.running.value.req.id < WORD
    ensures var c := ResponseMessage(cp, BlkProtocol.ResponseTo(b.running.value));
            Kernel.CanDo(k, c) && Carries(Kernel.Perform(k, c), BlkProtocol.Perform(b, BlkProtocol.Answer), dp, cp)
  {
    var r := BlkProtocol.ResponseTo(b.running.value);
    var c := ResponseMessage(cp, r);
    var ls := Ipc.Waiting(k.ports[cp]);
    assert k.sched.current < |k.sched.tasks| && HoldsResponses(ls, b.toClient);
    RoomAt(k, b, dp, cp, c);
    hide Carries, Kernel.Perform, Kernel.Reply, Ipc.Waiting, EncodeResponse, HoldsResponses, BlkProtocol.ResponseTo;
    assert EncodeResponse(r)[..12] == EncodeResponse(r);
    OneResponseMore(ls, b.toClient, Ipc.Letter(Kernel.Me(k), 0, 0, EncodeResponse(r)), r);
    NothingMore(ls);
    SendCarries(k, b, BlkProtocol.Perform(b, BlkProtocol.Answer), dp, cp, c);
  }

  // ---------------------------------------------------------------- receiving

  /** The letter that a receive from the port takes. */
  ghost function FirstLetter(k: Kernel.Sys, p: nat): Ipc.Letter
    requires Kernel.Shaped(k) && p < Ipc.PORTS
  {
    var q := k.ports[p];
    Ipc.Open(q.queue[q.head])
  }

  /** The current task's call takes a letter from the port: its ipc_recv, or the end of one that blocked. */
  ghost predicate Takes(k: Kernel.Sys, c: Kernel.Call, p: nat)
    requires Kernel.Shaped(k)
  {
    && Kernel.CanDo(k, c) && p < Ipc.PORTS && k.ports[p].inUse && k.ports[p].count > 0
    && ((c == Kernel.Recv(p) && Kernel.Owns(k, p)) || (c == Kernel.Resume && k.inRecv[k.sched.current] == p))
  }

  /** What receiving does to the port it takes from, and to another. */
  lemma TakeLetter(k: Kernel.Sys, c: Kernel.Call, from: nat, p: nat)
    requires Kernel.Inv(k) && Kernel.Shaped(k) && Takes(k, c, from) && p < Ipc.PORTS && k.ports[p].inUse
    ensures var k' := Kernel.Perform(k, c);
            && Kernel.Inv(k') && Kernel.Shaped(k') && k'.ports[p].inUse
            && Ipc.QueueOk(k.ports[p]) && Ipc.QueueOk(k'.ports[p])
            && (p != from ==> k'.ports[p] == k.ports[p])
            && (p == from ==> Ipc.Waiting(k.ports[p]) == [FirstLetter(k, p)] + Ipc.Waiting(k'.ports[p]))
  {
    Kernel.StepInv(k, c);
    PortQueue(k, p);
    PortQueue(k, from);
    if p == from { Ipc.DequeueLetter(k.ports[p], k.ports[p].queue[k.ports[p].head]); }
  }

  /** When the driver receives, it gets the first request of the protocol's queue, whole, and the port to
      answer to. */
  lemma DriverReceives(k: Kernel.Sys, b: BlkProtocol.Sys, dp: nat, cp: uint32, c: Kernel.Call)
    requires Carries(k, b, dp, cp) && Takes(k, c, dp)
    ensures var l := FirstLetter(k, dp);
            && b.toDriver != [] && |l.body| == 24 && DecodeRequest(l.body) == b.toDriver[0] && l.replyTo == cp
            && Carries(Kernel.Perform(k, c), b.(toDriver := b.toDriver[1..]), dp, cp)
  {
    assert |k.ports| == Ipc.PORTS && Kernel.CanDo(k, c);
    hide Kernel.Inv, Kernel.Shaped, Kernel.Perform, Ipc.Waiting, Ipc.QueueOk, FirstLetter, HoldsRequests,
      HoldsResponses, DecodeRequest, Takes;
    TakeLetter(k, c, dp, dp);
    TakeLetter(k, c, dp, cp);
    FirstRequest(Ipc.Waiting(k.ports[dp]), FirstLetter(k, dp), Ipc.Waiting(Kernel.Perform(k, c).ports[dp]),
                 b.toDriver, cp);
  }

  /** When the client receives, it gets the first response of the protocol's queue, whole. */
  lemma ClientReceives(k: Kernel.Sys, b: BlkProtocol.Sys, dp: nat, cp: uint32, c: Kernel.Call)
    requires Carries(k, b, dp, cp) && Takes(k, c, cp)
    ensures var l := FirstLetter(k, cp);
            && b.toClient != [] && |l.body| == 12 && DecodeResponse(l.body) == b.toClient[0]
            && Carries(Kernel.Perform(k, c), b.(toClient := b.toClient[1..]), dp, cp)
  {
    assert |k.ports| == Ipc.PORTS && Kernel.CanDo(k, c);
    hide Kernel.Inv, Kernel.Shaped, Kernel.Perform, Ipc.Waiting, Ipc.QueueOk, FirstLetter, HoldsRequests,
      HoldsResponses, DecodeResponse, Takes;
    TakeLetter(k, c, cp, dp);
    TakeLetter(k, c, cp, cp);
    FirstResponse(Ipc.Waiting(k.ports[cp]), FirstLetter(k, cp), Ipc.Waiting(Kernel.Perform(k, c).ports[cp]),
                  b.toClient);
  }

  // ---------------------------------------------------------------- what the rest of the system does

  /** The call does nothing at this port. */
  ghost predicate Quiet(k: Kernel.Sys, c: Kernel.Call, p: nat)
    requires Kernel.Shaped(k) && Kernel.CanDo(k, c)
  {
    match c
    case Send(dest, _, _, _, _) => dest != p
    case Recv(q) => q != p || !Kernel.Owns(k, p)
    case TryRecv(q) => q != p || !Kernel.Owns(k, p)
    case Destroy(q) => q != p || !Kernel.Owns(k, p)
    case Resume => k.inRecv[k.sched.current] != p
    case _ => true
  }

  /** A port in use stays as it is, with the tasks that wait at it. */
  lemma QuietKeeps(k: Kernel.Sys, c: Kernel.Call, p: nat)
    requires Kernel.Inv(k) && Kernel.Shaped(k) && Kernel.CanDo(k, c) && Quiet(k, c, p)
    requires p < Ipc.PORTS && k.ports[p].inUse
    ensures var k' := Kernel.Perform(k, c);
            && |k'.ports| == Ipc.PORTS && k'.ports[p] == k.ports[p]
            && forall t | t in k'.inRecv && k'.inRecv[t] == p :: t in k.inRecv && k.inRecv[t] == p
  {
    hide Kernel.Inv, Ipc.HasSlots, Sched.Schedule, Sched.Yield, Sched.SetState, Sched.Create, Kernel.Wake,
      Ipc.Enqueue, Ipc.Written, Ipc.Dequeue, Ipc.Matches;
  }

  /** The other calls of the system keep what the ports carry. */
  lemma OthersKeep(k: Kernel.Sys, b: BlkProtocol.Sys, dp: nat, cp: uint32, c: Kernel.Call)
    requires Carries(k, b, dp, cp) && Kernel.CanDo(k, c) && Quiet(k, c, dp) && Quiet(k, c, cp)
    ensures Carries(Kernel.Perform(k, c), b, dp, cp)
  {
    Kernel.StepInv(k, c);
    QuietKeeps(k, c, dp);
    QuietKeeps(k, c, cp);
    hide Kernel.Inv, Kernel.Shaped, Kernel.Perform, Ipc.Waiting, Ipc.QueueOk, HoldsRequests, HoldsResponses, Quiet;
  }
}
