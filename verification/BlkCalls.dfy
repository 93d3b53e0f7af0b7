/** What the client's calls come to: how each ends with the message that its receive took, and that a client
    which makes one call after the other gets the driver's answer to each of them. */
module BlkCalls {
  import opened Common
  import opened Tasks
  import Ipc
  import Kernel
  import opened BlkProtocol
  import opened BlkClient
  import opened BlkOverIpc
  import opened BlkSystem

  // ---------------------------------------------------------------- how one call ends

  /** The response with the result of a job, as it is on the wire. */
  function Result(j: Job): Response {
    Response(j.req.id, j.status, 512 * |j.moved| % 0x1_0000_0000)
  }

  /** The call ended as its own job did. */
  predicate EndsAs(j: Job, x: Settled) {
    && j.req == x.req
    && x.outcome == if j.status == 0 then Done(if j.req.op == FLUSH then 0 else 512 * |j.moved| % 0x1_0000_0000) else Failed
  }

  /** How a call ends with the reply at the front of the client's queue: it is the answer to some job, and the
      call succeeds exactly if that job was its own and went well. */
  lemma ReplyJudged(b: Sys, start: Disk, t: TaskId) returns (k: nat)
    requires Inv(b, start) && t == b.owner && t in b.calls && b.toClient != []
    ensures k < |b.jobs| && b.toClient[0] == Result(b.jobs[k])
    ensures var req, j, b' := b.calls[t], b.jobs[k], EndCall(b, t);
            && b'.calls == b.calls - {t} && b'.toClient == b.toClient[1..]
            && exists x :: b'.settled == b.settled + [x] && x.req == req &&
                           if j.req == req then EndsAs(j, x) else x.outcome == Failed
  {
    var req := b.calls[t];
    assert Truthful(b.jobs, b.toClient[0]);
    k :| 0 <= k < |b.jobs| && b.toClient[0] == ResponseTo(b.jobs[k]);
    assert Pipeline(b)[k] == b.jobs[k].req;
    hide Pipeline, AllHonest, AllSettled, Honest, Applied, Replay;
    var x := Settled(req, Judge(req, b.toClient[0]));
    assert EndCall(b, t).settled == b.settled + [x];
  }

  /** The call of the current task goes on after this step: it waits. */
  ghost predicate Blocks(w: World, st: Step, dp: nat, cp: uint32)
    requires Sound(w, dp, cp)
  {
    st.Await? && w.k.ports[cp].count == 0 && Kernel.Owns(w.k, cp)
  }

  /** The current task receives a letter. */
  ghost predicate Receives(w: World, st: Step, dp: nat, cp: uint32)
    requires Sound(w, dp, cp)
  {
    w.k.ports[cp].count > 0 && (st.Wakened? || Kernel.Owns(w.k, cp))
  }

  /** The letter that waits longest at the port. */
  ghost function OldestLetter(k: Kernel.Sys, p: nat): Ipc.Letter
    requires Kernel.Inv(k) && Kernel.Shaped(k) && p < Ipc.PORTS && k.ports[p].inUse && k.ports[p].count > 0
  {
    PortQueue(k, p);
    Ipc.Waiting(k.ports[p])[0]
  }

  /** The call of task t, and no other, is over. */
  predicate Ended(r: World, r': World, t: TaskId) {
    && t in r.calls && r'.calls == r.calls - {t}
    && |r'.settled| == |r.settled| + 1 && r'.settled[..|r.settled|] == r.settled && Last(r').req == r.calls[t]
  }

  function Last(r: World): Settled
    requires r.settled != []
  {
    r.settled[|r.settled| - 1]
  }

  /** The message is the answer to job k, and the call succeeds exactly if the job was its own and went well. */
  predicate Given(jobs: seq<Job>, k: nat, body: seq<byte>, x: Settled) {
    && k < |jobs| && jobs[k].req.id < WORD && body == EncodeResponse(Result(jobs[k]))
    && if jobs[k].req == x.req then EndsAs(jobs[k], x) else x.outcome == Failed
  }

  /** How the step of a receiving client ends its call, if it does; k is the job that the letter speaks of. */
  ghost predicate Ends(r: World, r': World, st: Step, dp: nat, cp: uint32, k: nat)
    requires Sound(r, dp, cp)
  {
    if Blocks(r, st, dp, cp) then r.k.sched.current in r.calls && r'.calls == r.calls && r'.settled == r.settled
    else
      && Ended(r, r', r.k.sched.current)
      && if Receives(r, st, dp, cp) then Given(r.jobs, k, OldestLetter(r.k, cp).body, Last(r'))
         else Last(r').outcome == Failed
  }

  lemma EndedWithout(r: World, r': World, b: Sys, t: TaskId)
    requires SameVars(r, b) && t in b.calls && SameVars(r', EndCall(b, t)) && (t != b.owner || b.toClient == [])
    ensures Ended(r, r', t) && Last(r').outcome == Failed
  {
  }

  lemma EndedWith(r: World, r': World, b: Sys, start: Disk, t: TaskId, body: seq<byte>) returns (k: nat)
    requires SameVars(r, b) && t in b.calls && SameVars(r', EndCall(b, t)) && t == b.owner && b.toClient != []
    requires Inv(b, start) && b.toClient[0].id < WORD && body == EncodeResponse(b.toClient[0])
    ensures Ended(r, r', t) && Given(r.jobs, k, body, Last(r'))
  {
    k := ReplyJudged(b, start, t);
    hide Inv, EndCall, EncodeResponse, EndsAs;
  }

  /** The caller and its port. */
  lemma CallerFacts(r: World, b: Sys, dp: nat, cp: uint32, st: Step)
    requires Sound(r, dp, cp) && Sim(r, b, dp, cp) && CanStep(r, st, dp, cp) && (st.Await? || st.Wakened?)
    ensures r.k.sched.current in r.calls && b.calls == r.calls && b.settled == r.settled && b.jobs == r.jobs
    ensures Kernel.Owns(r.k, cp) <==> r.k.sched.current == b.owner
    ensures st.Wakened? ==> Kernel.Owns(r.k, cp)
    ensures r.k.ports[cp].count == |b.toClient|
    ensures b.toClient != [] ==> b.toClient[0].id < WORD && OldestLetter(r.k, cp).body == EncodeResponse(b.toClient[0])
  {
    assert r.k.ports[cp].inUse;
    if st.Wakened? { Kernel.ResumeStillOwns(r.k); }
    OwnerIs(r.k, cp, b.owner);
    QueueLength(r.k, b, dp, cp);
    hide Kernel.Inv, Kernel.Shaped, Ipc.Waiting, Ipc.QueueOk, EncodeResponse;
  }

  /** The protocol's step is EndCall, or none. */
  lemma EndEvent(r: World, b: Sys, dp: nat, cp: uint32, st: Step)
    requires Sound(r, dp, cp) && Sim(r, b, dp, cp) && CanStep(r, st, dp, cp) && (st.Await? || st.Wakened?)
    requires r.k.sched.current in b.calls
    ensures SameVars(BlkSystem.Next(r, st, dp, cp), if Blocks(r, st, dp, cp) then b else EndCall(b, r.k.sched.current))
  {
    var t := r.k.sched.current;
    StepSim(r, b, st, dp, cp);
    OneEvent(b, Finish(t));
    hide Sound, CanStep, BlkSystem.Next, SameVars, Carries, EndCall, Kernel.Owns;
  }

  lemma CallEndsHere(r: World, b: Sys, start: Disk, dp: nat, cp: uint32, st: Step) returns (k: nat)
    requires Sound(r, dp, cp) && Sim(r, b, dp, cp) && Inv(b, start)
    requires CanStep(r, st, dp, cp) && (st.Await? || st.Wakened?)
    ensures Ends(r, BlkSystem.Next(r, st, dp, cp), st, dp, cp, k)
  {
    k := 0;
    var t := r.k.sched.current;
    CallerFacts(r, b, dp, cp, st);
    EndEvent(r, b, dp, cp, st);
    var r' := BlkSystem.Next(r, st, dp, cp);
    assert SameVars(r, b);
    hide Kernel.Inv, Kernel.Shaped, Kernel.Owns, BlkSystem.Next, Inv, Sim, SameVars, CanStep, OldestLetter, Given, Ended,
      EndCall, Last;
    if Receives(r, st, dp, cp) {
      k := EndedWith(r, r', b, start, t, OldestLetter(r.k, cp).body);
    } else if !Blocks(r, st, dp, cp) {
      EndedWithout(r, r', b, t);
    }
  }

  /** In every run: a call ends with its receive unless that blocks. It ends with an error if there is nothing to
      receive; otherwise the letter is the answer to some job of the driver's, and the call succeeds, with that
      job's byte count, exactly if the job was its own and went well. */
  lemma CallEnds(w: World, steps: seq<Step>, dp: nat, cp: uint32, owner: TaskId, st: Step) returns (k: nat)
    requires Fresh(w, dp, cp, owner) && Goes(w, steps, dp, cp)
    requires CanStep(RunAll(w, steps, dp, cp), st, dp, cp) && (st.Await? || st.Wakened?)
    ensures var r := RunAll(w, steps, dp, cp); Ends(r, BlkSystem.Next(r, st, dp, cp), st, dp, cp, k)
  {
    var b := RunInvariant(w, steps, dp, cp, owner);
    hide RunAll, Goes, Fresh, Sim, Sound, CanStep, BlkSystem.Next, Inv, Ends;
    k := CallEndsHere(RunAll(w, steps, dp, cp), b, w.disk, dp, cp, st);
  }

  // ---------------------------------------------------------------- one call after the other

  /** The request of the call in progress waits for the driver, is in work, or its answer waits for the client;
      there is nothing else on the way. */
  ghost predicate OnItsWay(b: Sys, req: Request) {
    || (b.toDriver == [req] && b.running.None? && b.toClient == [])
    || (b.toDriver == [] && b.running.Some? && b.running.value.req == req && b.toClient == [])
    || (b.toDriver == [] && b.running.None? && b.jobs != [] && b.jobs[|b.jobs| - 1].req == req
        && b.toClient == [Result(b.jobs[|b.jobs| - 1])])
  }

  /** The call ended as the driver's job for it did. */
  ghost predicate OwnResult(jobs: seq<Job>, x: Settled) {
    exists k :: 0 <= k < |jobs| && EndsAs(jobs[k], x)
  }

  ghost predicate Single(b: Sys) {
    && (forall t | t in b.calls :: t == b.owner)
    && (b.owner !in b.calls ==> b.toDriver == [] && b.running.None? && b.toClient == [])
    && (b.owner in b.calls ==> OnItsWay(b, b.calls[b.owner]))
    && (forall i | 0 <= i < |b.settled| :: OwnResult(b.jobs, b.settled[i]))
  }

  /** Only the owner of the client's port calls, and its receives find a message. */
  predicate InTurn(b: Sys, e: Event) {
    match e
    case Start(t, _, _, _, _, _) => t == b.owner
    case Finish(t) => t == b.owner && b.toClient != []
    case _ => true
  }

  lemma MoreResults(jobs: seq<Job>, more: seq<Job>, xs: seq<Settled>)
    requires jobs <= more && forall i | 0 <= i < |xs| :: OwnResult(jobs, xs[i])
    ensures forall i | 0 <= i < |xs| :: OwnResult(more, xs[i])
  {
    forall i | 0 <= i < |xs| ensures OwnResult(more, xs[i]) {
      var k :| 0 <= k < |jobs| && EndsAs(jobs[k], xs[i]);
      assert EndsAs(more[k], xs[i]);
    }
  }

  lemma SingleStep(b: Sys, e: Event)
    requires Single(b) && CanHappen(b, e) && InTurn(b, e)
    ensures Single(Perform(b, e)) && Perform(b, e).owner == b.owner
  {
    var b' := Perform(b, e);
    MoreResults(b.jobs, b'.jobs, b.settled);
    if e.Finish? {
      var j := b.jobs[|b.jobs| - 1];
      assert EndsAs(j, Settled(b.calls[e.t], Judge(b.calls[e.t], Result(j))));
    }
  }

  lemma {:induction false} SingleEvents(b: Sys, es: seq<Event>)
    requires Single(b) && Happens(b, es) && |es| <= 1 && (es != [] ==> InTurn(b, es[0]))
    ensures Single(Run(b, es)) && Run(b, es).owner == b.owner
  {
    hide Single, CanHappen, InTurn;
    if es != [] {
      SingleStep(b, es[0]);
      assert es[1..] == [];
      hide Perform;
    }
  }

  /** In the run only task `owner` calls, and no receive of its ends without a message. */
  ghost predicate OneByOne(w: World, steps: seq<Step>, dp: nat, cp: uint32, owner: TaskId)
    requires Sound(w, dp, cp) && Goes(w, steps, dp, cp)
    decreases steps
  {
    steps == [] ||
    (&& (steps[0].Ask? ==> w.k.sched.current == owner)
     && (steps[0].Wakened? ==> w.k.ports[cp].count > 0)
     && (StepSound(w, steps[0], dp, cp); OneByOne(BlkSystem.Next(w, steps[0], dp, cp), steps[1..], dp, cp, owner)))
  }

  lemma StepInTurn(w: World, b: Sys, st: Step, dp: nat, cp: uint32)
    requires Sound(w, dp, cp) && CanStep(w, st, dp, cp) && Sim(w, b, dp, cp) && Single(b)
    requires (st.Ask? ==> w.k.sched.current == b.owner) && (st.Wakened? ==> w.k.ports[cp].count > 0)
    ensures var es := EventsOf(w, st, dp, cp); |es| <= 1 && (es != [] ==> InTurn(b, es[0]))
  {
    if st.Await? || st.Wakened? {
      CallerFacts(w, b, dp, cp, st);
      assert w.k.sched.current in b.calls;
    }
    hide Sound, CanStep, Sim, Kernel.Owns;
  }

  lemma {:induction false} RunSingle(w: World, b: Sys, steps: seq<Step>, dp: nat, cp: uint32) returns (b': Sys)
    requires Sound(w, dp, cp) && Goes(w, steps, dp, cp) && Sim(w, b, dp, cp) && Single(b)
    requires OneByOne(w, steps, dp, cp, b.owner)
    ensures Sim(RunAll(w, steps, dp, cp), b', dp, cp) && Single(b')
    decreases steps
  {
    hide Sound, CanStep, Sim, BlkSystem.Next, EventsOf, Single;
    b' := b;
    if steps != [] {
      StepSound(w, steps[0], dp, cp);
      StepSim(w, b, steps[0], dp, cp);
      StepInTurn(w, b, steps[0], dp, cp);
      var es := EventsOf(w, steps[0], dp, cp);
      SingleEvents(b, es);
      b' := RunSingle(BlkSystem.Next(w, steps[0], dp, cp), Run(b, es), steps[1..], dp, cp);
    }
  }

  /** A client that makes one call after the other, and whose receives are not resumed early, gets for each call
      just what the driver's job for it came to: no call is refused, and it succeeds exactly if the job did. */
  lemma OneCallAfterTheOther(w: World, steps: seq<Step>, dp: nat, cp: uint32, owner: TaskId, n: nat)
    requires Fresh(w, dp, cp, owner) && Goes(w, steps, dp, cp) && OneByOne(w, steps, dp, cp, owner)
    requires n < |RunAll(w, steps, dp, cp).settled|
    ensures var r := RunAll(w, steps, dp, cp);
            exists k :: 0 <= k < |r.jobs| && EndsAs(r.jobs[k], r.settled[n])
  {
    FreshSim(w, dp, cp, owner);
    var b := Initial(owner, w.disk);
    assert Single(b);
    var b' := RunSingle(w, b, steps, dp, cp);
    hide RunAll, Goes, Fresh, Sound, EndsAs, OneByOne, Carries;
    assert OwnResult(b'.jobs, b'.settled[n]);
  }
}
