/** What each call on ports does, in terms of the fields of struct ipc_port: creating, sending, receiving, and what
    is left of a port that was destroyed. */
module KernelCalls {
  import opened Common
  import opened Tasks
  import opened Ipc
  import opened Kernel

  /** Everything but port p and its history is as before. */
  ghost predicate OtherPortsSame(s: Sys, s': Sys, p: nat) {
    && |s'.ports| == |s.ports| && |s'.log| == |s.log|
    && (forall q | 0 <= q < |s.ports| && q != p :: s'.ports[q] == s.ports[q])
    && (forall q | 0 <= q < |s.log| && q != p :: s'.log[q] == s.log[q])
  }

  // ---------------------------------------------------------------- creating

  /** The port is that of a new owner: named, empty, and nobody waits there. */
  predicate BrandNew(q: Port, owner: nat, name: Name) {
    && q.inUse && q.owner == owner && q.name == name && q.count == 0 && q.waiter == None
    && q.totalSent == 0 && q.totalReceived == 0 && q.drops == 0
  }

  /** What creating a port with this name comes to: the first unused port, or nothing if all are in use. */
  ghost predicate Opens(s: Sys, i: int, s': Sys, name: Name)
    requires Shaped(s)
  {
    if i < 0 then i == -1 && s' == s && forall q | 0 <= q < PORTS :: s.ports[q].inUse
    else
      && i < PORTS && !s.ports[i].inUse && (forall q | 0 <= q < i :: s.ports[q].inUse)
      && OtherPortsSame(s, s', i) && s'.sched == s.sched && s'.inRecv == s.inRecv
      && BrandNew(s'.ports[i], s.sched.tasks[s.sched.current].pid, name) && s'.log[i] == PortLog([], [])
  }

  lemma OpenOpens(s: Sys, name: Name)
    requires Shaped(s)
    ensures Opens(s, match FreeFrom(s.ports, 0) case None => -1 case Some(i) => i, OpenPort(s, name), name)
  {
  }

  lemma CreatingOpens(s: Sys)
    requires Shaped(s) && CanDo(s, CreatePort)
    ensures Opens(s, Reply(s, CreatePort), Perform(s, CreatePort), [])
  {
    OpenOpens(s, []);
    hide OpenPort, Opens, HasSlots;
  }

  /** ipc_create_named_port refuses a null pointer and a name that agrees with one in use up to the end of the
      shorter; otherwise it opens a port under the first 31 characters. */
  lemma CreatingNamedOpens(s: Sys, name: Option<Name>)
    requires Shaped(s) && CanDo(s, CreateNamed(name))
    ensures var i, s' := Reply(s, CreateNamed(name)), Perform(s, CreateNamed(name));
            if name.None? || exists q :: 0 <= q < PORTS && s.ports[q].inUse && s.ports[q].name != [] &&
                                         (s.ports[q].name <= name.value || name.value <= s.ports[q].name)
            then i == -1 && s' == s
            else Opens(s, i, s', if |name.value| <= 31 then name.value else name.value[..31])
  {
    if name.Some? {
      OpenOpens(s, Stored(name.value));
      var found := FindFrom(s.ports, name.value, 0);
      hide OpenPort, Opens, HasSlots, FindFrom;
      if found.Some? { assert Named(s.ports[found.value]) && Matches(name.value, s.ports[found.value].name); }
    }
  }

  // ---------------------------------------------------------------- destroying

  /** Port p is not in use: there is nothing to be had from it. */
  ghost predicate Gone(s: Sys, p: nat)
    requires Shaped(s)
  {
    && (forall name :: FindFrom(s.ports, name, 0) != Some(p))
    && (forall replyTo, kind, data, size | CanDo(s, Send(p, replyTo, kind, data, size)) ::
          Refused(s, Send(p, replyTo, kind, data, size)))
    && (forall c | c in {Recv(p), TryRecv(p), Destroy(p)} && CanDo(s, c) :: Refused(s, c))
    && (CanDo(s, CreatePort) ==> 0 <= Reply(s, CreatePort) <= p)
  }

  /** The call returns -1 and does nothing. */
  ghost predicate Refused(s: Sys, c: Call)
    requires Shaped(s) && CanDo(s, c)
  {
    Reply(s, c) == -1 && Perform(s, c) == s
  }

  lemma UnusedIsGone(s: Sys, p: nat)
    requires Shaped(s) && p < PORTS && !s.ports[p].inUse
    ensures Gone(s, p)
  {
    hide HasSlots, FindFrom;
    forall name ensures FindFrom(s.ports, name, 0) != Some(p) {
      var r := FindFrom(s.ports, name, 0);
      assert r.Some? ==> Named(s.ports[r.value]);
    }
  }

  /** Destroying works for the owner only. Then the port is gone, whoever waited at it is READY, and nothing else
      has changed. */
  lemma DestroyedIsGone(s: Sys, p: nat)
    requires Inv(s) && Shaped(s) && CanDo(s, Destroy(p))
    ensures var s', me := Perform(s, Destroy(p)), s.sched.tasks[s.sched.current].pid;
            if p < PORTS && s.ports[p].inUse && s.ports[p].owner == me then
              && Reply(s, Destroy(p)) == 0 && Shaped(s') && !s'.ports[p].inUse && Gone(s', p)
              && OtherPortsSame(s, s', p) && s'.inRecv == s.inRecv && |s'.sched.tasks| == |s.sched.tasks|
              && forall t | 0 <= t < |s.sched.tasks| ::
                   s'.sched.tasks[t] == if s.ports[p].waiter == Some(t) then s.sched.tasks[t].(state := READY)
                                        else s.sched.tasks[t]
            else Refused(s, Destroy(p))
  {
    StepInv(s, Destroy(p));
    if Owns(s, p) {
      hide Inv, HasSlots, Gone;
      UnusedIsGone(Perform(s, Destroy(p)), p);
    }
  }

  /** In the run nobody is given port p. */
  ghost predicate NotReopened(s: Sys, cs: seq<Call>, p: nat)
    requires Inv(s) && Shaped(s) && Happens(s, cs)
    decreases cs
  {
    cs == [] || (!((cs[0].CreatePort? || cs[0].CreateNamed?) && Reply(s, cs[0]) == p) &&
                 (StepInv(s, cs[0]); NotReopened(Perform(s, cs[0]), cs[1..], p)))
  }

  lemma StaysUnused(s: Sys, c: Call, p: nat)
    requires Inv(s) && Shaped(s) && CanDo(s, c) && p < PORTS && !s.ports[p].inUse
    requires !((c.CreatePort? || c.CreateNamed?) && Reply(s, c) == p)
    ensures |Perform(s, c).ports| == PORTS && !Perform(s, c).ports[p].inUse
  {
    if c == Resume { ResumeStillOwns(s); }
    hide Inv, HasSlots, Sched.Schedule, Sched.Yield, Sched.SetState, Sched.Create, Kernel.Wake, Written, Matches;
  }

  lemma {:induction false} RunStaysUnused(s: Sys, cs: seq<Call>, p: nat)
    requires Inv(s) && Shaped(s) && Happens(s, cs) && p < PORTS && !s.ports[p].inUse && NotReopened(s, cs, p)
    ensures !Run(s, cs).ports[p].inUse
    decreases cs
  {
    hide Inv, Perform, Shaped, CanDo, Reply;
    if cs != [] {
      StepInv(s, cs[0]);
      StaysUnused(s, cs[0], p);
      RunStaysUnused(Perform(s, cs[0]), cs[1..], p);
    }
  }

  /** A destroyed port stays gone in every run, until somebody creates a port and is given this one. */
  lemma DestroyedStaysGone(s: Sys, p: nat, cs: seq<Call>)
    requires Inv(s) && Shaped(s) && CanDo(s, Destroy(p)) && Reply(s, Destroy(p)) == 0
    requires var s1 := Perform(s, Destroy(p)); Inv(s1) && Shaped(s1) && Happens(s1, cs) && NotReopened(s1, cs, p)
    ensures Gone(Run(Perform(s, Destroy(p)), cs), p)
  {
    assert Owns(s, p);
    DestroyedIsGone(s, p);
    hide Inv, Perform, Shaped, CanDo, Reply, Gone;
    RunStaysUnused(Perform(s, Destroy(p)), cs, p);
    UnusedIsGone(Run(Perform(s, Destroy(p)), cs), p);
  }

  // ---------------------------------------------------------------- sending and receiving

  /** The tasks after the waiter of a port, if there is one, was made READY. */
  ghost predicate WakesOnly(s: Sys, s': Sys, waiter: Option<TaskId>) {
    && s'.inRecv == s.inRecv && s'.sched == s.sched.(tasks := s'.sched.tasks)
    && |s'.sched.tasks| == |s.sched.tasks|
    && forall t | 0 <= t < |s.sched.tasks| ::
         s'.sched.tasks[t] == if waiter == Some(t) then s.sched.tasks[t].(state := READY) else s.sched.tasks[t]
  }

  /** The letter l joins the end of the queue. */
  ghost predicate JoinsQueue(q: Port, q': Port, l: Letter) {
    && QueueOk(q) && QueueOk(q') && q'.waiter == None && q'.count == q.count + 1
    && Waiting(q') == Waiting(q) + [l]
  }

  /** An accepted send. */
  lemma SendAccepted(s: Sys, c: Call)
    requires Inv(s) && Shaped(s) && c.Send? && CanDo(s, c)
    requires c.dest < PORTS && s.ports[c.dest].inUse && c.size <= 256 && s.ports[c.dest].count < 16
    ensures var s' := Perform(s, c);
            && Reply(s, c) == 0 && OtherPortsSame(s, s', c.dest) && WakesOnly(s, s', s.ports[c.dest].waiter)
            && exists l :: JoinsQueue(s.ports[c.dest], s'.ports[c.dest], l) && LetterOf(s, c, l)
  {
    var q, x := s.ports[c.dest], Parcel(Me(s), c.replyTo, c.kind, c.data, c.size);
    assert PortOk(q, s.log[c.dest]);
    hide Inv, HasSlots, QueueOk, Waiting, PortOk, WakesOnly;
    EnqueueLetter(q, x);
    var l := Open(Written(q.queue[q.tail], x));
    WrittenLetter(s, c, q.queue[q.tail]);
    assert JoinsQueue(q, Enqueue(q, x), l);
    WakeIs(s, q.waiter);
  }

  lemma WakeIs(s: Sys, waiter: Option<TaskId>)
    ensures WakesOnly(s, s.(sched := Kernel.Wake(s.sched, waiter)), waiter)
  {
  }

  /** The letter has the caller's pid, the reply port, the type and the bytes of the call. */
  ghost predicate LetterOf(s: Sys, c: Call, l: Letter)
    requires Shaped(s) && c.Send? && CanDo(s, c)
  {
    && l.sender == s.sched.tasks[s.sched.current].pid && l.replyTo == c.replyTo && l.kind == c.kind
    && |l.body| == c.size && (c.data.Some? ==> l.body == c.data.value[..c.size])
  }

  lemma WrittenLetter(s: Sys, c: Call, slot: Message)
    requires Shaped(s) && c.Send? && CanDo(s, c) && c.size <= 256 == |slot.data|
    ensures LetterOf(s, c, Open(Written(slot, Parcel(Me(s), c.replyTo, c.kind, c.data, c.size))))
  {
    hide HasSlots;
  }

  /** A send is accepted exactly by a port in use that has room, for at most 256 bytes: the letter joins the
      end of the queue and the waiter wakes. A full queue counts the loss; otherwise nothing happens. */
  lemma SendDoes(s: Sys, c: Call)
    requires Inv(s) && Shaped(s) && c.Send? && CanDo(s, c)
    ensures var s' := Perform(s, c);
            if c.dest < PORTS && s.ports[c.dest].inUse && c.size <= 256 then
              && OtherPortsSame(s, s', c.dest)
              && var q, q' := s.ports[c.dest], s'.ports[c.dest];
                 if q.count < 16 then
                   && Reply(s, c) == 0 && WakesOnly(s, s', q.waiter)
                   && exists l :: JoinsQueue(q, q', l) && LetterOf(s, c, l)
                 else
                   && Reply(s, c) == -1 && q' == q.(drops := (q.drops + 1) % 0x1_0000_0000)
                   && s' == s.(ports := s'.ports)
            else Refused(s, c)
  {
    if c.dest < PORTS && s.ports[c.dest].inUse && c.size <= 256 && s.ports[c.dest].count < 16 {
      SendAccepted(s, c);
    }
    hide Inv, HasSlots, JoinsQueue, LetterOf, WakesOnly, Enqueue, Written;
  }

  /** ipc_try_recv, and ipc_recv when it does not block: the owner, and nobody else, is given the oldest letter. */
  lemma ReceiveDoes(s: Sys, p: nat, c: Call)
    requires Inv(s) && Shaped(s) && CanDo(s, c) && c in {TryRecv(p), Recv(p)}
    ensures var s' := Perform(s, c);
            if p < PORTS && s.ports[p].inUse && s.ports[p].owner == s.sched.tasks[s.sched.current].pid then
              if s.ports[p].count > 0 then
                && Reply(s, c) == 0 && OtherPortsSame(s, s', p) && s'.sched == s.sched && s'.inRecv == s.inRecv
                && QueueOk(s.ports[p]) && QueueOk(s'.ports[p])
                && Waiting(s.ports[p]) == [Open(s.ports[p].queue[s.ports[p].head])] + Waiting(s'.ports[p])
                && s'.log[p] == s.log[p].(received := s.log[p].received + [Waiting(s.ports[p])[0]])
              else if c == TryRecv(p) then Reply(s, c) == -2 && s' == s
              else
                && s'.inRecv == s.inRecv[s.sched.current := p] && OtherPortsSame(s, s', p) && s'.log == s.log
                && s'.ports[p] == s.ports[p].(waiter := Some(s.sched.current))
            else Refused(s, c)
  {
    StepInv(s, c);
    if Owns(s, p) && s.ports[p].count > 0 {
      assert PortOk(s.ports[p], s.log[p]);
      DequeueLetter(s.ports[p], s.ports[p].queue[s.ports[p].head]);
    }
    hide Inv, HasSlots, QueueOk, Waiting, PortOk, Sched.Yield, Sched.SetState;
  }
}
