/** Messages and scheduling together: a task that a message woke gets the CPU, whatever the other tasks call. */
module KernelFair {
  import opened Common
  import opened Tasks
  import Sched
  import opened Kernel
  import opened Ipc

  /** What a kernel call means for the scheduler. */
  ghost function Events(s: Sys, c: Call): seq<Sched.Event>
    requires Shaped(s) && CanDo(s, c)
  {
    match c
    case Timer => [Sched.Tick]
    case YieldCpu => [Sched.GiveUp]
    case Spawn => [Sched.Spawn]
    case Kill(t) => [Sched.Mark(t, ZOMBIE)]
    case Destroy(p) => if Owns(s, p) then WakeEvents(s, s.ports[p].waiter) else []
    case Send(dest, _, _, _, size) => if Accepts(s, dest, size) then WakeEvents(s, s.ports[dest].waiter) else []
    case Recv(p) =>
      if Owns(s, p) && s.ports[p].count == 0 then [Sched.Mark(s.sched.current, BLOCKED), Sched.GiveUp] else []
    case _ => []
  }

  function WakeEvents(s: Sys, t: Option<TaskId>): seq<Sched.Event> {
    if t.Some? && t.value < |s.sched.tasks| then [Sched.Mark(t.value, READY)] else []
  }

  /** The scheduler after a sequence of its events. */
  ghost function After(st: Sched.State, es: seq<Sched.Event>, t: TaskId): Sched.State
    requires Sched.Valid(st) && Sched.Spares(st, es, t)
    decreases es
  {
    if es == [] then st else (Sched.PerformValid(st, es[0]); After(Sched.Perform(st, es[0]), es[1..], t))
  }

  lemma LastEvent(st: Sched.State, e: Sched.Event, t: TaskId)
    requires Sched.Valid(st) && Sched.Allowed(st, e) && e != Sched.Mark(t, ZOMBIE)
    ensures Sched.Spares(st, [e], t)
    ensures st.ring != [] && InRange(st.ring, |st.tasks|) && st.current < |st.tasks| &&
        After(st, [e], t) == Sched.Perform(st, e)
  {
    Sched.Unfold(st);
    Sched.PerformValid(st, e);
    hide Sched.Valid, Sched.Perform;
    assert [e][0] == e && [e][1..] == [];
  }

  /** The events of a call take the scheduler where the call takes it. */
  lemma EventsMatch(s: Sys, c: Call, t: TaskId)
    requires Inv(s) && Shaped(s) && CanDo(s, c) && c != Kill(t)
    ensures Sched.Valid(s.sched) && Sched.Spares(s.sched, Events(s, c), t)
    ensures After(s.sched, Events(s, c), t) == Perform(s, c).sched
  {
    var es := Events(s, c);
    assert Sched.Valid(s.sched);
    hide Coherent, Sched.Valid, Sched.Schedule, Sched.Yield, Sched.Create;
    if es != [] {
      Sched.PerformValid(s.sched, es[0]);
      var st := Sched.Perform(s.sched, es[0]);
      if |es| == 2 {
        assert es[1..] == [Sched.GiveUp];
        Sched.PerformValid(st, Sched.GiveUp);
        LastEvent(st, Sched.GiveUp, t);
      } else {
        assert es[1..] == [];
      }
    }
  }

  /** The events of a run of kernel calls. */
  ghost function Trace(s: Sys, cs: seq<Call>): seq<Sched.Event>
    requires Inv(s) && Shaped(s) && Happens(s, cs)
    decreases cs
  {
    if cs == [] then [] else (StepInv(s, cs[0]); Events(s, cs[0]) + Trace(Perform(s, cs[0]), cs[1..]))
  }

  lemma {:induction false} SparesJoin(st: Sched.State, a: seq<Sched.Event>, b: seq<Sched.Event>, t: TaskId)
    requires Sched.Valid(st) && Sched.Spares(st, a, t) && Sched.Valid(After(st, a, t))
    requires Sched.Spares(After(st, a, t), b, t)
    ensures Sched.Spares(st, a + b, t)
    decreases a
  {
    hide Sched.Valid, Sched.Perform, Sched.Spares, After, Sched.Allowed, InRange;
    if a == [] {
      NoEvents(st, t);
      assert a + b == b;
    } else {
      SparesParts(st, a, t);
      var st1 := Sched.Perform(st, a[0]);
      SparesJoin(st1, a[1..], b, t);
      SparesCons(st, a[0], a[1..] + b, t);
      assert [a[0]] + (a[1..] + b) == a + b;
    }
  }

  /** The first event of a sequence and the rest. */
  lemma SparesParts(st: Sched.State, a: seq<Sched.Event>, t: TaskId)
    requires a != [] && Sched.Valid(st) && Sched.Spares(st, a, t)
    ensures st.ring != [] && InRange(st.ring, |st.tasks|) && st.current < |st.tasks|
    ensures Sched.Allowed(st, a[0]) && a[0] != Sched.Mark(t, ZOMBIE)
    ensures var st1 := Sched.Perform(st, a[0]);
            Sched.Valid(st1) && Sched.Spares(st1, a[1..], t) && After(st, a, t) == After(st1, a[1..], t)
  {
    Sched.PerformValid(st, a[0]);
    Sched.Unfold(st);
  }

  lemma SparesCons(st: Sched.State, e: Sched.Event, rest: seq<Sched.Event>, t: TaskId)
    requires Sched.Valid(st) && st.ring != [] && InRange(st.ring, |st.tasks|) && st.current < |st.tasks|
    requires Sched.Allowed(st, e) && e != Sched.Mark(t, ZOMBIE)
    requires Sched.Valid(Sched.Perform(st, e)) && Sched.Spares(Sched.Perform(st, e), rest, t)
    ensures Sched.Spares(st, [e] + rest, t)
  {
    hide Sched.Valid, Sched.Perform;
    assert ([e] + rest)[0] == e && ([e] + rest)[1..] == rest;
  }

  ghost predicate NeverKilled(cs: seq<Call>, t: TaskId) {
    forall i | 0 <= i < |cs| :: cs[i] != Kill(t)
  }

  lemma {:induction false} TraceSpares(s: Sys, cs: seq<Call>, t: TaskId)
    requires Inv(s) && Shaped(s) && Happens(s, cs) && NeverKilled(cs, t)
    ensures Sched.Valid(s.sched) && Sched.Spares(s.sched, Trace(s, cs), t)
    decreases cs
  {
    assert Sched.Valid(s.sched);
    hide Inv, Perform, Shaped, CanDo, Sched.Valid, Sched.Spares, Sched.Perform;
    if cs == [] {
      NoEvents(s.sched, t);
    } else {
      var c := cs[0];
      StepInv(s, c);
      EventsMatch(s, c, t);
      TraceSpares(Perform(s, c), cs[1..], t);
      SparesJoin(s.sched, Events(s, c), Trace(Perform(s, c), cs[1..]), t);
    }
  }

  lemma NoEvents(st: Sched.State, t: TaskId)
    requires Sched.Valid(st)
    ensures Sched.Spares(st, [], t) && After(st, [], t) == st
  {
  }

  function Timers(cs: seq<Call>): nat {
    if cs == [] then 0 else (if cs[0].Timer? then 1 else 0) + Timers(cs[1..])
  }

  lemma {:induction false} TicksJoin(a: seq<Sched.Event>, b: seq<Sched.Event>)
    ensures Sched.TickCount(a + b) == Sched.TickCount(a) + Sched.TickCount(b)
  {
    if a == [] {
      assert a + b == b;
    } else {
      assert (a + b)[1..] == a[1..] + b;
      TicksJoin(a[1..], b);
    }
  }

  lemma {:induction false} TraceTicks(s: Sys, cs: seq<Call>)
    requires Inv(s) && Shaped(s) && Happens(s, cs)
    ensures Sched.TickCount(Trace(s, cs)) == Timers(cs)
    decreases cs
  {
    hide Inv, Perform, Shaped;
    if cs != [] {
      var c := cs[0];
      StepInv(s, c);
      TraceTicks(Perform(s, c), cs[1..]);
      TicksJoin(Events(s, c), Trace(Perform(s, c), cs[1..]));
      OneTick(s, c);
    }
  }

  lemma OneTick(s: Sys, c: Call)
    requires Shaped(s) && CanDo(s, c)
    ensures Sched.TickCount(Events(s, c)) == if c.Timer? then 1 else 0
  {
    hide Shaped;
    var es := Events(s, c);
    if |es| == 2 {
      assert es[1..] == [Sched.GiveUp];
      assert [Sched.GiveUp][1..] == [];
      assert Sched.TickCount([Sched.GiveUp]) == 0;
    } else if |es| == 1 {
      assert es[1..] == [];
    }
  }

  /** Nobody waits for ever: once a message was accepted for the port where task t waits, t has the CPU after
      five timer ticks for each place before it in the ring and its own, whatever is called meanwhile, unless
      t itself is killed. */
  lemma WokenTaskRuns(s: Sys, c: Call, t: TaskId, cs: seq<Call>)
    requires Inv(s) && Shaped(s) && c.Send? && CanDo(s, c) && Reply(s, c) == 0 && s.ports[c.dest].waiter == Some(t)
    requires Inv(Perform(s, c)) && Shaped(Perform(s, c)) && Happens(Perform(s, c), cs) && NeverKilled(cs, t)
    requires t in Perform(s, c).sched.ring
    requires Timers(cs) >= Sched.TIME_SLICE * (Tasks.Position(Perform(s, c).sched.ring, t) + 1)
    ensures var s1 := Perform(s, c);
            && Sched.Valid(s1.sched) && Sched.Spares(s1.sched, Trace(s1, cs), t)
            && Sched.GetsCpu(s1.sched, Trace(s1, cs), t)
  {
    var s1 := Perform(s, c);
    SendWakes(s, c, t);
    assert |s1.sched.tasks| == |s.sched.tasks|;
    TraceSpares(s1, cs, t);
    TraceTicks(s1, cs);
    hide Inv, Perform, Shaped, Trace, Sched.Spares, Sched.GetsCpu, Sched.TickCount, Sched.Valid;
    Sched.FairInTicks(s1.sched, Trace(s1, cs), t);
  }

  /** The first state of a run in which t has the CPU, or the last state. */
  ghost function FirstTurn(s: Sys, cs: seq<Call>, t: TaskId): (r: Sys)
    requires Inv(s) && Shaped(s) && Happens(s, cs)
    ensures Inv(r) && Shaped(r)
    decreases cs
  {
    if cs == [] || s.sched.current == t then s else (StepInv(s, cs[0]); FirstTurn(Perform(s, cs[0]), cs[1..], t))
  }

  lemma FirstEvent(st: Sched.State, e: Sched.Event, rest: seq<Sched.Event>, t: TaskId)
    requires Sched.Valid(st) && Sched.Spares(st, [e] + rest, t) && Sched.GetsCpu(st, [e] + rest, t)
    ensures st.ring != [] && InRange(st.ring, |st.tasks|) && st.current < |st.tasks| && Sched.Allowed(st, e)
    ensures Sched.Valid(Sched.Perform(st, e)) && Sched.Spares(Sched.Perform(st, e), rest, t)
    ensures (Sched.Switches(st, e) && Sched.Perform(st, e).current == t) || Sched.GetsCpu(Sched.Perform(st, e), rest, t)
  {
    SparesParts(st, [e] + rest, t);
    assert ([e] + rest)[0] == e && ([e] + rest)[1..] == rest;
  }

  /** The events of one call: one, or one that does not switch and one that may. */
  ghost predicate OfOneCall(es: seq<Sched.Event>) {
    |es| <= 1 || (|es| == 2 && es[0].Mark? && es[1] == Sched.GiveUp)
  }

  /** A switch to t in the events of one call leaves t with the CPU after them. */
  lemma LastSwitchStays(st: Sched.State, es: seq<Sched.Event>, rest: seq<Sched.Event>, t: TaskId)
    requires Sched.Valid(st) && Sched.Spares(st, es, t) && Sched.Spares(st, es + rest, t) && OfOneCall(es)
    requires Sched.GetsCpu(st, es + rest, t)
    ensures Sched.Valid(After(st, es, t)) && Sched.Spares(After(st, es, t), rest, t)
    ensures (es != [] && After(st, es, t).current == t) || Sched.GetsCpu(After(st, es, t), rest, t)
  {
    hide Sched.Valid, Sched.Perform, Sched.GetsCpu, Sched.Spares, After, InRange, Sched.Allowed;
    NoEvents(st, t);
    if es == [] {
      assert es + rest == rest;
    } else {
      SparesParts(st, es, t);
      var st1 := Sched.Perform(st, es[0]);
      assert es + rest == [es[0]] + (es[1..] + rest);
      FirstEvent(st, es[0], es[1..] + rest, t);
      NoEvents(st1, t);
      if |es| == 1 {
        assert es[1..] == [] && es[1..] + rest == rest;
      } else {
        assert es[1..] == [Sched.GiveUp];
        SparesParts(st1, es[1..], t);
        FirstEvent(st1, Sched.GiveUp, rest, t);
        NoEvents(Sched.Perform(st1, Sched.GiveUp), t);
        assert es[1..][1..] == [];
      }
    }
  }

  /** A switch to t during a call leaves t with the CPU when the call is over. */
  lemma CallSwitches(s: Sys, c: Call, rest: seq<Sched.Event>, t: TaskId)
    requires Inv(s) && Shaped(s) && CanDo(s, c) && c != Kill(t)
    requires Sched.Valid(s.sched) && Sched.Spares(s.sched, Events(s, c) + rest, t)
    requires Sched.GetsCpu(s.sched, Events(s, c) + rest, t)
    ensures Sched.Valid(Perform(s, c).sched) && Sched.Spares(Perform(s, c).sched, rest, t)
    ensures Perform(s, c).sched.current == t || Sched.GetsCpu(Perform(s, c).sched, rest, t)
  {
    assert OfOneCall(Events(s, c));
    hide *;
    EventsMatch(s, c, t);
    LastSwitchStays(s.sched, Events(s, c), rest, t);
  }

  /** If a run's events give t the CPU then some call of the run does. */
  lemma {:induction false} TurnComes(s: Sys, cs: seq<Call>, t: TaskId)
    requires Inv(s) && Shaped(s) && Happens(s, cs) && NeverKilled(cs, t)
    requires Sched.Valid(s.sched) && Sched.Spares(s.sched, Trace(s, cs), t) && Sched.GetsCpu(s.sched, Trace(s, cs), t)
    ensures FirstTurn(s, cs, t).sched.current == t
    decreases cs
  {
    hide Inv, Perform, Shaped, CanDo, Sched.Valid, Sched.Spares, Events;
    if cs != [] && s.sched.current != t {
      var c := cs[0];
      StepInv(s, c);
      TraceSpares(Perform(s, c), cs[1..], t);
      CallSwitches(s, c, Trace(Perform(s, c), cs[1..]), t);
      if Perform(s, c).sched.current != t {
        TurnComes(Perform(s, c), cs[1..], t);
      }
    }
  }

  /** A task inside ipc_recv is still there, with its port, when its turn comes. */
  lemma {:induction false} TurnReceiving(s: Sys, cs: seq<Call>, t: TaskId, p: nat, letters: seq<Letter>,
          received: seq<Letter>)
    requires Inv(s) && Shaped(s) && Happens(s, cs) && Receiving(s, t, p, received + letters, received)
    ensures exists more: seq<Letter> :: Receiving(FirstTurn(s, cs, t), t, p, received + (letters + more), received)
    decreases cs
  {
    hide Inv, Perform, Shaped, CanDo, Receiving, Posted;
    if cs == [] || s.sched.current == t {
      assert letters + [] == letters;
    } else {
      var c := cs[0];
      StepInv(s, c);
      StepReceiving(s, c, t, p, received + letters, received);
      var s1, next := Perform(s, c), Posted(s, c, p);
      assert received + letters + next == received + (letters + next);
      TurnReceiving(s1, cs[1..], t, p, letters + next, received);
      var more: seq<Letter> :| Receiving(FirstTurn(s1, cs[1..], t), t, p, received + (letters + next + more), received);
      assert letters + next + more == letters + (next + more);
    }
  }

  /** In state r, with task t on the CPU, the receive that t is in succeeds and delivers these letters. */
  ghost predicate Delivers(r: Sys, t: TaskId, p: nat, received: seq<Letter>, letters: seq<Letter>) {
    && Shaped(r) && r.sched.current == t && CanDo(r, Resume) && Reply(r, Resume) == 0
    && p < |Perform(r, Resume).log| && Perform(r, Resume).log[p].received == received + letters
  }

  /** The whole way of a message to a task that waits for it: in the first state in which the task has the CPU
      again - within the time that WokenTaskRuns gives - its receive succeeds and delivers that message. */
  lemma WokenTaskReceives(s: Sys, c: Call, s1: Sys, t: TaskId, cs: seq<Call>)
    requires Inv(s) && Shaped(s) && c.Send? && CanDo(s, c) && Reply(s, c) == 0 && s1 == Perform(s, c)
    requires t in s.inRecv && s.inRecv[t] == c.dest && s.ports[c.dest].count == 0
    requires Inv(s1) && Shaped(s1) && Happens(s1, cs) && NeverKilled(cs, t) && t in s1.sched.ring
    requires Timers(cs) >= Sched.TIME_SLICE * (Tasks.Position(s1.sched.ring, t) + 1)
    ensures |Posted(s, c, c.dest)| == 1
    ensures Delivers(FirstTurn(s1, cs, t), t, c.dest, s.log[c.dest].received, Posted(s, c, c.dest))
  {
    var p, l := c.dest, s.log[c.dest];
    assert WaiterOk(s.ports[p], s.sched.tasks) && PortOk(s.ports[p], l);
    assert s.ports[p].waiter == Some(t);
    NothingWaits(s.ports[p]);
    WokenTaskRuns(s, c, t, cs);
    assert Receiving(s, t, p, l.received, l.received);
    StepReceiving(s, c, t, p, l.received, l.received);
    hide Inv, Perform, Shaped, Posted, Sched.Spares, Sched.GetsCpu, Sched.Valid, Receiving, Trace, FirstTurn, CanDo, PortOk;
    TurnComes(s1, cs, t);
    TurnReceiving(s1, cs, t, p, Posted(s, c, p), l.received);
    var more: seq<Letter> :| Receiving(FirstTurn(s1, cs, t), t, p, l.received + (Posted(s, c, p) + more), l.received);
    OnePosted(s, c);
    ResumeReceives(FirstTurn(s1, cs, t), p, l.received, Posted(s, c, p) + more);
    assert [(Posted(s, c, p) + more)[0]] == Posted(s, c, p);
  }

  lemma OnePosted(s: Sys, c: Call)
    requires Shaped(s) && c.Send? && CanDo(s, c) && Reply(s, c) == 0
    ensures |Posted(s, c, c.dest)| == 1
  {
  }
}
