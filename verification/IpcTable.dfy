/** The calls of src/kernel/ipc.c with their loops over the table of ports, each proved to be the step of
    module Kernel that has its name. */
module IpcTable {
  import opened Common
  import Sched
  import opened Tasks
  import opened Ipc
  import opened Kernel

  /** The inner loop of ipc_find_port and ipc_create_named_port. */
  method NameMatches(name: Name, other: Name) returns (match_: bool)
    requires |other| < NAME_MAX
    ensures match_ <==> Matches(name, other)
  {
    match_ := true;
    var j := 0;
    while j < NAME_MAX && j < |name| && j < |other|
      invariant j <= |name| && j <= |other| && name[..j] == other[..j]
    {
      if name[j] != other[j] {
        return false;
      }
      j := j + 1;
    }
    assert j == |name| || j == |other|;
    assert name[..j] == other[..j];
  }

  /** The loop that copies a name into a port. */
  method CopyName(name: Name) returns (stored: Name)
    ensures stored == Stored(name)
  {
    stored := [];
    var j := 0;
    while j < NAME_MAX - 1 && j < |name|
      invariant j <= |name| && j <= NAME_MAX - 1 && stored == name[..j]
    {
      stored := stored + [name[j]];
      j := j + 1;
    }
  }

  /** The loop that copies the data of a message, `size` bytes of it, over what `into` holds. */
  method CopyData(data: seq<byte>, size: nat, into: seq<byte>) returns (r: seq<byte>)
    requires size <= |data| && size <= MAX_BODY == |into|
    ensures r == data[..size] + into[size..]
  {
    r := into;
    var i := 0;
    while i < size && i < MAX_BODY
      invariant i <= size && r == data[..i] + into[i..]
    {
      r := r[i := data[i]];
      i := i + 1;
    }
  }

  class Table {
    const ports: array<Port>
    var sched: Sched.State
    /** The tasks that wait inside ipc_recv: in C, what is on their kernel stacks. */
    var inRecv: map<TaskId, nat>
    ghost var log: seq<PortLog>

    ghost function Abs(): Sys
      reads this, ports
    {
      Sys(sched, ports[..], log, inRecv)
    }

    /** ipc_init, on ports whose message slots may hold anything. */
    constructor (slots: seq<Message>)
      requires |slots| == QUEUE && forall i | 0 <= i < QUEUE :: MessageOk(slots[i])
      ensures Booted(Abs()) && fresh(ports)
    {
      var p := Port(false, 0, [], slots, 0, 0, 0, 0, 0, 0, None);
      ports := new Port[PORTS](_ => p);
      sched := Sched.State([Sched.Task(0, RUNNING, Sched.TIME_SLICE, 0, 0)], [0], 0, 0, 1);
      inRecv := map[];
      log := seq(PORTS, _ => PortLog([], []));
    }

    method FindFree() returns (i: int)
      ensures i == (match FreeFrom(ports[..], 0) case None => -1 case Some(k) => k)
    {
      i := 0;
      while i < ports.Length
        invariant 0 <= i <= ports.Length
        invariant FreeFrom(ports[..], 0) == FreeFrom(ports[..], i)
      {
        if !ports[i].inUse {
          return;
        }
        i := i + 1;
      }
      return -1;
    }

    method IpcFindPort(name: Option<Name>) returns (i: int)
      requires forall k | 0 <= k < ports.Length :: |ports[k].name| < NAME_MAX
      ensures i == match name
                   case None => -1
                   case Some(n) => (match FindFrom(ports[..], n, 0) case None => -1 case Some(k) => k)
    {
      if name.None? { return -1; }
      i := 0;
      while i < ports.Length
        invariant 0 <= i <= ports.Length
        invariant FindFrom(ports[..], name.value, 0) == FindFrom(ports[..], name.value, i)
      {
        if ports[i].inUse && ports[i].name != [] {
          var same := NameMatches(name.value, ports[i].name);
          if same { return; }
        }
        i := i + 1;
      }
      return -1;
    }

    /** The port and its history at position i, as ipc_create_port sets them up. */
    method Open(i: nat, name: Name)
      requires Shaped(Abs()) && FreeFrom(ports[..], 0) == Some(i)
      modifies this`log, ports
      ensures Abs() == OpenPort(old(Abs()), name)
    {
      ports[i] := Opened(ports[i], sched.tasks[sched.current].pid, name);
      log := log[i := PortLog([], [])];
    }

    method IpcCreatePort() returns (i: int)
      requires Shaped(Abs()) && CanDo(Abs(), CreatePort)
      modifies this`log, ports
      ensures Abs() == Perform(old(Abs()), CreatePort) && i == Reply(old(Abs()), CreatePort)
    {
      i := FindFree();
      if i >= 0 {
        Open(i, []);
      }
    }

    method IpcCreateNamedPort(name: Option<Name>) returns (i: int)
      requires Shaped(Abs()) && CanDo(Abs(), CreateNamed(name))
      requires forall k | 0 <= k < ports.Length :: |ports[k].name| < NAME_MAX
      modifies this`log, ports
      ensures Abs() == Perform(old(Abs()), CreateNamed(name)) && i == Reply(old(Abs()), CreateNamed(name))
    {
      if name.None? { return -1; }
      var taken := IpcFindPort(name);
      if taken >= 0 { return -1; }
      i := FindFree();
      if i >= 0 {
        var stored := CopyName(name.value);
        Open(i, stored);
      }
    }

    method WakeTask(t: Option<nat>)
      modifies this`sched
      ensures sched == Wake(old(sched), t)
    {
      if t.Some? && t.value < |sched.tasks| {
        sched := Sched.SetState(sched, t.value, READY);
      }
    }

    method IpcDestroyPort(p: nat) returns (r: int)
      requires Shaped(Abs()) && CanDo(Abs(), Destroy(p))
      modifies this`sched, ports
      ensures Abs() == Perform(old(Abs()), Destroy(p)) && r == Reply(old(Abs()), Destroy(p))
    {
      if p >= PORTS { return -1; }
      if !ports[p].inUse || ports[p].owner != sched.tasks[sched.current].pid { return -1; }
      if ports[p].waiter.Some? {
        WakeTask(ports[p].waiter);
        ports[p] := ports[p].(waiter := None);
      }
      ports[p] := ports[p].(inUse := false, owner := 0, count := 0);
      return 0;
    }

    method IpcSendFromPort(replyTo: uint32, dest: nat, kind: uint32, data: Option<seq<byte>>, size: uint32)
      returns (r: int)
      requires Shaped(Abs()) && CanDo(Abs(), Send(dest, replyTo, kind, data, size))
      modifies this`sched, this`log, ports
      ensures Abs() == Perform(old(Abs()), Send(dest, replyTo, kind, data, size))
      ensures r == Reply(old(Abs()), Send(dest, replyTo, kind, data, size))
    {
      if dest >= PORTS { return -1; }
      if !ports[dest].inUse { return -1; }
      if size > MAX_BODY { return -1; }
      if ports[dest].count >= QUEUE {
        ports[dest] := ports[dest].(drops := Wrap32(ports[dest].drops + 1));
        return -1;
      }
      ghost var x := Parcel(sched.tasks[sched.current].pid, replyTo, kind, data, size);
      var tail := ports[dest].tail;
      var slot := ports[dest].queue[tail];
      var bytes := slot.data;
      if data.Some? && size > 0 {
        bytes := CopyData(data.value, size, bytes);
      }
      var m := Message(sched.tasks[sched.current].pid, replyTo, kind, size, bytes);
      assert m == Written(slot, x);
      log := log[dest := log[dest].(accepted := log[dest].accepted + [Ipc.Open(m)])];
      ports[dest] := ports[dest].(queue := ports[dest].queue[tail := m], tail := Slot(tail + 1),
                                  count := ports[dest].count + 1, totalSent := Wrap32(ports[dest].totalSent + 1));
      if ports[dest].waiter.Some? {
        WakeTask(ports[dest].waiter);
        ports[dest] := ports[dest].(waiter := None);
      }
      return 0;
    }

    /** ipc_send names no port for the reply. */
    method IpcSend(dest: nat, kind: uint32, data: Option<seq<byte>>, size: uint32) returns (r: int)
      requires Shaped(Abs()) && CanDo(Abs(), Send(dest, 0, kind, data, size))
      modifies this`sched, this`log, ports
      ensures Abs() == Perform(old(Abs()), Send(dest, 0, kind, data, size))
      ensures r == Reply(old(Abs()), Send(dest, 0, kind, data, size))
    {
      r := IpcSendFromPort(0, dest, kind, data, size);
    }

    /** The end of ipc_recv and ipc_try_recv: the oldest message goes to the receiver's buffer. */
    method TakeMessage(p: nat, buffer: Message) returns (m: Message)
      requires Shaped(Abs()) && p < PORTS && ports[p].count > 0 && |buffer.data| == MAX_BODY
      modifies this`log, ports
      ensures Abs() == TakeLetter(old(Abs()), p)
      ensures m == Delivered(old(ports[p].queue[ports[p].head]), buffer)
    {
      var queued := ports[p].queue[ports[p].head];
      var bytes := CopyData(queued.data, queued.size, buffer.data);
      m := Message(queued.senderPid, queued.senderPort, queued.kind, queued.size, bytes);
      log := log[p := log[p].(received := log[p].received + [Ipc.Open(queued)])];
      ports[p] := ports[p].(head := Slot(ports[p].head + 1), count := ports[p].count - 1,
                            totalReceived := Wrap32(ports[p].totalReceived + 1));
    }

    method IpcTryRecv(p: nat, buffer: Message) returns (r: int, m: Message)
      requires Shaped(Abs()) && CanDo(Abs(), TryRecv(p)) && |buffer.data| == MAX_BODY
      modifies this`log, ports
      ensures Abs() == Perform(old(Abs()), TryRecv(p)) && r == Reply(old(Abs()), TryRecv(p))
      ensures if r == 0 then p < PORTS && m == Delivered(old(ports[p].queue[ports[p].head]), buffer) else m == buffer
    {
      m := buffer;
      if p >= PORTS { return -1, m; }
      if !ports[p].inUse || ports[p].owner != sched.tasks[sched.current].pid { return -1, m; }
      if ports[p].count == 0 { return -2, m; }
      m := TakeMessage(p, buffer);
      r := 0;
    }

    /** ipc_recv up to the point where it returns or gives up the CPU; `blocks` says which. */
    method IpcRecv(p: nat, buffer: Message) returns (r: int, m: Message, blocks: bool)
      requires Shaped(Abs()) && CanDo(Abs(), Recv(p)) && |buffer.data| == MAX_BODY
      modifies this, ports
      ensures Abs() == Perform(old(Abs()), Recv(p)) && r == Reply(old(Abs()), Recv(p))
      ensures blocks <==> old(Owns(Abs(), p)) && old(ports[p].count) == 0
      ensures if r == 0 && !blocks then p < PORTS && m == Delivered(old(ports[p].queue[ports[p].head]), buffer)
              else m == buffer
    {
      m := buffer;
      blocks := false;
      if p >= PORTS { return -1, m, false; }
      if !ports[p].inUse || ports[p].owner != sched.tasks[sched.current].pid { return -1, m, false; }
      if ports[p].count == 0 {
        ports[p] := ports[p].(waiter := Some(sched.current));
        inRecv := inRecv[sched.current := p];
        sched := Sched.SetState(sched, sched.current, BLOCKED);
        sched := Sched.Yield(sched);
        return 0, m, true;
      }
      m := TakeMessage(p, buffer);
      r := 0;
    }

    /** The rest of ipc_recv, once the task that called it has the CPU again. */
    method IpcRecvResume(buffer: Message) returns (r: int, m: Message)
      requires Shaped(Abs()) && CanDo(Abs(), Resume) && |buffer.data| == MAX_BODY
      modifies this`log, this`inRecv, ports
      ensures Abs() == Perform(old(Abs()), Resume) && r == Reply(old(Abs()), Resume)
      ensures var p := old(inRecv[sched.current]);
              if r == 0 then p < PORTS && m == Delivered(old(ports[p].queue[ports[p].head]), buffer) else m == buffer
    {
      m := buffer;
      var p := inRecv[sched.current];
      inRecv := inRecv - {sched.current};
      if ports[p].count == 0 { return -1, m; }
      m := TakeMessage(p, buffer);
      r := 0;
    }
  }
}
