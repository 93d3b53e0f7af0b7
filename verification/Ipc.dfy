/** The message ports of src/kernel/ipc.c on values: ring queues, their contents as a sequence, and port
    names. */
module Ipc {
  import opened Common

  const PORTS := 32
  const QUEUE := 16
  const MAX_BODY := 256
  const NAME_MAX := 32

  /** struct ipc_message; data holds 256 bytes, of which `size` belong to the message. */
  datatype Message = Message(senderPid: nat, senderPort: uint32, kind: uint32, size: nat, data: seq<byte>)

  /** A C string without its terminator. */
  type Name = seq<byte>

  /** struct ipc_port; the waiting task is named by its number. */
  datatype Port = Port(inUse: bool, owner: nat, name: Name, queue: seq<Message>, head: nat, tail: nat,
                          count: nat, totalSent: uint32, totalReceived: uint32, drops: uint32,
                          waiter: Option<nat>)

  ghost predicate MessageOk(m: Message) {
    m.size <= MAX_BODY && |m.data| == MAX_BODY
  }

  /** A position of the ring queue. */
  function Slot(k: nat): (r: nat)
    ensures r < QUEUE
    ensures k < 2 * QUEUE ==> r == if k < QUEUE then k else k - QUEUE
  {
    k % 16
  }

  ghost predicate QueueOk(p: Port) {
    && |p.queue| == QUEUE && p.head < QUEUE && p.count <= QUEUE
    && p.tail == Slot(p.head + p.count)
    && (forall i | 0 <= i < QUEUE :: MessageOk(p.queue[i]))
    && p.totalSent == Wrap32(p.totalReceived + p.count)
  }

  // ---------------------------------------------------------------- queues

  /** What the fresh port of ipc_create_port looks like; the slots keep what they held. */
  function Opened(p: Port, owner: nat, name: Name): Port {
    p.(inUse := true, owner := owner, name := name, head := 0, tail := 0, count := 0, totalSent := 0,
       totalReceived := 0, drops := 0, waiter := None)
  }

  function Closed(p: Port): Port {
    p.(inUse := false, owner := 0, count := 0, waiter := None)
  }

  /** The data of a slot after `size` bytes were copied in from `data`, which may be a null pointer. */
  function Filled(slot: seq<byte>, data: Option<seq<byte>>, size: nat): (r: seq<byte>)
    requires size <= |slot| && (data.Some? ==> size <= |data.value|)
    ensures |r| == |slot|
  {
    match data
    case None => slot
    case Some(d) => d[..size] + slot[size..]
  }

  /** What a sender hands over. */
  datatype Parcel = Parcel(sender: nat, replyTo: uint32, kind: uint32, data: Option<seq<byte>>, size: uint32)

  /** The sender must own the bytes it points to. */
  predicate Readable(x: Parcel) {
    x.data.Some? ==> x.size <= |x.data.value|
  }

  function Written(slot: Message, x: Parcel): Message
    requires x.size <= MAX_BODY && Readable(x) && |slot.data| == MAX_BODY
  {
    Message(x.sender, x.replyTo, x.kind, x.size, Filled(slot.data, x.data, x.size))
  }

  predicate HasSlots(p: Port) {
    && |p.queue| == QUEUE && p.head < QUEUE && p.tail < QUEUE
    && (forall i | 0 <= i < QUEUE :: |p.queue[i].data| == MAX_BODY && p.queue[i].size <= MAX_BODY)
  }

  function Enqueue(p: Port, x: Parcel): Port
    requires HasSlots(p) && x.size <= MAX_BODY && Readable(x)
  {
    p.(queue := p.queue[p.tail := Written(p.queue[p.tail], x)], tail := Slot(p.tail + 1), count := p.count + 1,
       totalSent := Wrap32(p.totalSent + 1), waiter := None)
  }

  function Dequeue(p: Port): Port
    requires p.count > 0
  {
    p.(head := Slot(p.head + 1), count := p.count - 1, totalReceived := Wrap32(p.totalReceived + 1))
  }

  /** The messages waiting at a port, oldest first. */
  ghost function Contents(p: Port): (r: seq<Message>)
    requires QueueOk(p)
    ensures |r| == p.count
    ensures forall i | 0 <= i < |r| :: r[i] == p.queue[Slot(p.head + i)] && MessageOk(r[i])
  {
    seq(p.count, i requires 0 <= i < p.count => p.queue[Slot(p.head + i)])
  }

  lemma OpenedOk(p: Port, owner: nat, name: Name)
    requires HasSlots(p)
    ensures QueueOk(Opened(p, owner, name)) && Contents(Opened(p, owner, name)) == []
  {
    hide Slot;
  }

  /** Sending appends at the end of the queue and leaves what waits there alone. */
  lemma EnqueueContents(p: Port, x: Parcel)
    requires QueueOk(p) && p.count < QUEUE && x.size <= MAX_BODY && Readable(x)
    ensures HasSlots(p) && QueueOk(Enqueue(p, x))
    ensures Contents(Enqueue(p, x)) == Contents(p) + [Written(p.queue[p.tail], x)]
  {
    hide Slot;
    HasSlotsOk(p);
    var q := Enqueue(p, x);
    assert forall i | 0 <= i < QUEUE :: MessageOk(q.queue[i]);
    forall i | 0 <= i < q.count
      ensures Contents(q)[i] == (Contents(p) + [Written(p.queue[p.tail], x)])[i]
    {
      if i < p.count { assert Slot(p.head + i) != p.tail; }
    }
  }

  lemma HasSlotsOk(p: Port)
    requires QueueOk(p)
    ensures HasSlots(p)
  {
    forall i | 0 <= i < QUEUE ensures |p.queue[i].data| == MAX_BODY && p.queue[i].size <= MAX_BODY {
      assert MessageOk(p.queue[i]);
    }
  }

  /** Receiving takes the oldest message and leaves the others in order. */
  lemma DequeueContents(p: Port)
    requires QueueOk(p) && p.count > 0
    ensures QueueOk(Dequeue(p)) && p.head < |p.queue|
    ensures Contents(p) == [p.queue[p.head]] + Contents(Dequeue(p))
  {
    hide Slot;
    var q := Dequeue(p);
    forall i | 0 <= i < q.count ensures Contents(q)[i] == Contents(p)[i + 1] {
      assert Slot(q.head + i) == Slot(p.head + (i + 1));
    }
    assert p.queue[Slot(p.head + 0)] == p.queue[p.head];
    assert Contents(p)[0] == p.queue[p.head];
  }

  // ---------------------------------------------------------------- letters

  /** What a message says, without the unused bytes of its slot. */
  datatype Letter = Letter(sender: nat, replyTo: uint32, kind: uint32, body: seq<byte>)

  function Open(m: Message): Letter
    requires m.size <= |m.data|
  {
    Letter(m.senderPid, m.senderPort, m.kind, m.data[..m.size])
  }

  ghost function Letters(ms: seq<Message>): (r: seq<Letter>)
    requires forall i | 0 <= i < |ms| :: MessageOk(ms[i])
    ensures |r| == |ms|
  {
    seq(|ms|, i requires 0 <= i < |ms| => assert MessageOk(ms[i]); Open(ms[i]))
  }

  lemma LettersCons(m: Message, ms: seq<Message>)
    requires MessageOk(m) && forall i | 0 <= i < |ms| :: MessageOk(ms[i])
    ensures Letters([m] + ms) == [Open(m)] + Letters(ms)
  {
  }

  ghost function Waiting(p: Port): seq<Letter>
    requires QueueOk(p)
  {
    Letters(Contents(p))
  }

  /** The message as ipc_recv copies it out: only `size` bytes of the receiver's buffer change. */
  function Delivered(m: Message, buffer: Message): Message
    requires m.size <= |m.data| == |buffer.data|
  {
    buffer.(senderPid := m.senderPid, senderPort := m.senderPort, kind := m.kind, size := m.size,
            data := m.data[..m.size] + buffer.data[m.size..])
  }

  /** A send with data queues a letter with the sender's pid, reply port, type and bytes. */
  lemma EnqueueLetter(p: Port, x: Parcel)
    requires QueueOk(p) && p.count < QUEUE && x.size <= MAX_BODY && Readable(x)
    ensures HasSlots(p) && QueueOk(Enqueue(p, x))
    ensures Waiting(Enqueue(p, x)) == Waiting(p) + [Open(Written(p.queue[p.tail], x))]
    ensures x.data.Some? ==>
              Waiting(Enqueue(p, x)) == Waiting(p) + [Letter(x.sender, x.replyTo, x.kind, x.data.value[..x.size])]
  {
    EnqueueContents(p, x);
    var c, d := Contents(p), Contents(Enqueue(p, x));
    assert Letters(d) == Letters(c) + [Open(Written(p.queue[p.tail], x))];
    if x.data.Some? {
      assert Filled(p.queue[p.tail].data, x.data, x.size)[..x.size] == x.data.value[..x.size];
    }
  }

  /** A receive delivers the first letter, whatever the receiver's buffer held. */
  lemma DequeueLetter(p: Port, buffer: Message)
    requires QueueOk(p) && p.count > 0 && |buffer.data| == MAX_BODY
    ensures QueueOk(Dequeue(p)) && HasSlots(p)
    ensures Waiting(p) == [Open(p.queue[p.head])] + Waiting(Dequeue(p))
    ensures MessageOk(Delivered(p.queue[p.head], buffer))
    ensures Open(Delivered(p.queue[p.head], buffer)) == Open(p.queue[p.head])
  {
    HasSlotsOk(p);
    DequeueContents(p);
    var m := p.queue[p.head];
    hide Contents, QueueOk, Slot;
    LettersCons(m, Contents(Dequeue(p)));
    assert Delivered(m, buffer).data[..m.size] == m.data[..m.size];
  }

  // ---------------------------------------------------------------- names

  /** The comparison of ipc_find_port: equal up to the end of the shorter name. */
  predicate Matches(a: Name, b: Name) {
    a <= b || b <= a
  }

  /** The part of a name that a port can hold. */
  function Stored(name: Name): (r: Name)
    ensures |r| < NAME_MAX && r <= name
  {
    if |name| < NAME_MAX then name else name[..NAME_MAX - 1]
  }

  predicate Named(p: Port) {
    p.inUse && p.name != []
  }

  /** The first port from k on that answers to a name. */
  function FindFrom(ports: seq<Port>, name: Name, k: nat): (r: Option<nat>)
    requires k <= |ports|
    ensures r.Some? ==> k <= r.value < |ports| && Named(ports[r.value]) && Matches(name, ports[r.value].name)
    ensures forall i | k <= i < (if r.Some? then r.value else |ports|) ::
              !(Named(ports[i]) && Matches(name, ports[i].name))
    decreases |ports| - k
  {
    if k == |ports| then None
    else if Named(ports[k]) && Matches(name, ports[k].name) then Some(k)
    else FindFrom(ports, name, k + 1)
  }

  function FreeFrom(ports: seq<Port>, k: nat): (r: Option<nat>)
    requires k <= |ports|
    ensures r.Some? ==> k <= r.value < |ports| && !ports[r.value].inUse
    ensures forall i | k <= i < (if r.Some? then r.value else |ports|) :: ports[i].inUse
    decreases |ports| - k
  {
    if k == |ports| then None else if !ports[k].inUse then Some(k) else FreeFrom(ports, k + 1)
  }

  /** No active name begins another, and all fit. */
  ghost predicate PrefixFree(ports: seq<Port>) {
    && (forall i | 0 <= i < |ports| :: |ports[i].name| < NAME_MAX)
    && (forall i, j | 0 <= i < |ports| && 0 <= j < |ports| && i != j && Named(ports[i]) && Named(ports[j]) ::
          !Matches(ports[i].name, ports[j].name))
  }

  /** A search by any name finds the same port as a search by the part of it that a port can hold. */
  lemma TruncationIsHarmless(name: Name, other: Name)
    requires |other| < NAME_MAX
    ensures Matches(name, other) <==> Matches(Stored(name), other)
  {
    var s := Stored(name);
    if |name| >= NAME_MAX {
      if other <= name { assert other <= s; }
      if s <= other { assert s == other; }
    }
  }

  /** A name that no active port answers to can be given to a port. */
  lemma OpenedPrefixFree(ports: seq<Port>, i: nat, owner: nat, name: Name)
    requires i < |ports| && PrefixFree(ports) && !ports[i].inUse && (name == [] || FindFrom(ports, name, 0) == None)
    ensures PrefixFree(ports[i := Opened(ports[i], owner, Stored(name))])
  {
    forall j | 0 <= j < |ports| && j != i && Named(ports[j]) && name != []
      ensures !Matches(Stored(name), ports[j].name)
    {
      TruncationIsHarmless(name, ports[j].name);
    }
  }

  /** Whoever has a non-empty name is found under it. */
  lemma NameFindsItsPort(ports: seq<Port>, i: nat, name: Name)
    requires i < |ports| && PrefixFree(ports) && Named(ports[i]) && ports[i].name == Stored(name)
    ensures FindFrom(ports, name, 0) == Some(i)
  {
    TruncationIsHarmless(name, ports[i].name);
    match FindFrom(ports, name, 0)
    case Some(j) =>
      TruncationIsHarmless(name, ports[j].name);
    case None =>
  }
}
