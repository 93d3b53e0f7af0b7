/** The circular lists of src/kernel/task_mlfq.c with their `next` pointers, proved to do what the functions
    of module Mlfq say. */
module MlfqRings {
  import opened Common
  import opened Tasks
  import opened Mlfq

  /** struct task, without what only other parts of the kernel use. */
  class Tcb {
    var pid: nat
    var state: TaskState
    var priority: Level
    var base: Level
    var quantum: nat
    var slice: nat
    var ticksUsed: uint32
    var totalTicks: uint32
    var sleepUntil: uint32
    var next: Tcb?

    constructor (pid: nat, state: TaskState, p: Level)
      ensures View() == Task(pid, state, p, p, Quantum(p), Quantum(p), 0, 0, 0)
    {
      this.pid := pid;
      this.state := state;
      priority, base := p, p;
      quantum, slice := Quantum(p), Quantum(p);
      ticksUsed, totalTicks, sleepUntil := 0, 0, 0;
      next := null;
    }

    function View(): Task
      reads this
    {
      Task(pid, state, priority, base, quantum, slice, ticksUsed, totalTicks, sleepUntil)
    }
  }

  // ---------------------------------------------------------------- rings and their pointers

  /** The next pointers lead once round the ring and back to its start. */
  ghost predicate Links(all: seq<Tcb>, nexts: seq<Tcb?>, ring: seq<TaskId>)
    requires InRange(ring, |all|) && |nexts| == |all|
  {
    ring != [] ==>
      && (forall i | 0 <= i < |ring| - 1 :: nexts[ring[i]] == all[ring[i + 1]])
      && nexts[ring[|ring| - 1]] == all[ring[0]]
  }

  ghost predicate Distinct(all: seq<Tcb>) {
    forall i, j | 0 <= i < j < |all| :: all[i] != all[j]
  }

  /** The array of tasks holds the first ones created. */
  ghost predicate Listed(tasks: seq<Tcb?>, all: seq<Tcb>) {
    && |tasks| == MAX_TASKS
    && forall i | 0 <= i < MAX_TASKS :: tasks[i] == if i < |all| then all[i] else null
  }

  /** The tasks, what they look like and where their next pointers lead. */
  datatype Heap = Heap(all: seq<Tcb>, views: seq<Task>, nexts: seq<Tcb?>)

  ghost predicate Whole(h: Heap) {
    |h.views| == |h.nexts| == |h.all|
  }

  /** Ring p, with its tail: tasks of level p, each once. */
  ghost predicate Ring(h: Heap, ring: seq<TaskId>, p: nat, tail: Tcb?)
    requires Whole(h)
  {
    && InRange(ring, |h.all|) && NoDup(ring)
    && (forall i | 0 <= i < |ring| :: h.views[ring[i]].priority == p)
    && Links(h.all, h.nexts, ring)
    && tail == if ring == [] then null else h.all[ring[|ring| - 1]]
  }

  ghost predicate Rings(h: Heap, rings: seq<seq<TaskId>>, tails: seq<Tcb?>) {
    && Whole(h) && |rings| == |tails| == LEVELS
    && (forall p | 0 <= p < LEVELS :: Ring(h, rings[p], p, tails[p]))
  }

  /** The tasks of a level other than p are as before; there may be new tasks. */
  ghost predicate SameBut(h: Heap, h': Heap, p: int)
    requires Whole(h) && Whole(h')
  {
    && |h.all| <= |h'.all| && h'.all[..|h.all|] == h.all
    && (forall i | 0 <= i < |h.all| && h.views[i].priority != p ::
          h'.views[i].priority == h.views[i].priority && h'.nexts[i] == h.nexts[i])
  }

  lemma RingKept(h: Heap, h': Heap, ring: seq<TaskId>, p: nat, tail: Tcb?, q: int)
    requires Whole(h) && Whole(h') && SameBut(h, h', q) && q != p && Ring(h, ring, p, tail)
    ensures Ring(h', ring, p, tail)
  {
    assert forall i | 0 <= i < |h.all| :: h'.all[i] == h'.all[..|h.all|][i];
  }

  /** What is done to tasks of level p leaves the other rings alone. */
  lemma OthersKept(h: Heap, h': Heap, rings: seq<seq<TaskId>>, tails: seq<Tcb?>, p: Level, ring: seq<TaskId>, tail: Tcb?)
    requires Rings(h, rings, tails) && Whole(h') && SameBut(h, h', p) && Ring(h', ring, p, tail)
    ensures Rings(h', rings[p := ring], tails[p := tail])
  {
    var rings', tails' := rings[p := ring], tails[p := tail];
    forall q | 0 <= q < LEVELS ensures Ring(h', rings'[q], q, tails'[q]) {
      if q != p { RingKept(h, h', rings[q], q, tails[q], p); }
    }
  }

  lemma AllKept(h: Heap, h': Heap, rings: seq<seq<TaskId>>, tails: seq<Tcb?>)
    requires Rings(h, rings, tails) && Whole(h') && SameBut(h, h', -1)
    ensures Rings(h', rings, tails)
  {
    forall q | 0 <= q < LEVELS ensures Ring(h', rings[q], q, tails[q]) {
      RingKept(h, h', rings[q], q, tails[q], -1);
    }
  }

  /** The pointers that queue_add sets: the new task leads where the tail led, and the tail to it. */
  lemma RingExtended(h: Heap, h': Heap, ring: seq<TaskId>, p: nat, tail: Tcb?, id: TaskId)
    requires Whole(h) && Whole(h') && Ring(h, ring, p, tail) && h'.all == h.all && h'.views == h.views
    requires id < |h.all| && id !in ring && h.views[id].priority == p
    requires if ring == [] then h'.nexts == h.nexts[id := h.all[id]]
             else h'.nexts == h.nexts[id := h.nexts[ring[|ring| - 1]]][ring[|ring| - 1] := h.all[id]]
    ensures Ring(h', ring + [id], p, h.all[id])
  {
    var r := ring + [id];
    forall i | 0 <= i < |r| - 1 ensures h'.nexts[r[i]] == h.all[r[i + 1]] {
      assert r[i] == ring[i];
    }
  }

  /** The number of the tail of a ring, or `none` if it is empty. */
  function Last(ring: seq<TaskId>, none: nat): nat {
    if ring == [] then none else ring[|ring| - 1]
  }

  function Linked(nexts: seq<Tcb?>, id: TaskId, task: Tcb, last: TaskId): seq<Tcb?>
    requires id < |nexts|
  {
    if last < |nexts| then nexts[id := nexts[last]][last := task] else nexts[id := task]
  }

  lemma Added(h: Heap, rings: seq<seq<TaskId>>, tails: seq<Tcb?>, id: TaskId)
    requires Rings(h, rings, tails) && id < |h.all| && Free(rings, id)
    ensures var p, task := h.views[id].priority, h.all[id];
            var h' := h.(nexts := Linked(h.nexts, id, task, Last(rings[p], |h.all|)));
            Rings(h', rings[p := rings[p] + [id]], tails[p := task])
  {
    var p, task := h.views[id].priority, h.all[id];
    var h' := h.(nexts := Linked(h.nexts, id, task, Last(rings[p], |h.all|)));
    assert Ring(h, rings[p], p, tails[p]);
    RingExtended(h, h', rings[p], p, tails[p], id);
    hide Links;
    OthersKept(h, h', rings, tails, p, rings[p] + [id], task);
  }

  ghost predicate Free(rings: seq<seq<TaskId>>, id: TaskId) {
    |rings| == LEVELS && forall p | 0 <= p < LEVELS :: id !in rings[p]
  }

  lemma TailIsLast(h: Heap, rings: seq<seq<TaskId>>, tails: seq<Tcb?>, p: Level, id: TaskId)
    requires Rings(h, rings, tails) && Free(rings, id) && id < |h.all|
    ensures Last(rings[p], |h.all|) != id
    ensures tails[p] == if Last(rings[p], |h.all|) < |h.all| then h.all[Last(rings[p], |h.all|)] else null
  {
    assert Ring(h, rings[p], p, tails[p]);
  }

  function Prev<T>(ring: seq<T>, k: nat): T
    requires k < |ring|
  {
    ring[if k == 0 then |ring| - 1 else k - 1]
  }

  /** The pointer that queue_remove sets leads past element k. */
  lemma RingCut(h: Heap, h': Heap, ring: seq<TaskId>, p: nat, tail: Tcb?, k: nat)
    requires Whole(h) && Whole(h') && Ring(h, ring, p, tail) && h'.all == h.all && h'.views == h.views && k < |ring|
    requires Prev(ring, k) < |h.all| && h'.nexts == h.nexts[Prev(ring, k) := h.nexts[ring[k]]]
    ensures var r := ring[..k] + ring[k + 1..];
            Ring(h', r, p, if |ring| == 1 then null else if k == |ring| - 1 then h.all[Prev(ring, k)] else tail)
  {
    CutNoDup(ring, k);
    var r := ring[..k] + ring[k + 1..];
    forall i | 0 <= i < |r| ensures r[i] == ring[if i < k then i else i + 1] {}
  }

  /** The pointers of queue_remove. */
  lemma Removed(h: Heap, rings: seq<seq<TaskId>>, tails: seq<Tcb?>, id: TaskId)
    requires Rings(h, rings, tails) && id < |h.all| && id in rings[h.views[id].priority]
    ensures var p := h.views[id].priority;
            var ring := rings[p];
            var k := Position(ring, id);
            && Prev(ring, k) < |h.all|
            && Rings(h.(nexts := h.nexts[Prev(ring, k) := h.nexts[id]]), rings[p := Without(ring, id)],
                     tails[p := TailAfter(h.all, ring, k, tails[p])])
  {
    var p := h.views[id].priority;
    var ring := rings[p];
    RingFacts(h, rings, tails, p);
    NextOfPrev(h, rings, tails, p, Position(ring, id));
    assert Ring(h, ring, p, tails[p]);
    hide Rings, Ring, Links, Position, Without, Prev, NoDup, InRange, TailAfter;
    var k := Position(ring, id);
    var h' := h.(nexts := h.nexts[Prev(ring, k) := h.nexts[id]]);
    RingWithout(h, h', ring, p, tails[p], id);
    OthersKept(h, h', rings, tails, p, Without(ring, id), TailAfter(h.all, ring, k, tails[p]));
  }

  lemma RingWithout(h: Heap, h': Heap, ring: seq<TaskId>, p: nat, tail: Tcb?, id: TaskId)
    requires Whole(h) && Whole(h') && Ring(h, ring, p, tail) && h'.all == h.all && h'.views == h.views && id in ring
    requires var k := Position(ring, id);
             id < |h.all| && Prev(ring, k) < |h.all| && h'.nexts == h.nexts[Prev(ring, k) := h.nexts[id]]
    ensures Ring(h', Without(ring, id), p, TailAfter(h.all, ring, Position(ring, id), tail))
  {
    var k := Position(ring, id);
    RingCut(h, h', ring, p, tail, k);
    WithoutAt(ring, k);
  }

  /** Task prev stands before task id in the ring. */
  ghost predicate IsBefore(all: seq<Tcb>, ring: seq<TaskId>, id: TaskId, prev: Tcb) {
    id in ring && var k := Position(ring, id); Prev(ring, k) < |all| && prev == all[Prev(ring, k)]
  }

  lemma BeforeMeans(all: seq<Tcb>, ring: seq<TaskId>, id: TaskId, prev: Tcb)
    requires IsBefore(all, ring, id, prev)
    ensures id in ring && Prev(ring, Position(ring, id)) < |all| && prev == all[Prev(ring, Position(ring, id))]
  {
  }

  lemma WithoutNothing(ring: seq<TaskId>, id: TaskId)
    ensures id !in ring ==> Without(ring, id) == ring
  {
  }

  function TailAfter(all: seq<Tcb>, ring: seq<TaskId>, k: nat, tail: Tcb?): Tcb?
    requires k < |ring| && Prev(ring, k) < |all|
  {
    if |ring| == 1 then null else if k == |ring| - 1 then all[Prev(ring, k)] else tail
  }

  /** How queue_remove can tell the tail and the only task of a ring. */
  lemma RemovalCases(h: Heap, rings: seq<seq<TaskId>>, tails: seq<Tcb?>, id: TaskId)
    requires Rings(h, rings, tails) && Distinct(h.all) && id < |h.all| && id in rings[h.views[id].priority]
    ensures var p, task := h.views[id].priority, h.all[id];
            var ring := rings[p];
            var k := Position(ring, id);
            && (tails[p] == task <==> k == |ring| - 1)
            && h.nexts[id] != null && (h.nexts[id] == task <==> |ring| == 1)
            && (h.nexts[id] == task ==> Prev(ring, k) == id)
  {
    var p, task := h.views[id].priority, h.all[id];
    var ring := rings[p];
    var k := Position(ring, id);
    assert Ring(h, ring, p, tails[p]);
    NextOfPrev(h, rings, tails, p, if k == |ring| - 1 then 0 else k + 1);
    hide Position, Rings;
  }

  lemma NextOfPrev(h: Heap, rings: seq<seq<TaskId>>, tails: seq<Tcb?>, p: Level, k: nat)
    requires Rings(h, rings, tails) && k < |rings[p]|
    ensures Prev(rings[p], k) < |h.all| && rings[p][k] < |h.all|
    ensures h.nexts[Prev(rings[p], k)] == h.all[rings[p][k]]
  {
    assert Ring(h, rings[p], p, tails[p]);
  }

  lemma RingFacts(h: Heap, rings: seq<seq<TaskId>>, tails: seq<Tcb?>, p: Level)
    requires Rings(h, rings, tails)
    ensures InRange(rings[p], |h.all|) && NoDup(rings[p])
    ensures tails[p] == if rings[p] == [] then null else h.all[rings[p][|rings[p]| - 1]]
  {
    assert Ring(h, rings[p], p, tails[p]);
  }

  lemma RingTurned(h: Heap, ring: seq<TaskId>, p: nat, tail: Tcb?, k: nat)
    requires Whole(h) && Ring(h, ring, p, tail) && k < |ring|
    ensures ring[k] < |h.all| && Ring(h, Turn(ring, k), p, h.all[ring[k]])
  {
    var r, n := Turn(ring, k), |ring|;
    forall i | 0 <= i < n ensures r[i] == ring[if i < n - k - 1 then k + 1 + i else i - (n - k - 1)] {}
  }

  ghost function Views(all: seq<Tcb>): (r: seq<Task>)
    reads all
    ensures |r| == |all| && forall i | 0 <= i < |r| :: r[i] == all[i].View()
  {
    seq(|all|, i requires 0 <= i < |all| reads all => all[i].View())
  }

  ghost function Nexts(all: seq<Tcb>): (r: seq<Tcb?>)
    reads all
    ensures |r| == |all| && forall i | 0 <= i < |r| :: r[i] == all[i].next
  {
    seq(|all|, i requires 0 <= i < |all| reads all => all[i].next)
  }

  ghost function HeapOf(all: seq<Tcb>): Heap
    reads all
  {
    Heap(all, Views(all), Nexts(all))
  }

  lemma NoRings(h: Heap)
    requires Whole(h)
    ensures Rings(h, [[], [], [], []], [null, null, null, null])
  {
  }

  /** Nothing about a task in no ring matters to the rings. */
  lemma FreeChanged(h: Heap, h': Heap, rings: seq<seq<TaskId>>, tails: seq<Tcb?>, id: TaskId)
    requires Rings(h, rings, tails) && Whole(h') && Free(rings, id) && h'.all == h.all
    requires forall i | 0 <= i < |h.all| && i != id :: h'.views[i].priority == h.views[i].priority && h'.nexts[i] == h.nexts[i]
    ensures Rings(h', rings, tails)
  {
    forall p | 0 <= p < LEVELS ensures Ring(h', rings[p], p, tails[p]) {
      assert Ring(h, rings[p], p, tails[p]);
      assert forall i | 0 <= i < |rings[p]| :: rings[p][i] in rings[p];
    }
  }

  lemma TurnedRings(h: Heap, rings: seq<seq<TaskId>>, tails: seq<Tcb?>, p: Level, k: nat)
    requires Rings(h, rings, tails) && k < |rings[p]|
    ensures rings[p][k] < |h.all| && Rings(h, rings[p := Turn(rings[p], k)], tails[p := h.all[rings[p][k]]])
  {
    RingFacts(h, rings, tails, p);
    assert Ring(h, rings[p], p, tails[p]);
    RingTurned(h, rings[p], p, tails[p], k);
    hide Ring, Rings, Turn;
    OthersKept(h, h, rings, tails, p, Turn(rings[p], k), h.all[rings[p][k]]);
  }

  lemma FirstReadyIs(tasks: seq<Task>, ring: seq<TaskId>, i: nat, k: nat)
    requires InRange(ring, |tasks|) && i <= k <= |ring| && (forall j | i <= j < k :: !Ready(tasks[ring[j]]))
    requires k < |ring| ==> Ready(tasks[ring[k]])
    ensures FirstReady(tasks, ring, i) == k
  {
  }

  /** The task at place k of level p is what the search stops at. */
  ghost predicate Chosen(s: State, all: seq<Tcb>, p: nat, k: nat, task: Tcb)
    requires Shaped(s)
  {
    && p < LEVELS && k == FirstReady(s.tasks, s.rings[p], 0) && k < |s.rings[p]|
    && s.rings[p][k] < |all| && task == all[s.rings[p][k]]
  }

  lemma ChosenMeans(s: State, all: seq<Tcb>, p: nat, k: nat, task: Tcb)
    requires Shaped(s) && Chosen(s, all, p, k, task)
    ensures p < LEVELS && k < |s.rings[p]| && s.rings[p][k] < |all| && task == all[s.rings[p][k]]
    ensures Select(s, p) == (s.(rings := s.rings[p := Turn(s.rings[p], k)]), s.rings[p][k])
  {
    SelectAt(s, p);
  }

  lemma SelectAt(s: State, p: Level)
    requires Shaped(s)
    ensures var k := FirstReady(s.tasks, s.rings[p], 0);
            Select(s, p) == if k < |s.rings[p]| then (s.(rings := s.rings[p := Turn(s.rings[p], k)]), s.rings[p][k])
                            else Select(s, p + 1)
  {
  }

  lemma HeapParts(all: seq<Tcb>)
    ensures HeapOf(all).all == all && HeapOf(all).views == Views(all) && HeapOf(all).nexts == Nexts(all)
  {
  }

  // ---------------------------------------------------------------- the scheduler

  class Scheduler {
    const tasks: array<Tcb?>
    const queues: array<Tcb?>
    var current: Tcb
    var globalTicks: uint32
    var nextPid: nat
    /** Every task created, in order of creation; a TaskId is an index into it. */
    ghost var all: seq<Tcb>
    ghost var rings: seq<seq<TaskId>>
    ghost var cur: TaskId

    ghost function Tails(): (r: seq<Tcb?>)
      reads queues
      ensures |r| == queues.Length
    {
      queues[..]
    }

    ghost function Slots(): (r: seq<Tcb?>)
      reads tasks
      ensures |r| == tasks.Length
    {
      tasks[..]
    }

    ghost predicate Valid()
      reads this, tasks, queues, all
    {
      && all != [] && Distinct(all) && cur < |all| && current == all[cur]
      && Listed(Slots(), all) && queues.Length == LEVELS && Rings(HeapOf(all), rings, Tails())
    }

    ghost function Abs(): State
      reads this, all
    {
      State(Views(all), rings, cur, globalTicks, nextPid)
    }

    /** A task object that changes, but not its level and its next pointer, changes one view. */
    twostate lemma Touched(t: TaskId)
      requires old(Valid()) && unchanged(`all, `rings, `current, `cur) && unchanged(tasks, queues) && t < |all|
      requires forall i | 0 <= i < |all| :: all[i].next == old(all[i].next) && all[i].priority == old(all[i].priority)
      requires forall i | 0 <= i < |all| && i != t :: all[i].View() == old(all[i].View())
      ensures Valid() && Views(all) == old(Views(all))[t := all[t].View()]
    {
      hide Ring, Rings;
      assert Tails() == old(Tails());
      AllKept(old(HeapOf(all)), HeapOf(all), rings, Tails());
    }

    lemma Apart(t: TaskId)
      requires Valid() && t < |all|
      ensures forall i | 0 <= i < |all| && i != t :: all[i] != all[t]
    {
    }

    /** task_init */
    constructor ()
      ensures Valid() && Abs() == Boot() && fresh(all) && fresh(tasks) && fresh(queues)
    {
      var idle := new Tcb(0, RUNNING, IDLE);
      tasks := new Tcb?[MAX_TASKS](i => if i == 0 then idle else null);
      queues := new Tcb?[LEVELS](_ => null);
      current := idle;
      globalTicks := 0;
      nextPid := 1;
      all := [idle];
      rings := [[], [], [], []];
      cur := 0;
      new;
      assert Views(all) == [idle.View()] && Tails() == [null, null, null, null];
      HeapParts(all);
      NoRings(HeapOf(all));
      assert Listed(Slots(), all) && Distinct(all);
      hide Distinct, Tcb.View, Rings, Listed, Views, Nexts, HeapOf, Valid, Tails, Slots;
      Assembled();
    }

    /** The pointer updates of queue_add, with the task at the tail of its ring given by its number. */
    method LinkIn(task: Tcb, ghost id: TaskId, ghost last: TaskId)
      requires Distinct(all) && id < |all| && all[id] == task && queues.Length == LEVELS && last != id
      requires queues[task.priority] == if last < |all| then all[last] else null
      modifies queues, all
      ensures Tails() == old(Tails())[task.priority := task]
      ensures Views(all) == old(Views(all))
      ensures HeapOf(all) == old(HeapOf(all)).(nexts := Linked(old(Nexts(all)), id, task, last))
    {
      var p := task.priority;
      if queues[p] == null {
        queues[p] := task;
        task.next := task;
      } else {
        task.next := queues[p].next;
        queues[p].next := task;
        queues[p] := task;
      }
      assert Views(all) == old(Views(all));
      assert Nexts(all) == Linked(old(Nexts(all)), id, task, last);
    }

    lemma Parts()
      requires Valid()
      ensures queues.Length == LEVELS && tasks.Length == MAX_TASKS && |rings| == LEVELS
      ensures Rings(HeapOf(all), rings, Tails()) && Distinct(all) && cur < |all| && current == all[cur]
      ensures Listed(Slots(), all)
    {
    }

    lemma Assembled()
      requires queues.Length == LEVELS && Rings(HeapOf(all), rings, Tails())
      requires Distinct(all) && cur < |all| && current == all[cur] && Listed(Slots(), all)
      ensures Valid()
    {
    }

    /** The rings that the pointers now form are recorded. */
    ghost method Record(rings': seq<seq<TaskId>>)
      requires queues.Length == LEVELS && Rings(HeapOf(all), rings', Tails())
      requires Distinct(all) && cur < |all| && current == all[cur] && Listed(Slots(), all)
      modifies this`rings
      ensures Valid() && rings == rings' && Views(all) == old(Views(all))
    {
      rings := rings';
    }

    method QueueAdd(task: Tcb, ghost id: TaskId)
      requires Valid() && id < |all| && all[id] == task && Free(rings, id)
      modifies this`rings, queues, all
      ensures Valid() && |old(rings)| == LEVELS && Abs() == Mlfq.QueueAdd(old(Abs()), id)
    {
      Parts();
      HeapParts(all);
      hide Tails, Slots, Valid, Rings, Linked, Last, Ring, Listed, Free, Distinct, HeapOf, Views, Nexts, Tcb.View;
      var p := task.priority;
      ghost var h, tails, listed := HeapOf(all), Tails(), Slots();
      ghost var last := Last(rings[p], |all|);
      ghost var rings', h' := rings[p := rings[p] + [id]], h.(nexts := Linked(h.nexts, id, task, last));
      TailIsLast(h, rings, tails, p, id);
      Added(h, rings, tails, id);
      assert Rings(h', rings', tails[p := task]);
      LinkIn(task, id, last);
      assert Slots() == listed && Tails() == tails[p := task] && HeapOf(all) == h';
      Record(rings');
    }

    lemma QueueIsTail(p: Level)
      requires Valid()
      ensures queues.Length == LEVELS == |rings| && (queues[p] == null <==> rings[p] == [])
    {
      RingFacts(HeapOf(all), rings, Tails(), p);
    }

    /** The search loop of queue_remove: the task before the given one in its ring. */
    method FindBefore(task: Tcb, ghost id: TaskId) returns (prev: Tcb?)
      requires Valid() && id < |all| && all[id] == task && |rings| == LEVELS && rings[task.priority] != []
      ensures Valid() && Abs() == old(Abs()) && all == old(all)
      ensures if prev == null then id !in rings[task.priority] else IsBefore(all, rings[task.priority], id, prev)
    {
      Parts();
      HeapParts(all);
      var p := task.priority;
      ghost var h, tails, ring := HeapOf(all), Tails(), rings[p];
      RingFacts(h, rings, tails, p);
      hide Valid, Rings, Listed, HeapOf, Position, Slots;
      var c: Tcb := queues[p];
      prev := null;
      ghost var k := 0;
      var more := true;
      while more
        invariant 0 <= k <= |ring| && (more ==> k < |ring| && c == all[Prev(ring, k)] && prev == null)
        invariant forall j | 0 <= j < k :: ring[j] != id
        invariant !more ==> if k < |ring| then ring[k] == id && prev == all[Prev(ring, k)] else prev == null
        decreases |ring| - k, more
      {
        NextOfPrev(h, rings, tails, p, k);
        if c.next == task {
          prev := c;
          more := false;
        } else {
          c := c.next;
          k := k + 1;
          more := c != queues[p];
        }
      }
      FoundAt(ring, id, k);
    }

    lemma FoundAt(ring: seq<TaskId>, id: TaskId, k: nat)
      requires k <= |ring| && (forall j | 0 <= j < k :: ring[j] != id) && (k < |ring| ==> ring[k] == id)
      ensures id in ring <==> k < |ring|
      ensures id in ring ==> Position(ring, id) == k
    {
      if k < |ring| {
        assert id in ring;
        EarlyPosition(ring, k, id);
      }
    }

    /** The pointer updates of queue_remove, once the task before the given one is known. */
    method Bypass(task: Tcb, prev: Tcb, ghost id: TaskId)
      requires Valid() && id < |all| && all[id] == task && |rings| == LEVELS == queues.Length
      requires IsBefore(all, rings[task.priority], id, prev)
      modifies queues, all
      ensures Views(all) == old(Views(all))
      ensures var ring := rings[old(task.priority)];
              var k := Position(ring, id);
              && HeapOf(all) == old(HeapOf(all)).(nexts := old(Nexts(all))[Prev(ring, k) := old(task.next)])
              && Tails() == old(Tails())[old(task.priority) := TailAfter(all, ring, k, old(queues[task.priority]))]
    {
      Parts();
      HeapParts(all);
      var p := task.priority;
      RemovalCases(HeapOf(all), rings, Tails(), id);
      hide Valid, Rings, Ring, Listed, Position;
      prev.next := task.next;
      if queues[p] == task {
        if task.next == task {
          queues[p] := null;
        } else {
          queues[p] := prev;
        }
      }
      assert Views(all) == old(Views(all));
      assert Nexts(all) == old(Nexts(all))[Prev(rings[p], Position(rings[p], id)) := old(task.next)];
    }

    method Unlink(task: Tcb, prev: Tcb, ghost id: TaskId)
      requires Valid() && id < |all| && all[id] == task && |rings| == LEVELS == queues.Length
      requires IsBefore(all, rings[task.priority], id, prev)
      modifies queues, all
      ensures Views(all) == old(Views(all)) && Slots() == old(Slots())
      ensures var p := old(task.priority); Rings(HeapOf(all), rings[p := Without(rings[p], id)], Tails())
    {
      Parts();
      HeapParts(all);
      BeforeMeans(all, rings[task.priority], id, prev);
      var p := task.priority;
      ghost var h, tails, listed, ring := HeapOf(all), Tails(), Slots(), rings[p];
      assert tails[p] == queues[p] && h.views[id].priority == p && h.nexts[id] == task.next;
      hide Tails, Slots, Valid, Rings, Ring, Listed, Distinct, HeapOf, Views, Nexts, Tcb.View, Without, Position;
      Removed(h, rings, tails, id);
      Bypass(task, prev, id);
      assert Slots() == listed;
    }

    method QueueRemove(task: Tcb, ghost id: TaskId)
      requires Valid() && id < |all| && all[id] == task
      modifies this`rings, queues, all
      ensures Valid() && |old(rings)| == LEVELS && Abs() == Mlfq.QueueRemove(old(Abs()), id)
    {
      Parts();
      var p := task.priority;
      ghost var ring := rings[p];
      assert Views(all)[id].priority == p;
      QueueIsTail(p);
      WithoutNothing(ring, id);
      assert rings[p := ring] == rings;
      hide Tails, Slots, Valid, Rings, Listed, Distinct, HeapOf, Views, Tcb.View, Without, IsBefore;
      if queues[p] == null {
        return;
      }
      var prev := FindBefore(task, id);
      if prev == null {
        return;
      }
      Unlink(task, prev, id);
      Record(rings[p := Without(ring, id)]);
    }

    /** The inner loop of get_next_ready_task, at one level. */
    method FindReady(p: Level) returns (found: Tcb?, ghost k: nat)
      requires Valid() && Shaped(Abs()) && queues.Length == LEVELS && queues[p] != null
      ensures Valid() && Abs() == old(Abs()) && all == old(all)
      ensures k == FirstReady(Abs().tasks, Abs().rings[p], 0)
      ensures found == if k < |Abs().rings[p]| then all[Abs().rings[p][k]] else null
    {
      Parts();
      HeapParts(all);
      ghost var h, tails, ring := HeapOf(all), Tails(), rings[p];
      RingFacts(h, rings, tails, p);
      hide Valid, Rings, Listed, HeapOf, Slots, FirstReady;
      NextOfPrev(h, rings, tails, p, 0);
      var start := queues[p].next;
      var c: Tcb := start;
      k := 0;
      found := null;
      var more := true;
      while more
        invariant 0 <= k <= |ring| && (more ==> k < |ring| && c == all[ring[k]] && found == null)
        invariant forall j | 0 <= j < k :: !Ready(h.views[ring[j]])
        invariant !more ==> if k < |ring| then Ready(h.views[ring[k]]) && found == all[ring[k]] else found == null
        decreases |ring| - k, more
      {
        if c.state == READY || c.state == RUNNING {
          found := c;
          more := false;
        } else {
          NextOfPrev(h, rings, tails, p, if k == |ring| - 1 then 0 else k + 1);
          c := c.next;
          k := k + 1;
          more := c != start;
        }
      }
      FirstReadyIs(h.views, ring, 0, k);
    }

    /** ready_queues[prio] = current */
    method TurnQueue(p: Level, task: Tcb, ghost k: nat)
      requires Valid() && |rings| == LEVELS == queues.Length && k < |rings[p]| && rings[p][k] < |all| &&
          task == all[rings[p][k]]
      modifies this`rings, queues
      ensures Valid() && |old(rings)| == LEVELS && rings == old(rings)[p := Turn(old(rings[p]), k)]
      ensures Views(all) == old(Views(all))
    {
      Parts();
      HeapParts(all);
      ghost var h, tails, listed := HeapOf(all), Tails(), Slots();
      TurnedRings(h, rings, tails, p, k);
      hide Valid, Rings, Ring, Listed, Distinct, HeapOf, Views, Nexts, Turn;
      queues[p] := task;
      assert Tails() == tails[p := task] && Slots() == listed;
      hide Tails, Slots;
      Record(rings[p := Turn(rings[p], k)]);
    }

    /** One round of the outer loop. */
    method TryLevel(p: Level) returns (found: Tcb?, ghost k: nat)
      requires Valid() && Shaped(Abs())
      ensures Valid() && Abs() == old(Abs()) && all == old(all)
      ensures if found == null then Select(Abs(), p) == Select(Abs(), p + 1) else Chosen(Abs(), all, p, k, found)
    {
      QueueIsEmpty(p);
      ShapedParts(Abs());
      NothingReady(Abs(), p);
      SelectAt(Abs(), p);
      found, k := null, 0;
      hide Abs, Valid, FirstReady, Ready, Shaped, Select;
      if queues[p] != null {
        found, k := FindReady(p);
      }
    }

    /** The outer loop: the best level with a task that can run, and that task. */
    method FindLevel() returns (prio: nat, task: Tcb?, ghost k: nat)
      requires Valid() && Shaped(Abs())
      ensures Valid() && Abs() == old(Abs()) && all == old(all)
      ensures prio <= LEVELS && Select(Abs(), prio) == Select(Abs(), 0)
      ensures if task == null then prio == LEVELS else Chosen(Abs(), all, prio, k, task)
    {
      ghost var s := Abs();
      hide Abs, Valid, Select, Shaped, Chosen;
      prio, task, k := 0, null, 0;
      while prio < LEVELS && task == null
        invariant Valid() && Abs() == s && all == old(all)
        invariant prio <= LEVELS && Select(s, prio) == Select(s, 0)
        invariant task != null ==> Chosen(s, all, prio, k, task)
        decreases LEVELS - prio, task == null
      {
        task, k := TryLevel(prio);
        if task == null {
          prio := prio + 1;
        }
      }
    }

    lemma ShapedParts(s: State)
      requires Shaped(s)
      ensures |s.rings| == LEVELS && forall p | 0 <= p < LEVELS :: InRange(s.rings[p], |s.tasks|)
    {
    }

    lemma QueueIsEmpty(p: Level)
      requires Valid()
      ensures queues.Length == LEVELS == |Abs().rings| && |Abs().tasks| == |all|
      ensures queues[p] == null <==> Abs().rings[p] == []
    {
      QueueIsTail(p);
    }

    lemma NothingReady(s: State, p: Level)
      requires Shaped(s)
      ensures s.rings[p] == [] ==> FirstReady(s.tasks, s.rings[p], 0) == 0
    {
    }

    method GetNextReadyTask() returns (task: Tcb, ghost id: TaskId)
      requires Valid() && Shaped(Abs())
      modifies this`rings, queues
      ensures Valid() && id < |all| && task == all[id]
      ensures (Abs(), id) == Select(old(Abs()), 0)
    {
      Parts();
      ghost var s := Abs();
      hide Valid, Rings, Distinct, Listed, Tails, Slots, Select, Turn, HeapOf, Tcb.View, Shaped, Chosen;
      ghost var k;
      var prio, found;
      prio, found, k := FindLevel();
      if found != null {
        ChosenMeans(s, all, prio, k, found);
        id := rings[prio][k];
        task := found;
        TurnQueue(prio, found, k);
      } else {
        Idle();
        SelectNone(s);
        task, id := tasks[0], 0;
      }
    }

    lemma SelectNone(s: State)
      requires Shaped(s)
      ensures Select(s, LEVELS) == (s, 0)
    {
    }

    lemma Idle()
      requires Valid()
      ensures tasks.Length == MAX_TASKS && all != [] && tasks[0] == all[0]
    {
      assert Slots()[0] == all[0];
    }

    // -------------------------------------------------------------- operations

    /** A task in no ring may change its level too. */
    twostate lemma TouchedFree(t: TaskId)
      requires old(Valid()) && unchanged(`all, `rings, `current, `cur) && unchanged(tasks, queues) && t < |all|
      requires Free(rings, t) && forall i | 0 <= i < |all| :: all[i].next == old(all[i].next)
      requires forall i | 0 <= i < |all| && i != t :: all[i].View() == old(all[i].View())
      ensures Valid() && Views(all) == old(Views(all))[t := all[t].View()]
    {
      hide Ring, Rings, Free;
      assert Tails() == old(Tails()) && Slots() == old(Slots());
      FreeChanged(old(HeapOf(all)), HeapOf(all), rings, Tails(), t);
    }

    /** A new task takes the first free entry of the array of tasks, if there is one. */
    method Register(task: Tcb, ghost known: seq<Tcb>)
      requires Listed(Slots(), known) && known != []
      modifies tasks
      ensures Listed(Slots(), known + [task])
    {
      var i := 1;
      while i < MAX_TASKS && tasks[i] != null
        invariant 1 <= i <= MAX_TASKS && i <= |known|
        invariant forall k | 0 <= k < MAX_TASKS :: tasks[k] == if k < |known| then known[k] else null
      {
        i := i + 1;
      }
      if i < MAX_TASKS {
        tasks[i] := task;
      }
    }

    lemma MoreTasks(h: Heap, h': Heap)
      requires Whole(h) && Whole(h') && |h.all| <= |h'.all|
      requires h'.all[..|h.all|] == h.all && h'.views[..|h.all|] == h.views && h'.nexts[..|h.all|] == h.nexts
      ensures SameBut(h, h', -1)
    {
      forall i | 0 <= i < |h.all| ensures h'.views[i] == h.views[i] && h'.nexts[i] == h.nexts[i] {
        assert h'.views[i] == h'.views[..|h.all|][i] && h'.nexts[i] == h'.nexts[..|h.all|][i];
      }
    }

    /** The array of all tasks, and with it the rest of the invariant, is extended. */
    ghost method Admit(more: seq<Tcb>)
      requires queues.Length == LEVELS && Rings(HeapOf(more), rings, Tails())
      requires Distinct(more) && cur < |more| && current == more[cur] && Listed(Slots(), more)
      modifies this`all
      ensures Valid() && all == more && Views(all) == old(Views(more))
    {
      all := more;
    }

    lemma Grown(task: Tcb, h: Heap)
      requires Valid() && h.all == all && h.views == Views(all) && h.nexts == Nexts(all)
      ensures Views(all + [task]) == h.views + [task.View()] && Nexts(all + [task])[..|all|] == h.nexts
    {
    }

    /** A task object like a new task's, known to nobody yet. */
    method MakeTask() returns (task: Tcb)
      requires Valid()
      ensures fresh(task) && Valid() && Distinct(all + [task]) && Rings(HeapOf(all + [task]), rings, Tails())
      ensures Views(all + [task]) == CreatedTask(old(Abs())).tasks && Abs() == old(Abs())
    {
      Parts();
      AbsParts();
      HeapParts(all);
      ghost var h, tails := HeapOf(all), Tails();
      hide Rings, HeapOf, Listed, Views, Nexts;
      task := new Tcb(nextPid, READY, NORMAL);
      Grown(task, h);
      hide Valid, Tcb.View, Tails;
      HeapParts(all + [task]);
      MoreTasks(h, HeapOf(all + [task]));
      AllKept(h, HeapOf(all + [task]), rings, tails);
    }

    lemma NobodyIsNew()
      requires Valid()
      ensures |rings| == LEVELS && Free(rings, |all|)
    {
      NewIdIsFree(HeapOf(all), rings, Tails());
    }

    /** The first half of task_create: a task that is in no ring yet. */
    method NewTask() returns (task: Tcb)
      requires Valid()
      modifies this`nextPid, this`all, tasks
      ensures Valid() && fresh(task) && all == old(all) + [task] && Free(rings, |old(all)|)
      ensures |old(Abs()).tasks| == |old(all)| && Abs() == CreatedTask(old(Abs()))
    {
      hide Rings, HeapOf, Free, Listed, Views, Nexts, Distinct, Tails, Slots, Quantum, Valid;
      AbsParts();
      NobodyIsNew();
      task := MakeTask();
      Parts();
      ghost var more := all + [task];
      label made:
      nextPid := nextPid + 1;
      Register(task, all);
      assert Tails() == old@made(Tails()) by { assert unchanged@made(queues); }
      assert HeapOf(more) == old@made(HeapOf(more)) && Views(more) == old@made(Views(more)) by { assert unchanged@made(more); }
      Admit(more);
    }

    /** task_create once the memory is there, the part that concerns scheduling. */
    method Enlist() returns (task: Tcb)
      requires Valid()
      modifies this, tasks, queues, all
      ensures Valid() && all == old(all) + [task] && fresh(task)
      ensures |old(rings)| == LEVELS && Abs() == Create(old(Abs()))
    {
      hide *;
      Parts();
      AbsParts();
      CreateIs(Abs());
      task := NewTask();
      QueueAdd(task, |old(all)|);
    }

    ghost function CreatedTask(s: State): State {
      s.(tasks := s.tasks + [Task(s.nextPid, READY, NORMAL, NORMAL, Quantum(NORMAL), Quantum(NORMAL), 0, 0, 0)],
         nextPid := s.nextPid + 1)
    }

    lemma CreateIs(s: State)
      requires |s.rings| == LEVELS
      ensures Create(s) == Mlfq.QueueAdd(CreatedTask(s), |s.tasks|)
    {
    }

    lemma AbsParts()
      ensures Abs() == State(Views(all), rings, cur, globalTicks, nextPid) && |Abs().tasks| == |all|
    {
    }

    /** task_create; `memory` is whether kmalloc found room. */
    method TaskCreate(memory: bool) returns (pid: nat)
      requires Valid()
      modifies this, tasks, queues, all
      ensures Valid() && |old(rings)| == LEVELS && Abs() == if memory then Create(old(Abs())) else old(Abs())
      ensures pid == if memory then old(nextPid) else 0
      ensures all != [] && if memory then all == old(all) + [all[|all| - 1]] && fresh(all[|all| - 1]) else all == old(all)
    {
      Parts();
      hide Valid, Abs, Create;
      if !memory { return 0; }
      pid := nextPid;
      var task := Enlist();
    }

    lemma NewIdIsFree(h: Heap, rings: seq<seq<TaskId>>, tails: seq<Tcb?>)
      requires Rings(h, rings, tails)
      ensures Free(rings, |h.all|)
    {
      forall p | 0 <= p < LEVELS ensures |h.all| !in rings[p] {
        assert Ring(h, rings[p], p, tails[p]);
      }
    }

    /** What task_wake writes into the task. */
    method Rouse(task: Tcb, ghost id: TaskId)
      requires Valid() && id < |all| && all[id] == task && Free(rings, id)
      modifies task
      ensures Valid() && Views(all) == old(Views(all))[id := Woken(old(task.View()))]
    {
      Apart(id);
      hide Valid, Views, Free;
      task.sleepUntil := 0;
      task.state := READY;
      task.ticksUsed := 0;
      if task.priority > task.base {
        task.priority := task.base;
        task.quantum := Quantum(task.priority);
      }
      TouchedFree(id);
    }

    /** What task_set_priority writes into the task. */
    method SetLevel(task: Tcb, p: Level, ghost id: TaskId)
      requires Valid() && id < |all| && all[id] == task && Free(rings, id)
      modifies task
      ensures Valid() && task.state == old(task.state)
      ensures Views(all) == old(Views(all))[id := old(task.View()).(priority := p, base := p, quantum := Quantum(p), ticksUsed := 0)]
    {
      Apart(id);
      hide Valid, Views, Free;
      task.priority := p;
      task.base := p;
      task.quantum := Quantum(p);
      task.ticksUsed := 0;
      TouchedFree(id);
    }

    /** task_wake */
    method TaskWake(task: Tcb, ghost id: TaskId)
      requires Valid() && id < |all| && all[id] == task && Inv(Abs())
      modifies this`rings, queues, all
      ensures Valid() && |old(rings)| == LEVELS && Abs() == Wake(old(Abs()), id)
    {
      Parts();
      assert Views(all)[id] == task.View();
      if task.state != SLEEPING { return; }
      SleeperIsFree(Abs(), id);
      hide Valid, Inv, Views, Woken;
      Rouse(task, id);
      QueueAdd(task, id);
    }

    /** task_set_priority */
    method TaskSetPriority(task: Tcb, p: nat, ghost id: TaskId)
      requires Valid() && id < |all| && all[id] == task && Inv(Abs())
      modifies this`rings, queues, all
      ensures Valid() && |old(rings)| == LEVELS && Abs() == SetPriority(old(Abs()), id, p)
    {
      Parts();
      if p >= LEVELS { return; }
      RemoveInv(Abs(), id);
      ghost var s1 := Mlfq.QueueRemove(Abs(), id);
      assert Views(all)[id] == task.View();
      hide Inv, Valid;
      QueueRemove(task, id);
      SameTask(task, id);
      SetLevel(task, p, id);
      SameTask(task, id);
      if task.state == READY {
        QueueAdd(task, id);
      }
    }

    lemma SameTask(task: Tcb, id: TaskId)
      requires id < |all| && all[id] == task
      ensures Views(all)[id] == task.View()
    {
    }

    lemma Entry(i: nat)
      requires Valid() && i < MAX_TASKS
      ensures tasks.Length == MAX_TASKS && tasks[i] == if i < |all| then all[i] else null
      ensures i < |all| ==> Views(all)[i] == all[i].View()
    {
      assert Slots()[i] == if i < |all| then all[i] else null;
    }

    /** One round of task_check_sleeping. */
    method CheckEntry(i: nat)
      requires Valid() && Inv(Abs()) && Shaped(Abs()) && i < MAX_TASKS
      modifies this`rings, queues, all
      ensures Valid() && Inv(Abs()) && Shaped(Abs()) && |Abs().tasks| == |old(Abs()).tasks|
      ensures Abs() == if i < |old(Abs()).tasks| && Due(old(Abs()), i) then Wake(old(Abs()), i) else old(Abs())
    {
      Entry(i);
      AbsParts();
      ghost var s := Abs();
      if i < |s.tasks| {
        WakeInv(s, i);
        InvShaped(Wake(s, i));
      }
      hide Valid, Inv, Shaped, Wake, Views;
      var task := tasks[i];
      if task != null && task.state == SLEEPING && task.sleepUntil > 0 && globalTicks >= task.sleepUntil {
        TaskWake(task, i);
      }
    }

    method TaskCheckSleeping()
      requires Valid() && Inv(Abs()) && Shaped(Abs())
      modifies this`rings, queues, all
      ensures Valid() && Inv(Abs()) && Shaped(Abs()) && Abs() == CheckSleeping(old(Abs()), 0)
    {
      ghost var s := Abs();
      hide Valid, Inv, Shaped, Abs, Wake;
      var i := 0;
      while i < MAX_TASKS
        invariant 0 <= i <= MAX_TASKS && Valid() && Inv(Abs()) && Shaped(Abs())
        invariant CheckSleeping(Abs(), i) == CheckSleeping(s, 0)
      {
        CheckEntry(i);
        i := i + 1;
      }
    }

    /** The first statements of task_schedule. */
    method CountTheTick()
      requires Valid()
      modifies this`globalTicks, all
      ensures Valid() && old(cur) < |old(all)| && Abs() == CountTick(old(Abs()))
    {
      Parts();
      AbsParts();
      Apart(cur);
      SameTask(current, cur);
      hide Valid, Views;
      globalTicks := Wrap32(globalTicks + 1);
      if current.state == RUNNING {
        current.totalTicks := Wrap32(current.totalTicks + 1);
        current.ticksUsed := Wrap32(current.ticksUsed + 1);
      }
      Touched(cur);
    }

    method UseTheSlice()
      requires Valid()
      modifies all
      ensures Valid() && cur < |all| && Abs() == UseSlice(old(Abs()))
    {
      Parts();
      AbsParts();
      Apart(cur);
      SameTask(current, cur);
      hide Valid, Views;
      if current.slice > 0 {
        current.slice := current.slice - 1;
      }
      Touched(cur);
    }

    /** The loop of task_schedule that asks for a task until it is not a zombie or blocked. */
    method PickTask() returns (task: Tcb, ghost id: TaskId)
      requires Valid() && Shaped(Abs())
      modifies this`rings, queues
      ensures Valid() && id < |all| && task == all[id] && (Abs(), id) == Select(old(Abs()), 0)
    {
      ghost var s := Abs();
      PickedAgain(s);
      AbsParts();
      hide Abs, Valid, Select, Shaped, Views, Ready;
      task, id := GetNextReadyTask();
      var attempts := 1;
      StateOf(task, id);
      while (task.state == ZOMBIE || task.state == BLOCKED) && attempts <= MAX_TASKS
        invariant Valid() && 1 <= attempts <= MAX_TASKS + 1 && id < |all| && task == all[id]
        invariant (Abs(), id) == Select(s, 0) && |Abs().tasks| == |all| && Abs().tasks[id].state == task.state
        decreases MAX_TASKS + 1 - attempts
      {
        task, id := GetNextReadyTask();
        attempts := attempts + 1;
        if attempts > MAX_TASKS {
          Idle();
          task, id := tasks[0], 0;
        }
        StateOf(task, id);
      }
    }

    lemma StateOf(task: Tcb, id: TaskId)
      requires id < |all| && all[id] == task
      ensures |Abs().tasks| == |all| && Abs().tasks[id] == task.View()
    {
    }

    /** A task that cannot run is chosen only for lack of any other: it is task 0, and asking again gives it
        again. */
    lemma PickedAgain(s: State)
      requires Shaped(s)
      ensures var (s1, t) := Select(s, 0);
              && Shaped(s1)
              && (s1.tasks[t].state == ZOMBIE || s1.tasks[t].state == BLOCKED ==> t == 0 && Select(s1, 0) == (s1, 0))
    {
      var q, k := SelectBest(s, 0);
    }

    /** The chosen task gets a full slice and the CPU. */
    method Give(task: Tcb, ghost id: TaskId)
      requires Valid() && id < |all| && task == all[id]
      modifies this`current, this`cur, task
      ensures Valid() && cur == id &&
          Views(all) == old(Views(all))[id := old(task.View()).(slice := old(task.quantum), state := RUNNING)]
      ensures current == task && task.quantum == old(task.quantum)
    {
      Apart(id);
      hide Valid, Views;
      task.slice := task.quantum;
      task.state := RUNNING;
      Touched(id);
      MakeCurrent(task, id);
    }

    method MakeCurrent(task: Tcb, ghost id: TaskId)
      requires Valid() && id < |all| && task == all[id]
      modifies this`current, this`cur
      ensures Valid() && cur == id && current == task && Views(all) == old(Views(all))
    {
      Parts();
      hide Rings, Listed;
      current := task;
      cur := id;
    }

    /** The rest of task_schedule, when the current task gives up the CPU. */
    method SwitchTask()
      requires Valid() && Shaped(Abs())
      modifies this, queues, all
      ensures Valid() && all == old(all) && Abs() == Switch(old(Abs()))
    {
      Parts();
      AbsParts();
      var oldTask := current;
      ghost var from := cur;
      ghost var s := Abs();
      hide Valid, Shaped, Select, Views;
      var task;
      ghost var id;
      task, id := PickTask();
      SameTask(task, id);
      AbsParts();
      ghost var s1 := Abs();
      Give(task, id);
      TakeBack(oldTask, from, task);
    }

    /** The task that had the CPU is ready again if it was still running, with the other's quantum. */
    method TakeBack(oldTask: Tcb, ghost from: TaskId, task: Tcb)
      requires Valid() && from < |all| && oldTask == all[from]
      modifies oldTask
      ensures Valid() && |old(Views(all))| == |all|
      ensures Views(all) == if old(oldTask.state) == RUNNING then
                              old(Views(all))[from := old(Views(all))[from].(state := READY, slice := old(task.quantum))]
                            else old(Views(all))
    {
      Apart(from);
      SameTask(oldTask, from);
      hide Valid, Views;
      if oldTask.state == RUNNING {
        oldTask.state := READY;
        oldTask.slice := task.quantum;
      }
      Touched(from);
    }

    /** task_schedule up to the decision whether to switch. */
    method Tick()
      requires Valid() && Inv(Abs()) && Shaped(Abs())
      modifies this, queues, all
      ensures Valid() && all == old(all) && Abs() == Ticked(old(Abs())) && cur < |all| && current == all[cur]
    {
      TickInv(Abs());
      hide Abs, Valid, Inv, Shaped, CountTick, CheckSleeping, UseSlice;
      CountTheTick();
      TaskCheckSleeping();
      UseTheSlice();
      Parts();
    }

    method TaskSchedule()
      requires Valid() && Inv(Abs()) && Shaped(Abs())
      modifies this, queues, all
      ensures Valid() && all == old(all) && Abs() == Schedule(old(Abs()))
    {
      hide Valid, Inv, Shaped, Ticked, Switch, Views;
      Tick();
      StateOf(current, cur);
      if current.slice == 0 || current.state == ZOMBIE || current.state == BLOCKED {
        SwitchTask();
      }
    }

    /** current_task->time_slice = 0 */
    method DropSlice()
      requires Valid()
      modifies all
      ensures Valid() && cur < |all| && Abs() == SetTask(old(Abs()), cur, old(Abs()).tasks[cur].(slice := 0))
    {
      Parts();
      AbsParts();
      Apart(cur);
      SameTask(current, cur);
      hide Valid, Views;
      current.slice := 0;
      Touched(cur);
    }

    method TaskYield()
      requires Valid() && Inv(Abs()) && Shaped(Abs())
      modifies this, queues, all
      ensures Valid() && all == old(all) && Abs() == Yield(old(Abs()))
    {
      ghost var s := Abs();
      SetTaskInv(s, s.current, s.tasks[s.current].(slice := 0));
      hide Valid, Inv, Schedule;
      DropSlice();
      TaskSchedule();
    }

    /** The current task is marked asleep, still in its ring. */
    method FallAsleep(ticks: uint32)
      requires Valid()
      modifies all
      ensures Valid() && cur < |all| && current == all[cur]
      ensures Abs() == SetTask(old(Abs()), cur,
                               old(Abs()).tasks[cur].(sleepUntil := Wrap32(globalTicks + ticks), state := SLEEPING))
    {
      Parts();
      AbsParts();
      Apart(cur);
      SameTask(current, cur);
      hide Valid, Views;
      current.sleepUntil := Wrap32(globalTicks + ticks);
      current.state := SLEEPING;
      Touched(cur);
    }

    /** task_sleep up to the call of task_schedule. */
    method Doze(ticks: uint32)
      requires Valid() && Shaped(Abs())
      modifies this`rings, queues, all
      ensures Valid() && Abs() == Dozed(old(Abs()), ticks)
    {
      AbsParts();
      hide Valid, Shaped, Without, Views;
      FallAsleep(ticks);
      QueueRemove(current, cur);
      DropSlice();
    }

    method TaskSleep(ticks: uint32)
      requires Valid() && Inv(Abs()) && Shaped(Abs())
      modifies this, queues, all
      ensures Valid() && all == old(all) && Abs() == Sleep(old(Abs()), ticks)
    {
      if ticks == 0 { return; }
      DozedInv(Abs(), ticks);
      DozedShaped(Abs(), ticks);
      hide Valid, Inv, Schedule, Shaped, Abs, Dozed;
      Doze(ticks);
      TaskSchedule();
    }
  }
}
