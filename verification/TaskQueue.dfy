/** The bounded task queue of the thread pool: a linked list with head and tail, and the
    worker accounting changed under the same mutex. Each method here is one critical
    section of the code; WorkerPool interleaves them. */
module TaskQueue {

  type Task = nat

  datatype Config = Config(capacity: nat, minWorkers: nat, maxWorkers: nat)

  /** What the mutex protects. */
  datatype Queue = Queue(tasks: seq<Task>, active: int, total: int, scaling: bool, running: bool)

  datatype PushResult = Full | NoMemory | Accepted(spawn: nat)

  datatype PopResult = Wait | Exit | Took(task: Task)

  function Start(c: Config): Queue {
    Queue([], 0, c.minWorkers, false, true)
  }

  /** How many workers a push reserves once the new task is queued. */
  function SpawnCount(c: Config, q: Queue): nat {
    if |q.tasks| > c.capacity / 2 && q.total < c.maxWorkers && !q.scaling then
      if c.maxWorkers - q.total < 4 then c.maxWorkers - q.total else 4
    else
      0
  }

  function Pushed(c: Config, q: Queue, task: Task, memory: bool): (Queue, PushResult) {
    if |q.tasks| >= c.capacity then (q, Full)
    else if !memory then (q, NoMemory)
    else
      var q' := q.(tasks := q.tasks + [task]);
      var n := SpawnCount(c, q');
      (if n == 0 then q' else q'.(total := q.total + n, scaling := true), Accepted(n))
  }

  /** One pass of a worker that holds the mutex, on entry or woken up. */
  function Popped(c: Config, q: Queue, timedOut: bool): (Queue, PopResult) {
    if !q.running then (q.(total := q.total - 1), Exit)
    else if q.tasks != [] then (q.(tasks := q.tasks[1..], active := q.active + 1), Took(q.tasks[0]))
    else if timedOut && q.total > c.minWorkers then (q.(total := q.total - 1), Exit)
    else (q, Wait)
  }

  class Node {
    const task: Task
    var next: Node?

    constructor (task: Task)
      ensures this.task == task && next == null
    {
      this.task := task;
      next := null;
    }
  }

  ghost function TasksOf(nodes: seq<Node>): (tasks: seq<Task>)
    ensures |tasks| == |nodes|
    ensures forall i :: 0 <= i < |nodes| ==> tasks[i] == nodes[i].task
  {
    if nodes == [] then [] else [nodes[0].task] + TasksOf(nodes[1..])
  }

  class LockedQueue {
    const config: Config
    var head: Node?
    var tail: Node?
    var count: nat
    var activeWorkers: int
    var totalWorkers: int
    var scaling: bool
    var running: bool
    ghost var nodes: seq<Node>

    ghost predicate Valid()
      reads this, nodes
    {
      && count == |nodes|
      && (nodes == [] ==> head == null && tail == null)
      && (nodes != [] ==> head == nodes[0] && tail == nodes[|nodes| - 1])
      && (forall i :: 0 <= i < |nodes| - 1 ==> nodes[i].next == nodes[i + 1])
      && (nodes != [] ==> nodes[|nodes| - 1].next == null)
      && (forall i, j :: 0 <= i < j < |nodes| ==> nodes[i] != nodes[j])
    }

    ghost function View(): (q: Queue)
      reads this, nodes
    {
      Queue(TasksOf(nodes), activeWorkers, totalWorkers, scaling, running)
    }

    constructor (config: Config)
      ensures Valid() && this.config == config && View() == Start(config)
    {
      this.config := config;
      head, tail, count := null, null, 0;
      activeWorkers, totalWorkers := 0, config.minWorkers;
      scaling, running := false, true;
      nodes := [];
    }

    method Push(task: Task, memory: bool) returns (result: PushResult)
      requires Valid()
      modifies this, nodes
      ensures Valid()
      ensures (View(), result) == Pushed(config, old(View()), task, memory)
    {
      if count >= config.capacity {
        return Full;
      }
      if !memory {
        return NoMemory;
      }
      Append(task);
      var spawn := 0;
      if count > config.capacity / 2 && totalWorkers < config.maxWorkers && !scaling {
        var available := config.maxWorkers - totalWorkers;
        spawn := if available < 4 then available else 4;
        totalWorkers := totalWorkers + spawn;
        scaling := true;
      }
      return Accepted(spawn);
    }

    /** A new node at the tail. */
    method Append(task: Task)
      requires Valid()
      modifies `head, `tail, `nodes, `count, nodes
      ensures Valid() && count == old(count) + 1
      ensures View() == old(View()).(tasks := old(View()).tasks + [task])
    {
      var node := new Node(task);
      if tail == null {
        head, tail := node, node;
      } else {
        tail.next := node;
        tail := node;
      }
      nodes := nodes + [node];
      count := count + 1;
      assert View().tasks == old(View()).tasks + [task];
    }

    /** The reservations whose threads could not be created. */
    method GiveBack(failed: nat)
      requires Valid()
      modifies `totalWorkers
      ensures Valid() && View() == old(View()).(total := old(View()).total - failed)
    {
      totalWorkers := totalWorkers - failed;
    }

    method EndScaling()
      requires Valid()
      modifies `scaling
      ensures Valid() && View() == old(View()).(scaling := false)
    {
      scaling := false;
    }

    method Pop(timedOut: bool) returns (result: PopResult)
      requires Valid()
      modifies this
      ensures Valid()
      ensures (View(), result) == Popped(config, old(View()), timedOut)
    {
      if head == null {
        if !running {
          totalWorkers := totalWorkers - 1;
          return Exit;
        }
        if timedOut && totalWorkers > config.minWorkers {
          totalWorkers := totalWorkers - 1;
          return Exit;
        }
        return Wait;
      }
      if !running {
        totalWorkers := totalWorkers - 1;
        return Exit;
      }
      var task := head.task;
      head := head.next;
      if head == null {
        tail := null;
      }
      count := count - 1;
      nodes := nodes[1..];
      activeWorkers := activeWorkers + 1;
      assert View().tasks == old(View()).tasks[1..];
      return Took(task);
    }

    method MarkIdle()
      requires Valid()
      modifies `activeWorkers
      ensures Valid() && View() == old(View()).(active := old(View()).active - 1)
    {
      activeWorkers := activeWorkers - 1;
    }

    method RequestStop()
      requires Valid()
      modifies `running
      ensures Valid() && View() == old(View()).(running := false)
    {
      running := false;
    }

    /** The queue is emptied once no worker is left; every remaining task is handed to the
        caller, in order, to be closed. */
    method Drain() returns (rest: seq<Task>)
      requires Valid()
      modifies this
      ensures Valid() && View() == old(View()).(tasks := []) && rest == old(View()).tasks
    {
      var curr := head;
      ghost var all := nodes;
      head, tail, count := null, null, 0;
      nodes := [];
      rest := [];
      ghost var i := 0;
      while curr != null
        invariant 0 <= i <= |all|
        invariant if i < |all| then curr == all[i] else curr == null
        invariant rest == old(View()).tasks[..i]
        invariant Valid() && View() == old(View()).(tasks := [])
        decreases |all| - i
      {
        rest := rest + [curr.task];
        curr := curr.next;
        i := i + 1;
      }
    }
  }
}
