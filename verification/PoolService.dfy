/** What the pool does for its tasks: which are taken in, when it grows and shrinks, and that
    an idle worker serves the oldest. */
module PoolService {
  import opened TaskQueue
  import opened WorkerPool

  /** A task is refused exactly if the queue is full or there is no memory for it. */
  lemma {:induction false} RefusedExactly(c: Config, q: Queue, task: Task, memory: bool)
    ensures Pushed(c, q, task, memory).1.Full? <==> |q.tasks| >= c.capacity
    ensures Pushed(c, q, task, memory).1.NoMemory? <==> |q.tasks| < c.capacity && !memory
    ensures !Pushed(c, q, task, memory).1.Accepted? ==> Pushed(c, q, task, memory).0 == q
  {
  }

  /** The pool grows exactly if the queue is more than half full with the new task, the pool
      has room, and nobody else makes it grow: by four workers, or by as many as there is room
      for. */
  lemma {:induction false} GrowsExactly(c: Config, q: Queue, task: Task)
    requires |q.tasks| < c.capacity && q.total <= c.maxWorkers
    ensures var (t, r) := Pushed(c, q, task, true);
      && r.Accepted? && t.tasks == q.tasks + [task] && t.active == q.active && t.running == q.running
      && (r.spawn > 0 <==> |q.tasks| + 1 > c.capacity / 2 && q.total < c.maxWorkers && !q.scaling)
      && t.total == q.total + r.spawn <= c.maxWorkers
      && (r.spawn > 0 ==> r.spawn == 4 || (r.spawn < 4 && t.total == c.maxWorkers))
      && (t.scaling <==> q.scaling || r.spawn > 0)
  {
  }

  /** A worker leaves exactly if the pool stops, or if nothing came while it waited and there
      are more workers than the minimum; it takes the oldest task of a running pool. */
  lemma {:induction false} PopsExactly(c: Config, q: Queue, timedOut: bool)
    ensures var (t, r) := Popped(c, q, timedOut);
      && (r.Exit? <==> !q.running || (q.tasks == [] && timedOut && q.total > c.minWorkers))
      && (r.Took? <==> q.running && q.tasks != [])
      && (r.Took? ==> [r.task] + t.tasks == q.tasks && t.active == q.active + 1 && t.total == q.total)
      && (r.Exit? ==> t == q.(total := q.total - 1))
      && (r.Wait? ==> t == q)
  {
  }

  /** A thread that was created waits for a task. */
  lemma {:induction false} CreatedThreadsJoin(c: Config, s: State, step: Step, id: nat)
    requires Enabled(c, s, step) && (step == StartWorker(id, true) || (step.Create? && step.id == id && step.ok))
    ensures id !in s.workers && Apply(c, s, step).workers == s.workers[id := InPop] && Apply(c, s, step).q == s.q
  {
  }

  /** One that was not leaves its reservation to be given back; if it was one of the first, its
      place is never given back. */
  lemma {:induction false} FailedThreadsAreCounted(c: Config, s: State, step: Step)
    requires Enabled(c, s, step) && ((step.StartWorker? && !step.ok) || (step.Create? && !step.ok))
    ensures var t := Apply(c, s, step);
      && t.workers == s.workers && t.q == s.q
      && (if step.StartWorker? then t.leaked == s.leaked + 1 && t.starting == s.starting - 1
          else t.scalers == s.scalers[step.producer := Scaler(s.scalers[step.producer].left - 1, s.scalers[step.producer].failed + 1)])
  {
  }

  /** Any idle worker of a running pool serves the oldest task, and is idle again. */
  lemma {:induction false} IdleWorkerServes(c: Config, s: State, id: nat, timedOut: bool)
    requires id in s.workers && s.workers[id].InPop? && s.q.running && s.q.tasks != []
    ensures Enabled(c, s, Step.Pop(id, timedOut))
    ensures var t := Apply(c, s, Step.Pop(id, timedOut));
      && t.workers == s.workers[id := Busy(s.q.tasks[0])] && t.popped == s.popped + [s.q.tasks[0]]
      && t.q.tasks == s.q.tasks[1..] && Enabled(c, t, Idle(id))
      && Apply(c, t, Idle(id)).workers == s.workers && Apply(c, t, Idle(id)).q.active == s.q.active
  {
    PopsExactly(c, s.q, timedOut);
    var t := Apply(c, s, Step.Pop(id, timedOut));
    assert t.workers[id := InPop] == s.workers;
  }

  /** A pool that may have a worker and a task serves the first task it is given: there is a
      behaviour from its start to there, and its worker is idle again afterwards. */
  lemma {:induction false} FirstTaskIsServed(c: Config, task: Task) returns (run: seq<State>, steps: seq<Step>)
    requires c.minWorkers > 0 && c.capacity > 0
    ensures Behaviour(c, run, steps)
    ensures var s := run[|steps|];
      s.popped == [task] && s.accepted == [task] && s.q.tasks == [] && s.q.active == 0 && 0 in s.workers && s.workers[0] == InPop
  {
    steps := [StartWorker(0, true), Step.Push(0, task, true), Step.Pop(0, false), Idle(0)];
    var a := Init(c);
    var b := Apply(c, a, steps[0]);
    var d := Apply(c, b, steps[1]);
    var e := Apply(c, d, steps[2]);
    run := [a, b, d, e, Apply(c, e, steps[3])];
  }
}
