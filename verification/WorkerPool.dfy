/** The elastic worker pool over the task queue: every interleaving of producers, workers,
    the threads that upscale after releasing the mutex, and shutdown. */
module WorkerPool {
  import opened TaskQueue

  datatype WorkerPc = InPop | Busy(task: Task)

  /** A producer that reserved workers and creates their threads outside the mutex. */
  datatype Scaler = Scaler(left: nat, failed: nat)

  datatype State = State(
    q: Queue,
    workers: map<nat, WorkerPc>,   // live threads
    scalers: map<nat, Scaler>,     // producers past the mutex, not yet done upscaling
    starting: nat,                 // initial threads still to be created
    leaked: nat,                   // initial threads that could not be created
    lost: nat,                     // reservations given back so far
    accepted: seq<Task>, popped: seq<Task>, drained: seq<Task>,
    stopped: bool)                 // shutdown returned

  datatype Step =
    | StartWorker(id: nat, ok: bool)
    | Push(producer: nat, task: Task, memory: bool)
    | Create(producer: nat, id: nat, ok: bool)
    | GiveBack(producer: nat)
    | EndScaling(producer: nat)
    | Pop(id: nat, timedOut: bool)
    | Idle(id: nat)
    | RequestStop
    | Stop

  ghost predicate Enabled(c: Config, s: State, step: Step) {
    match step
    case StartWorker(id, _) => s.starting > 0 && id !in s.workers
    case Push(p, _, _) => p !in s.scalers
    case Create(p, id, _) => p in s.scalers && s.scalers[p].left > 0 && id !in s.workers
    case GiveBack(p) => p in s.scalers && s.scalers[p].left == 0 && s.scalers[p].failed > 0
    case EndScaling(p) => p in s.scalers && s.scalers[p] == Scaler(0, 0)
    case Pop(id, _) => id in s.workers && s.workers[id].InPop?
    case Idle(id) => id in s.workers && s.workers[id].Busy?
    case RequestStop => true
    case Stop => !s.q.running && s.q.total <= 0 && !s.stopped
  }

  ghost function Apply(c: Config, s: State, step: Step): State
    requires Enabled(c, s, step)
  {
    match step
    case StartWorker(id, ok) =>
      if ok then s.(starting := s.starting - 1, workers := s.workers[id := InPop])
      else s.(starting := s.starting - 1, leaked := s.leaked + 1)
    case Push(p, task, memory) =>
      var (q, r) := Pushed(c, s.q, task, memory);
      if !r.Accepted? then s.(q := q)
      else
        var s' := s.(q := q, accepted := s.accepted + [task]);
        if r.spawn == 0 then s' else s'.(scalers := s.scalers[p := Scaler(r.spawn, 0)])
    case Create(p, id, ok) =>
      var k := s.scalers[p];
      if ok then
        s.(scalers := s.scalers[p := k.(left := k.left - 1)], workers := s.workers[id := InPop])
      else
        s.(scalers := s.scalers[p := Scaler(k.left - 1, k.failed + 1)])
    case GiveBack(p) =>
      var k := s.scalers[p];
      s.(q := s.q.(total := s.q.total - k.failed), scalers := s.scalers[p := k.(failed := 0)],
         lost := s.lost + k.failed)
    case EndScaling(p) => s.(q := s.q.(scaling := false), scalers := s.scalers - {p})
    case Pop(id, timedOut) =>
      var (q, r) := Popped(c, s.q, timedOut);
      (match r
       case Wait => s.(q := q)
       case Exit => s.(q := q, workers := s.workers - {id})
       case Took(task) => s.(q := q, workers := s.workers[id := Busy(task)], popped := s.popped + [task]))
    case Idle(id) => s.(q := s.q.(active := s.q.active - 1), workers := s.workers[id := InPop])
    case RequestStop => s.(q := s.q.(running := false))
    case Stop => s.(q := s.q.(tasks := []), drained := s.drained + s.q.tasks, stopped := true)
  }

  ghost function Init(c: Config): State {
    State(Start(c), map[], map[], c.minWorkers, 0, 0, [], [], [], false)
  }

  ghost predicate Behaviour(c: Config, run: seq<State>, steps: seq<Step>) {
    && |run| == |steps| + 1 && run[0] == Init(c)
    && forall i :: 0 <= i < |steps| ==>
      Enabled(c, run[i], steps[i]) && run[i + 1] == Apply(c, run[i], steps[i])
  }

  // ----- What every step keeps

  ghost function BusyWorkers(workers: map<nat, WorkerPc>): set<nat> {
    set w | w in workers && workers[w].Busy?
  }

  /** Reservations that have no thread yet; at most one producer is upscaling. */
  ghost function Reserved(scalers: map<nat, Scaler>): nat {
    if scalers == map[] then 0
    else
      var p :| p in scalers;
      scalers[p].left + scalers[p].failed
  }

  ghost predicate OneScaler(s: State) {
    && (forall p, q :: p in s.scalers && q in s.scalers ==> p == q)
    && (s.q.scaling <==> s.scalers != map[])
  }

  ghost predicate Accounted(c: Config, s: State) {
    && OneScaler(s)
    && s.q.total == |s.workers| + s.starting + s.leaked + Reserved(s.scalers)
    && s.q.total <= c.maxWorkers
    && s.q.active == |BusyWorkers(s.workers)|
    && (s.q.running ==> s.q.total + s.lost >= c.minWorkers)
  }

  ghost predicate Conserved(c: Config, s: State) {
    && s.accepted == s.popped + s.drained + s.q.tasks
    && |s.q.tasks| <= c.capacity
    && (s.q.running ==> s.drained == [])
    && (s.stopped ==> !s.q.running)
  }

  lemma {:induction false} ReservedBy(scalers: map<nat, Scaler>, p: nat, k: Scaler)
    requires forall q :: q in scalers ==> q == p
    ensures Reserved(scalers[p := k]) == k.left + k.failed
    ensures p in scalers ==> Reserved(scalers) == scalers[p].left + scalers[p].failed
    ensures Reserved(scalers - {p}) == 0
  {
    assert p in scalers[p := k];
  }

  lemma {:induction false} BusyAfter(workers: map<nat, WorkerPc>, id: nat, pc: WorkerPc)
    ensures |BusyWorkers(workers[id := pc])| ==
      |BusyWorkers(workers)| - (if id in workers && workers[id].Busy? then 1 else 0) + (if pc.Busy? then 1 else 0)
  {
    var before, after := BusyWorkers(workers), BusyWorkers(workers[id := pc]);
    assert id in after <==> pc.Busy?;
    forall w | w != id ensures w in after <==> w in before {
    }
    assert after - {id} == before - {id};
    assert |after - {id}| == |after| - (if id in after then 1 else 0);
    assert |before - {id}| == |before| - (if id in before then 1 else 0);
  }

  lemma {:induction false} WithoutIdleWorker(workers: map<nat, WorkerPc>, id: nat)
    requires id in workers && !workers[id].Busy?
    ensures BusyWorkers(workers - {id}) == BusyWorkers(workers)
    ensures |workers - {id}| == |workers| - 1
  {
    assert (workers - {id}).Keys == workers.Keys - {id};
    assert |(workers - {id}).Keys| == |workers.Keys| - 1;
  }

  lemma {:induction false} WithWorker(workers: map<nat, WorkerPc>, id: nat, pc: WorkerPc)
    ensures |workers[id := pc]| == |workers| + (if id in workers then 0 else 1)
  {
    assert workers[id := pc].Keys == workers.Keys + {id};
  }

  /** A push changes the worker counters only by what it reserves, within the maximum. */
  lemma {:induction false} PushReserves(c: Config, q: Queue, task: Task, memory: bool)
    ensures var (q', r) := Pushed(c, q, task, memory);
      var n := if r.Accepted? then r.spawn else 0;
      && q'.active == q.active && q'.running == q.running && q'.total == q.total + n
      && (n > 0 ==> !q.scaling && q'.scaling && q'.total <= c.maxWorkers) && (n == 0 ==> q'.scaling == q.scaling)
  {
  }

  lemma {:induction false} PushKeepsAccounts(c: Config, s: State, p: nat, task: Task, memory: bool)
    requires Accounted(c, s) && Enabled(c, s, Push(p, task, memory))
    ensures Accounted(c, Apply(c, s, Push(p, task, memory)))
  {
    PushReserves(c, s.q, task, memory);
    var r := Pushed(c, s.q, task, memory).1;
    if r.Accepted? && r.spawn > 0 {
      ReservedBy(s.scalers, p, Scaler(r.spawn, 0));
    }
  }

  lemma {:induction false} GiveBackKeepsAccounts(c: Config, s: State, p: nat)
    requires Accounted(c, s) && Enabled(c, s, GiveBack(p))
    ensures Accounted(c, Apply(c, s, GiveBack(p)))
  {
    ReservedBy(s.scalers, p, Apply(c, s, GiveBack(p)).scalers[p]);
  }

  lemma {:induction false} EndScalingKeepsAccounts(c: Config, s: State, p: nat)
    requires Accounted(c, s) && Enabled(c, s, EndScaling(p))
    ensures Accounted(c, Apply(c, s, EndScaling(p)))
  {
    ReservedBy(s.scalers, p, s.scalers[p]);
  }

  lemma {:induction false} CreateKeepsAccounts(c: Config, s: State, p: nat, id: nat, ok: bool)
    requires Accounted(c, s) && Enabled(c, s, Create(p, id, ok))
    ensures Accounted(c, Apply(c, s, Create(p, id, ok)))
  {
    ReservedBy(s.scalers, p, Apply(c, s, Create(p, id, ok)).scalers[p]);
    WithWorker(s.workers, id, InPop);
    BusyAfter(s.workers, id, InPop);
  }

  lemma {:induction false} PopKeepsAccounts(c: Config, s: State, id: nat, timedOut: bool)
    requires Accounted(c, s) && Enabled(c, s, Pop(id, timedOut))
    ensures Accounted(c, Apply(c, s, Pop(id, timedOut)))
  {
    var r := Popped(c, s.q, timedOut).1;
    match r
    case Wait =>
    case Exit => WithoutIdleWorker(s.workers, id);
    case Took(task) =>
      WithWorker(s.workers, id, Busy(task));
      BusyAfter(s.workers, id, Busy(task));
  }

  lemma {:induction false} StepKeepsAccounts(c: Config, s: State, step: Step)
    requires c.minWorkers <= c.maxWorkers && Accounted(c, s) && Enabled(c, s, step)
    ensures Accounted(c, Apply(c, s, step))
  {
    match step
    case StartWorker(id, ok) =>
      WithWorker(s.workers, id, InPop);
      BusyAfter(s.workers, id, InPop);
    case Create(p, id, ok) => CreateKeepsAccounts(c, s, p, id, ok);
    case Pop(id, timedOut) => PopKeepsAccounts(c, s, id, timedOut);
    case Idle(id) =>
      WithWorker(s.workers, id, InPop);
      BusyAfter(s.workers, id, InPop);
    case RequestStop =>
    case Stop =>
    case GiveBack(p) => GiveBackKeepsAccounts(c, s, p);
    case EndScaling(p) => EndScalingKeepsAccounts(c, s, p);
    case Push(p, task, memory) => PushKeepsAccounts(c, s, p, task, memory);
  }

  lemma {:induction false} StepKeepsTasks(c: Config, s: State, step: Step)
    requires Conserved(c, s) && Enabled(c, s, step)
    ensures Conserved(c, Apply(c, s, step))
  {
  }

  /** In every interleaving: total_workers is the live workers plus the reservations not
      yet spawned (plus the initial threads that never came up), never above the maximum;
      active_workers counts the workers between pop and idle; and every accepted task is,
      in order, popped once, drained at stop, or still queued. */
  lemma {:induction false} BehavioursKeepAccounts(c: Config, run: seq<State>, steps: seq<Step>, n: nat)
    requires c.minWorkers <= c.maxWorkers && Behaviour(c, run, steps) && n <= |steps|
    ensures Accounted(c, run[n]) && Conserved(c, run[n])
  {
    if n > 0 {
      BehavioursKeepAccounts(c, run, steps, n - 1);
      StepKeepsAccounts(c, run[n - 1], steps[n - 1]);
      StepKeepsTasks(c, run[n - 1], steps[n - 1]);
    }
  }

  /** Shutdown returns only when no worker is live or about to be, and only if every
      initial thread came up; from then on nothing is ever popped again. */
  lemma {:induction false} StopFindsNoWorker(c: Config, s: State)
    requires Accounted(c, s) && Enabled(c, s, Stop)
    ensures s.workers == map[] && Reserved(s.scalers) == 0 && s.starting == 0 && s.leaked == 0
  {
    assert |s.workers| == 0;
  }

  lemma {:induction false} NothingPoppedAfterStopRequest(c: Config, s: State, step: Step)
    requires Enabled(c, s, step) && !s.q.running
    ensures Apply(c, s, step).popped == s.popped && !Apply(c, s, step).q.running
  {
  }

  // ----- The minimum

  /** The threads there are or will be, if every creation still to come succeeds. */
  ghost function Held(s: State): nat {
    |s.workers| + s.starting + Reserved(s.scalers)
  }

  lemma {:induction false} HeldIsCounted(c: Config, s: State)
    requires Accounted(c, s)
    ensures Held(s) == s.q.total - s.leaked
  {
  }

  /** The three steps that take a running pool below its minimum: giving back failed
      reservations that the minimum needs, failing to create an initial thread it needs, and
      a timeout judged by a total that counts initial threads which never came up. */
  predicate LosesMinimum(c: Config, s: State, step: Step) {
    s.q.running &&
    match step
    case GiveBack(p) => p in s.scalers && s.q.total - s.leaked - s.scalers[p].failed < c.minWorkers
    case StartWorker(_, ok) => !ok && s.q.total - s.leaked == c.minWorkers
    case Pop(_, timedOut) => timedOut && s.q.tasks == [] && s.q.total > c.minWorkers
      && s.q.total - s.leaked == c.minWorkers
    case _ => false
  }

  /** A step takes a running pool from its minimum or more to less exactly if it is one of
      those three. */
  lemma {:induction false} StepKeepsMinimum(c: Config, s: State, step: Step)
    requires c.minWorkers <= c.maxWorkers && Accounted(c, s) && Enabled(c, s, step) && !step.RequestStop?
    requires s.q.running && Held(s) >= c.minWorkers
    ensures Apply(c, s, step).q.running
    ensures Held(Apply(c, s, step)) >= c.minWorkers <==> !LosesMinimum(c, s, step)
  {
    hide Accounted, Held, Reserved, BusyWorkers, OneScaler;
    StepKeepsAccounts(c, s, step);
    HeldIsCounted(c, s);
    HeldIsCounted(c, Apply(c, s, step));
    if step.Push? {
      PushReserves(c, s.q, step.task, step.memory);
    }
  }

  ghost predicate AtMinimum(c: Config, s: State) {
    s.q.running ==> Held(s) >= c.minWorkers
  }

  lemma {:induction false} StopsRunning(c: Config, s: State, step: Step)
    requires Enabled(c, s, step) && (step.RequestStop? || !s.q.running)
    ensures !Apply(c, s, step).q.running && !LosesMinimum(c, s, step)
  {
    if !step.RequestStop? {
      NothingPoppedAfterStopRequest(c, s, step);
    }
  }

  /** Over any run the pool has its minimum for as long as it runs exactly if no step loses
      it; that is so in particular while no creation has failed. */
  lemma {:induction false} MinimumHolds(c: Config, run: seq<State>, steps: seq<Step>, n: nat)
    requires c.minWorkers <= c.maxWorkers && Behaviour(c, run, steps) && n <= |steps|
    ensures (forall m :: 0 <= m <= n ==> AtMinimum(c, run[m])) <==> forall i :: 0 <= i < n ==> !LosesMinimum(c, run[i], steps[i])
    ensures run[n].lost == 0 && run[n].leaked == 0 ==> AtMinimum(c, run[n])
  {
    BehavioursKeepAccounts(c, run, steps, n);
    if n == 0 {
      assert Reserved(map[]) == 0;
    } else {
      var s, step := run[n - 1], steps[n - 1];
      MinimumHolds(c, run, steps, n - 1);
      BehavioursKeepAccounts(c, run, steps, n - 1);
      if step.RequestStop? || !s.q.running {
        StopsRunning(c, s, step);
      } else if AtMinimum(c, s) {
        StepKeepsMinimum(c, s, step);
      }
    }
  }

  lemma {:induction false} Extend(c: Config, run: seq<State>, steps: seq<Step>, step: Step)
    returns (run': seq<State>, steps': seq<Step>)
    requires Behaviour(c, run, steps) && Enabled(c, run[|steps|], step)
    ensures Behaviour(c, run', steps') && |steps'| == |steps| + 1
    ensures run'[|steps'|] == Apply(c, run[|steps|], step)
  {
    run', steps' := run + [Apply(c, run[|steps|], step)], steps + [step];
  }

  /** A run that loses it: a worker times out against a reservation whose thread then fails
      to start. */
  lemma {:induction false} MinimumCanBeLost() returns (run: seq<State>, steps: seq<Step>)
    ensures Behaviour(Config(1, 1, 2), run, steps)
    ensures run[|steps|].q.running && run[|steps|].q.total == 0
    ensures run[|steps|].workers == map[] && run[|steps|].starting == 0
  {
    var c := Config(1, 1, 2);
    run, steps := [Init(c)], [];
    run, steps := Extend(c, run, steps, StartWorker(0, true));
    run, steps := Extend(c, run, steps, Push(9, 5, true));
    assert run[2].scalers == map[9 := Scaler(1, 0)] && run[2].q == Queue([5], 0, 2, true, true);
    run, steps := Extend(c, run, steps, Pop(0, false));
    run, steps := Extend(c, run, steps, Idle(0));
    assert run[4].workers == map[0 := InPop] && run[4].q == Queue([], 0, 2, true, true);
    run, steps := Extend(c, run, steps, Pop(0, true));
    assert run[5].workers == map[] && run[5].q.total == 1;
    run, steps := Extend(c, run, steps, Create(9, 1, false));
    run, steps := Extend(c, run, steps, GiveBack(9));
  }
}
