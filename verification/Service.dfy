/** That connections are served: what is accepted is armed, what is ready is queued, what is
    queued is dispatched, what is rearmed can be ready again, and nobody is stuck for ever. */
module Service {
  import opened ConnTable
  import opened Options
  import opened Ownership

  // ----- Who is refused

  /** Only the loop refuses, and only a lifetime whose number is a multiple of 2^32. */
  ghost predicate RefusesOnlyWraps(s: State)
    requires WellFormed(s)
  {
    forall t :: t in s.threads && s.threads[t].stage.Refused? ==>
      t == Loop && s.lives[s.threads[t].event.fd] % 0x1_0000_0000 == 0
  }

  lemma {:induction false} ActivationRefusesWraps(s: State)
    requires WellFormed(s) && LoopEnabled(s, Activate) && GenerationsAgree(s)
    ensures var s', fd := LoopApply(s, Activate), At(s, Loop).event.fd;
      && s'.threads == s.threads[Loop := Pc(if (s.lives[fd] + 1) % 0x1_0000_0000 == 0 then Refused else Activated, At(s, Loop).event)]
      && s'.lives == s.lives[fd := s.lives[fd] + 1] && s'.locks == s.locks[fd := None]
      && s'.slots == s.slots[fd := Slot((s.lives[fd] + 1) % 0x1_0000_0000, true, ConnState.Reading)]
  {
    var fd := At(s, Loop).event.fd;
    assert AfterLives(s.slots[fd], s.lives[fd]);
    LivesAreCounted(s.slots[fd], s.lives[fd]);
  }

  lemma {:induction false} LoopRefusesOnlyWraps(s: State, l: LoopStep)
    requires WellFormed(s) && GenerationsAgree(s) && RefusesOnlyWraps(s) && LoopEnabled(s, l)
    requires WellFormed(LoopApply(s, l))
    ensures RefusesOnlyWraps(LoopApply(s, l))
  {
    hide GenerationsAgree;
    if l == Activate {
      ActivationRefusesWraps(s);
    }
  }

  lemma {:induction false} OthersRefuseNothing(s: State, step: Step)
    requires WellFormed(s) && RefusesOnlyWraps(s) && Enabled(s, step) && !step.InLoop?
    requires WellFormed(Apply(s, step))
    ensures RefusesOnlyWraps(Apply(s, step))
  {
  }

  lemma {:induction false} StepRefusesOnlyWraps(s: State, step: Step)
    requires Exclusion(s) && RefusesOnlyWraps(s) && Enabled(s, step)
    ensures WellFormed(Apply(s, step)) && RefusesOnlyWraps(Apply(s, step))
  {
    hide RefusesOnlyWraps, GenerationsAgree, LocksAgree, DispatchesOnLiveSlot, LoopApply, WorkerApply, CleanupApply;
    hide LoopEnabled, WorkerEnabled, CleanupEnabled;
    StepKeepsExclusion(s, step);
    if step.InLoop? {
      LoopRefusesOnlyWraps(s, step.l);
    } else {
      OthersRefuseNothing(s, step);
    }
  }

  /** In every behaviour, outside closes included, a connection that is refused is one in
      2^32 of its descriptor. */
  lemma {:induction false} BehavioursRefuseOnlyWraps(run: seq<State>, steps: seq<Step>, n: nat)
    requires Behaviour(run, steps) && n <= |steps|
    ensures WellFormed(run[n]) && RefusesOnlyWraps(run[n])
  {
    if n > 0 {
      BehavioursKeepExclusion(run, steps, n - 1);
      BehavioursRefuseOnlyWraps(run, steps, n - 1);
      StepRefusesOnlyWraps(run[n - 1], steps[n - 1]);
    }
  }

  // ----- The way of a connection

  /** The steps, each taken in the state the one before has led to. */
  ghost predicate Path(run: seq<State>, steps: seq<Step>) {
    && |run| == |steps| + 1
    && forall i :: 0 <= i < |steps| ==>
      WellFormed(run[i]) && Enabled(run[i], steps[i]) && run[i + 1] == Apply(run[i], steps[i])
  }

  ghost function Last(run: seq<State>): State
    requires run != []
  {
    run[|run| - 1]
  }

  lemma {:induction false} Extend(run: seq<State>, steps: seq<Step>, step: Step) returns (run': seq<State>, steps': seq<Step>)
    requires Path(run, steps) && WellFormed(Last(run)) && Enabled(Last(run), step)
    ensures run' == run + [Apply(Last(run), step)] && steps' == steps + [step] && Path(run', steps')
    ensures Last(run') == Apply(Last(run), step)
  {
    run', steps' := run + [Apply(Last(run), step)], steps + [step];
  }

  lemma {:induction false} LockedForActivate(s: State) returns (a: State)
    requires Exclusion(s) && At(s, Loop).stage.Counted? && s.locks[At(s, Loop).event.fd].None?
    ensures LoopEnabled(s, LockForActivate) && a == LoopApply(s, LockForActivate)
    ensures WellFormed(a) && GenerationsAgree(a) && LoopEnabled(a, Activate)
    ensures a == s.(locks := s.locks[At(s, Loop).event.fd := Some(Loop)], threads := s.threads[Loop := Pc(Activating, At(s, Loop).event)])
  {
    a := LoopApply(s, LockForActivate);
    LoopStaysWellFormed(s, LockForActivate);
    LoopKeepsGenerations(s, LockForActivate);
  }

  /** A counted connection is activated and armed, unless its lifetime is one in 2^32: the loop
      can take these three steps as soon as the slot is not locked. */
  lemma {:induction false} CountedIsArmed(s: State) returns (run: seq<State>)
    requires Exclusion(s) && At(s, Loop).stage.Counted?
    requires var fd := At(s, Loop).event.fd;
      s.locks[fd].None? && (s.lives[fd] + 1) % 0x1_0000_0000 != 0
    ensures Path(run, [InLoop(LockForActivate), InLoop(Activate), InLoop(Add(true))]) && |run| == 4 && run[0] == s
    ensures var fd := At(s, Loop).event.fd;
      run[3] == s.(
        slots := s.slots[fd := Slot((s.lives[fd] + 1) % 0x1_0000_0000, true, ConnState.Reading)],
        lives := s.lives[fd := s.lives[fd] + 1], registered := s.registered + {fd}, armed := s.armed + {fd},
        threads := s.threads[Loop := Pc(Idle, At(s, Loop).event)])
  {
    var fd := At(s, Loop).event.fd;
    var a := LockedForActivate(s);
    var b := LoopApply(a, Activate);
    ActivationRefusesWraps(a);
    LoopStaysWellFormed(a, Activate);
    hide GenerationsAgree, LocksAgree, DispatchesOnLiveSlot;
    var c := LoopApply(b, Add(true));
    run := [s, a, b, c];
    assert c.locks == s.locks;
  }

  /** A ready connection that has not hung up is queued with the generation of its slot: the
      loop takes it, and the push is accepted. */
  lemma {:induction false} ReadyIsQueued(s: State) returns (run: seq<State>)
    requires Exclusion(s) && At(s, Loop).stage.Idle? && s.next < |s.batch| && !s.batch[s.next].hup
    requires s.slots[s.batch[s.next].fd].active
    ensures Path(run, [InLoop(Take), InLoop(Push(true))]) && |run| == 3 && run[0] == s
    ensures var fd := s.batch[s.next].fd;
      var e := Event(fd, s.slots[fd].generation, s.lives[fd]);
      run[2] == s.(tasks := s.tasks + [e], next := s.next + 1, threads := s.threads[Loop := Pc(Idle, e)])
  {
    var a := LoopApply(s, Take);
    LoopStaysWellFormed(s, Take);
    run := [s, a, LoopApply(a, Push(true))];
  }

  /** The loop starts a cleanup only after a hang-up, a refused push or a failed add; a worker
      only after the dispatch has finished with the connection. */
  lemma {:induction false} CleanupHasCause(s: State, step: Step, t: Tid)
    requires WellFormed(s) && Enabled(s, step)
    requires !At(s, t).stage.Dropping? && At(Apply(s, step), t).stage.Dropping?
    ensures t == Loop ==>
      || (step == InLoop(Take) && s.batch[s.next].hup)
      || step == InLoop(Push(false)) || step == InLoop(Add(false))
    ensures t.Worker? ==> step == InWorker(t.id, Finish) && At(s, t).stage.Dispatching?
  {
  }

  /** With closes by the server alone no task is dropped: both tests of a worker succeed, and
      a worker that has popped a task dispatches it as soon as the slot is not locked. */
  lemma {:induction false} TestsSucceed(s: State, t: Tid)
    requires Ownership.Ownership(s) && t.Worker?
    ensures At(s, t).stage.Popped? ==> At(WorkerApply(s, t, Check), t) == Pc(Checked, At(s, t).event)
    ensures At(s, t).stage.Locked? ==> At(WorkerApply(s, t, Recheck), t) == Pc(Dispatching, At(s, t).event)
  {
    OwnershipConsequences(s, 0, 0, t);
  }

  lemma {:induction false} WellFormedOwnership(s: State)
    requires Ownership.Ownership(s)
    ensures WellFormed(s)
  {
  }

  lemma {:induction false} PoppedIsDispatched(s: State, id: nat) returns (run: seq<State>)
    requires Ownership.Ownership(s) && At(s, Worker(id)).stage.Popped? && s.locks[At(s, Worker(id)).event.fd].None?
    ensures Path(run, [InWorker(id, Check), InWorker(id, Lock), InWorker(id, Recheck)]) && |run| == 4 && run[0] == s
    ensures var e := At(s, Worker(id)).event;
      run[3] == s.(locks := s.locks[e.fd := Some(Worker(id))], threads := s.threads[Worker(id) := Pc(Dispatching, e)])
  {
    var t := Worker(id);
    hide Owned, CountExact, Ledger, LoopApply, CleanupApply;
    WellFormedOwnership(s);
    TestsSucceed(s, t);
    var a := WorkerApply(s, t, Check);
    StepKeepsOwnership(s, InWorker(id, Check));
    WellFormedOwnership(a);
    var b := WorkerApply(a, t, Lock);
    StepKeepsOwnership(a, InWorker(id, Lock));
    WellFormedOwnership(b);
    TestsSucceed(b, t);
    run := [s, a, b, WorkerApply(b, t, Recheck)];
  }

  /** A connection that a worker keeps is armed again. */
  lemma {:induction false} KeptIsArmed(s: State, id: nat)
    requires Ownership.Ownership(s) && At(s, Worker(id)).stage.Dispatching?
    ensures Enabled(s, InWorker(id, Rearm))
    ensures At(s, Worker(id)).event.fd in Apply(s, InWorker(id, Rearm)).armed
  {
    var t := Worker(id);
    assert Holds(s, InThread(t), s.threads[t].event.fd) && Backed(s, InThread(t), s.threads[t].event.fd);
  }

  // ----- Nobody is stuck

  /** The thread waits for the lock of its slot. */
  predicate Waits(pc: Pc) {
    pc.stage.Counted? || pc.stage.Checked? || pc.stage.Awaiting?
  }

  function IdOf(t: Tid): nat {
    if t.Worker? then t.id else 0
  }

  /** What a busy thread does next, once it need not wait. */
  function NextStep(t: Tid, pc: Pc): Step {
    match pc.stage
    case Accepted => InLoop(Count)
    case Counted => InLoop(LockForActivate)
    case Activating => InLoop(Activate)
    case Activated => InLoop(Add(true))
    case Refused => InLoop(Refuse)
    case Pushing => InLoop(Push(true))
    case Popped => InWorker(IdOf(t), Check)
    case Checked => InWorker(IdOf(t), Lock)
    case Locked => InWorker(IdOf(t), Recheck)
    case Dispatching => InWorker(IdOf(t), Rearm)
    case Rearmed => InWorker(IdOf(t), Unlock)
    case Dropping => InCleanup(t, Uncount)
    case Detaching => InCleanup(t, Detach)
    case Awaiting => InCleanup(t, LockForCleanup)
    case Killing => InCleanup(t, Kill)
    case Shutting => InCleanup(t, Close)
    case Shut => InCleanup(t, Release)
    case Idle => if t == Loop then InLoop(Wake([])) else InWorker(IdOf(t), Pop)
  }

  /** Threads are only ever at stages of their own. */
  ghost predicate AtOwnStages(s: State) {
    forall t :: t in s.threads ==>
      var stage := s.threads[t].stage;
      && (stage.Accepted? || stage.Counted? || stage.Activating? || stage.Activated? || stage.Refused? || stage.Pushing? ==> t == Loop)
      && (stage.Popped? || stage.Checked? || stage.Locked? || stage.Dispatching? || stage.Rearmed? ==> t.Worker?)
  }

  lemma {:induction false} LoopKeepsStages(s: State, l: LoopStep)
    requires WellFormed(s) && AtOwnStages(s) && LoopEnabled(s, l)
    ensures AtOwnStages(LoopApply(s, l))
  {
  }

  lemma {:induction false} WorkerKeepsStages(s: State, t: Tid, w: WorkerStep)
    requires WellFormed(s) && AtOwnStages(s) && t.Worker? && WorkerEnabled(s, t, w)
    ensures AtOwnStages(WorkerApply(s, t, w))
  {
  }

  lemma {:induction false} CleanupKeepsStages(s: State, t: Tid, c: CleanupStep)
    requires WellFormed(s) && AtOwnStages(s) && CleanupEnabled(s, t, c)
    ensures AtOwnStages(CleanupApply(s, t, c))
  {
  }

  lemma {:induction false} ClosingKeepsStages(s: State, fd: nat)
    requires AtOwnStages(s) && fd < |s.closes|
    ensures AtOwnStages(KernelClose(s, fd))
  {
  }

  lemma {:induction false} StepKeepsStages(s: State, step: Step)
    requires WellFormed(s) && AtOwnStages(s) && Enabled(s, step)
    ensures AtOwnStages(Apply(s, step))
  {
    hide AtOwnStages, LoopApply, WorkerApply, CleanupApply, LoopEnabled, WorkerEnabled, CleanupEnabled;
    match step
    case InLoop(l) => LoopKeepsStages(s, l);
    case InWorker(id, w) => WorkerKeepsStages(s, Worker(id), w);
    case InCleanup(t, c) => CleanupKeepsStages(s, t, c);
    case OutsideClose(fd) => ClosingKeepsStages(s, fd);
  }

  lemma {:induction false} BehavioursKeepStages(run: seq<State>, steps: seq<Step>, n: nat)
    requires Behaviour(run, steps) && n <= |steps|
    ensures AtOwnStages(run[n])
  {
    if n > 0 {
      BehavioursKeepStages(run, steps, n - 1);
      StepKeepsStages(run[n - 1], steps[n - 1]);
    }
  }

  /** A busy thread can go on at once, or waits for a lock that another thread holds, and that
      one can go on. */
  lemma {:induction false} NobodyIsStuck(s: State, t: Tid)
    requires Exclusion(s) && AtOwnStages(s) && t in s.threads && !s.threads[t].stage.Idle?
    ensures Enabled(s, NextStep(t, s.threads[t])) ||
      (Waits(s.threads[t]) &&
        var holder := s.locks[s.threads[t].event.fd];
        && holder.Some? && holder.value != t && holder.value in s.threads
        && Enabled(s, NextStep(holder.value, s.threads[holder.value])))
  {
    var fd := s.threads[t].event.fd;
    if Waits(s.threads[t]) && s.locks[fd].Some? {
      var u := s.locks[fd].value;
      assert u in s.threads && HoldsLock(s.threads[u]) && s.threads[u].event.fd == fd;
    }
  }

  // ----- From the start

  lemma {:induction false} Join(run: seq<State>, steps: seq<Step>, more: seq<State>, next: seq<Step>)
    returns (run': seq<State>, steps': seq<Step>)
    requires Path(run, steps) && Path(more, next) && more[0] == Last(run)
    ensures run' == run + more[1..] && steps' == steps + next && Path(run', steps') && Last(run') == Last(more)
  {
    run', steps' := run + more[1..], steps + next;
    forall i | 0 <= i < |steps'|
      ensures WellFormed(run'[i]) && Enabled(run'[i], steps'[i]) && run'[i + 1] == Apply(run'[i], steps'[i])
    {
      if i >= |steps| {
        var k := i - |steps|;
        assert run'[i] == more[k] && run'[i + 1] == more[k + 1] && steps'[i] == next[k];
      }
    }
  }

  /** What a path from the start keeps. */
  lemma {:induction false} PathFromStart(run: seq<State>, steps: seq<Step>)
    requires Path(run, steps) && Init(run[0]) && forall step :: step in steps ==> !step.OutsideClose?
    ensures Exclusion(Last(run)) && Ownership.Ownership(Last(run)) && Behaviour(run, steps)
  {
    BehavioursKeepExclusion(run, steps, |steps|);
    BehavioursKeepOwnership(run, steps, |steps|);
  }

  /** Where the first connection of a run is. */
  ghost function FirstCounted(s: State, fd: nat): State
    requires fd < |s.accepts|
  {
    s.(open := {fd}, accepts := s.accepts[fd := 1], connections := 1, threads := map[Loop := Pc(Counted, Event(fd, 0, 0))])
  }

  ghost function FirstArmed(s: State, fd: nat): State
    requires fd < |s.accepts| && fd < |s.slots| && fd < |s.lives|
  {
    FirstCounted(s, fd).(
      slots := s.slots[fd := Slot(1, true, ConnState.Reading)], lives := s.lives[fd := 1],
      registered := {fd}, armed := {fd}, threads := map[Loop := Pc(Idle, Event(fd, 0, 0))])
  }

  ghost function FirstQueued(s: State, fd: nat): State
    requires fd < |s.accepts| && fd < |s.slots| && fd < |s.lives|
  {
    FirstArmed(s, fd).(armed := {}, batch := [Ready(fd, false)], next := 1, tasks := [Event(fd, 1, 1)],
      threads := map[Loop := Pc(Idle, Event(fd, 1, 1))])
  }

  ghost function FirstDispatched(s: State, fd: nat): State
    requires fd < |s.accepts| && fd < |s.slots| && fd < |s.lives| && fd < |s.locks|
  {
    FirstQueued(s, fd).(head := 1, locks := s.locks[fd := Some(Worker(0))],
      threads := map[Loop := Pc(Idle, Event(fd, 1, 1)), Worker(0) := Pc(Dispatching, Event(fd, 1, 1))])
  }

  lemma {:induction false} FirstIsCounted(s: State, fd: nat) returns (a: State)
    requires Init(s) && fd < |s.slots|
    ensures Path([s, a, FirstCounted(s, fd)], [InLoop(Accept(fd)), InLoop(Count)])
  {
    a := LoopApply(s, Accept(fd));
    LoopStaysWellFormed(s, Accept(fd));
    var b := LoopApply(a, Count);
    assert b.threads == map[Loop := Pc(Counted, Event(fd, 0, 0))];
    assert b.open == {fd};
  }

  lemma {:induction false} FirstIsArmed(s: State, fd: nat) returns (run: seq<State>, steps: seq<Step>)
    requires Init(s) && fd < |s.slots|
    ensures Path(run, steps) && |run| == 6 && |steps| == 5 && run[0] == s && forall step :: step in steps ==> !step.OutsideClose?
    ensures run[5] == FirstArmed(s, fd)
  {
    hide LoopApply, LoopEnabled, Exclusion, Ownership.Ownership, Behaviour, Path;
    var a := FirstIsCounted(s, fd);
    var b := FirstCounted(s, fd);
    run, steps := [s, a, b], [InLoop(Accept(fd)), InLoop(Count)];
    PathFromStart(run, steps);
    var more := CountedIsArmed(b);
    run, steps := Join(run, steps, more, [InLoop(LockForActivate), InLoop(Activate), InLoop(Add(true))]);
    assert more[3].registered == {fd} && more[3].armed == {fd};
    assert more[3].threads == map[Loop := Pc(Idle, Event(fd, 0, 0))];
    assert more[3] == FirstArmed(s, fd);
  }

  lemma {:induction false} FirstIsWoken(s: State, fd: nat)
    requires Init(s) && fd < |s.slots| && WellFormed(FirstArmed(s, fd))
    ensures var l, u := Wake([Ready(fd, false)]), FirstArmed(s, fd);
      LoopEnabled(u, l) && LoopApply(u, l) == u.(batch := [Ready(fd, false)], next := 0, armed := {})
  {
    var ready := [Ready(fd, false)];
    assert ready[0].fd in set i | 0 <= i < |ready| :: ready[i].fd;
  }

  lemma {:induction false} FirstIsQueued(s: State, fd: nat) returns (run: seq<State>, steps: seq<Step>)
    requires Init(s) && fd < |s.slots|
    ensures Path(run, steps) && |run| == 9 && |steps| == 8 && run[0] == s && forall step :: step in steps ==> !step.OutsideClose?
    ensures run[8] == FirstQueued(s, fd)
  {
    hide LoopApply, LoopEnabled, Ownership.Ownership, Behaviour, Path, GenerationsAgree, LocksAgree, DispatchesOnLiveSlot;
    run, steps := FirstIsArmed(s, fd);
    PathFromStart(run, steps);
    FirstIsWoken(s, fd);
    run, steps := Extend(run, steps, InLoop(Wake([Ready(fd, false)])));
    var u := FirstArmed(s, fd).(batch := [Ready(fd, false)], next := 0, armed := {});
    assert run[6] == u;
    PathFromStart(run, steps);
    var more := ReadyIsQueued(u);
    run, steps := Join(run, steps, more, [InLoop(Take), InLoop(Push(true))]);
    assert more[2].threads == map[Loop := Pc(Idle, Event(fd, 1, 1))];
    assert more[2].tasks == [Event(fd, 1, 1)];
    assert more[2] == FirstQueued(s, fd);
  }

  lemma {:induction false} FirstIsPopped(s: State, fd: nat, u: State)
    requires Init(s) && fd < |s.slots| && u == FirstQueued(s, fd) && WellFormed(u)
    ensures var t, e := Worker(0), Event(fd, 1, 1);
      var v := u.(threads := u.threads[t := Pc(Idle, Event(0, 0, 0))]);
      && WorkerEnabled(u, t, Spawn) && WorkerApply(u, t, Spawn) == v && WellFormed(v) && WorkerEnabled(v, t, Pop)
      && WorkerApply(v, t, Pop) == u.(head := 1, threads := u.threads[t := Pc(Popped, e)])
  {
    var t := Worker(0);
    var v := u.(threads := u.threads[t := Pc(Idle, Event(0, 0, 0))]);
    assert v.threads[t := Pc(Popped, Event(fd, 1, 1))] == u.threads[t := Pc(Popped, Event(fd, 1, 1))];
  }

  lemma {:induction false} FirstIsDispatched(s: State, fd: nat) returns (run: seq<State>, steps: seq<Step>)
    requires Init(s) && fd < |s.slots|
    ensures Path(run, steps) && |run| == 14 && |steps| == 13 && run[0] == s && forall step :: step in steps ==> !step.OutsideClose?
    ensures run[13] == FirstDispatched(s, fd)
  {
    hide WorkerApply, WorkerEnabled, Exclusion, Behaviour, Path, Owned, CountExact, Ledger;
    run, steps := FirstIsQueued(s, fd);
    var u, t := FirstQueued(s, fd), Worker(0);
    PathFromStart(run, steps);
    WellFormedOwnership(u);
    FirstIsPopped(s, fd, u);
    run, steps := Extend(run, steps, InWorker(0, Spawn));
    run, steps := Extend(run, steps, InWorker(0, Pop));
    var v := u.(head := 1, threads := u.threads[t := Pc(Popped, Event(fd, 1, 1))]);
    assert run[10] == v;
    PathFromStart(run, steps);
    var more := PoppedIsDispatched(v, 0);
    run, steps := Join(run, steps, more, [InWorker(0, Check), InWorker(0, Lock), InWorker(0, Recheck)]);
    assert more[3].threads == FirstDispatched(s, fd).threads;
    assert more[3] == FirstDispatched(s, fd);
  }

  lemma {:induction false} FirstIsKept(s: State, fd: nat, u: State)
    requires Init(s) && fd < |s.slots| && u == FirstDispatched(s, fd) && WellFormed(u)
    ensures var t := Worker(0);
      var v := u.(armed := {fd}, threads := u.threads[t := Pc(Rearmed, Event(fd, 1, 1))]);
      && WorkerEnabled(u, t, Rearm) && WorkerApply(u, t, Rearm) == v && WellFormed(v) && WorkerEnabled(v, t, Unlock)
      && WorkerApply(v, t, Unlock).armed == {fd} && WorkerApply(v, t, Unlock).locks == s.locks
      && At(WorkerApply(v, t, Unlock), t).stage.Idle?
  {
    var t := Worker(0);
    assert u.armed + {fd} == {fd};
    assert s.locks[fd := Some(t)][fd := None] == s.locks;
  }

  /** From the start a connection can come and be dispatched, in its first generation, and be
      armed again: every step of its way is one the server takes. */
  lemma {:induction false} FirstIsServed(s: State, fd: nat) returns (run: seq<State>, steps: seq<Step>)
    requires Init(s) && fd < |s.slots|
    ensures Behaviour(run, steps) && |run| == 16 && |steps| == 15 && run[0] == s
    ensures At(run[13], Worker(0)) == Pc(Dispatching, Event(fd, 1, 1))
    ensures fd < |run[13].slots| && run[13].slots[fd] == Slot(1, true, ConnState.Reading)
    ensures run[15].armed == {fd} && run[15].locks == s.locks && At(run[15], Worker(0)).stage.Idle?
  {
    hide WorkerApply, WorkerEnabled, Exclusion, Path, Owned, CountExact, Ledger;
    run, steps := FirstIsDispatched(s, fd);
    PathFromStart(run, steps);
    WellFormedOwnership(run[13]);
    FirstIsKept(s, fd, run[13]);
    run, steps := Extend(run, steps, InWorker(0, Rearm));
    run, steps := Extend(run, steps, InWorker(0, Unlock));
    PathFromStart(run, steps);
  }
}
