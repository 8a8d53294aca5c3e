/** The connection ownership protocol: one epoll thread and any number of workers,
    interleaved one atomic step at a time over shared descriptor slots.

    Threads meet only through the kernel (open descriptors, one-shot epoll arming), the
    task queue, the slot flags and the per-slot `io_lock`; each constructor of `LoopStep`,
    `WorkerStep` and `CleanupStep` is one such meeting. */
module Ownership {
  import opened ConnTable
  import opened Options

  datatype Tid = Loop | Worker(id: nat)

  /** A queued task; `life` numbers the lifetime it was read from (the code keeps only
      the 32-bit generation). */
  datatype Event = Event(fd: nat, generation: uint32, life: nat)

  datatype Ready = Ready(fd: nat, hup: bool)

  /** Where a thread stands between two atomic steps. */
  datatype Stage =
    | Idle
    // event loop: accepting
    | Accepted      // accept() returned, not yet counted
    | Counted       // counted, waiting for the slot lock
    | Activating    // slot lock held
    | Activated     // slot active, not yet in epoll
    | Refused       // generation 0: about to close
    // event loop: handing over
    | Pushing
    // worker
    | Popped
    | Checked       // first validity test passed
    | Locked        // slot lock held, second test pending
    | Dispatching
    | Rearmed       // epoll re-armed, slot lock still held
    // connection cleanup, in any thread
    | Dropping      // about to uncount
    | Detaching     // about to leave epoll
    | Awaiting      // waiting for the slot lock
    | Killing       // lock held, slot about to be deactivated
    | Shutting      // lock held, about to close
    | Shut          // closed, lock still held

  datatype Pc = Pc(stage: Stage, event: Event)

  const IDLE := Pc(Idle, Event(0, 0, 0))

  datatype State = State(
    slots: seq<Slot>,
    locks: seq<Option<Tid>>,
    open: set<nat>,                // client descriptors the kernel has open
    registered: set<nat>,          // in the epoll set
    armed: set<nat>,               // of those, not yet fired
    batch: seq<Ready>, next: nat,  // the current wake batch and the loop's index in it
    tasks: seq<Event>, head: nat,  // all tasks ever pushed, and how many were popped
    threads: map<Tid, Pc>,
    connections: int,              // active_connections
    lives: seq<nat>,               // activations of each slot
    accepts: seq<nat>,             // accept() calls that returned each descriptor
    closes: seq<nat>)              // close() calls on each descriptor

  datatype LoopStep =
    | Accept(fd: nat) | Count | LockForActivate | Activate | Add(ok: bool) | Refuse
    | Wake(ready: seq<Ready>) | Take | Push(ok: bool)

  datatype WorkerStep = Spawn | Exit | Pop | Check | Lock | Recheck | Rearm | Unlock | Finish

  datatype CleanupStep = Uncount | Detach | LockForCleanup | Kill | Close | Release

  datatype Step =
    | InLoop(l: LoopStep)
    | InWorker(id: nat, w: WorkerStep)
    | InCleanup(t: Tid, c: CleanupStep)
    | OutsideClose(fd: nat)        // some other thread closes the descriptor

  // ----- What a thread owns and what it holds locked

  predicate Owns(pc: Pc) {
    !pc.stage.Idle? && !pc.stage.Rearmed? && !pc.stage.Shut?
  }

  predicate HoldsLock(pc: Pc) {
    || pc.stage.Activating? || pc.stage.Locked? || pc.stage.Dispatching? || pc.stage.Rearmed?
    || pc.stage.Killing? || pc.stage.Shutting? || pc.stage.Shut?
  }

  /** Owned by a thread but not among the counted connections. */
  predicate Uncounted(pc: Pc) {
    || pc.stage.Accepted? || pc.stage.Detaching? || pc.stage.Awaiting?
    || pc.stage.Killing? || pc.stage.Shutting?
  }

  predicate CarriesTask(pc: Pc) {
    || pc.stage.Pushing? || pc.stage.Popped? || pc.stage.Checked? || pc.stage.Locked?
    || pc.stage.Dispatching? || pc.stage.Rearmed?
  }

  // ----- The steps

  ghost predicate WellFormed(s: State) {
    && |s.locks| == |s.lives| == |s.accepts| == |s.closes| == |s.slots|
    && Loop in s.threads
    && s.next <= |s.batch| && s.head <= |s.tasks|
    && (forall fd :: fd in s.open ==> fd < |s.slots|)
    && (forall fd :: fd in s.registered ==> fd < |s.slots|)
    && s.armed <= s.registered
    && (forall i :: 0 <= i < |s.batch| ==> s.batch[i].fd < |s.slots|)
    && (forall i :: 0 <= i < |s.tasks| ==> s.tasks[i].fd < |s.slots|)
    && (forall t :: t in s.threads && !s.threads[t].stage.Idle? ==> s.threads[t].event.fd < |s.slots|)
  }

  function At(s: State, t: Tid): Pc {
    if t in s.threads then s.threads[t] else IDLE
  }

  function To(s: State, t: Tid, stage: Stage): State {
    s.(threads := s.threads[t := Pc(stage, At(s, t).event)])
  }

  function With(s: State, t: Tid, stage: Stage, e: Event): State {
    s.(threads := s.threads[t := Pc(stage, e)])
  }

  function SetLock(s: State, fd: nat, holder: Option<Tid>): State
    requires fd < |s.locks|
  {
    s.(locks := s.locks[fd := holder])
  }

  /** close(): the kernel also drops the descriptor from the epoll set. */
  function KernelClose(s: State, fd: nat): State
    requires fd < |s.closes|
  {
    s.(open := s.open - {fd}, registered := s.registered - {fd}, armed := s.armed - {fd},
       closes := s.closes[fd := s.closes[fd] + 1])
  }

  ghost predicate LoopEnabled(s: State, l: LoopStep)
    requires WellFormed(s)
  {
    var pc := At(s, Loop);
    match l
    case Accept(fd) => pc.stage.Idle? && fd < |s.slots| && fd !in s.open
    case Count => pc.stage.Accepted?
    case LockForActivate => pc.stage.Counted? && s.locks[pc.event.fd].None?
    case Activate => pc.stage.Activating?
    case Add(_) => pc.stage.Activated?
    case Refuse => pc.stage.Refused?
    case Wake(ready) =>
      && pc.stage.Idle? && s.next == |s.batch|
      && (forall i :: 0 <= i < |ready| ==> ready[i].fd in s.armed)
      && (forall i, j :: 0 <= i < j < |ready| ==> ready[i].fd != ready[j].fd)
    case Take => pc.stage.Idle? && s.next < |s.batch|
    case Push(_) => pc.stage.Pushing?
  }

  ghost predicate WorkerEnabled(s: State, t: Tid, w: WorkerStep)
    requires WellFormed(s) && t.Worker?
  {
    var pc := At(s, t);
    match w
    case Spawn => t !in s.threads
    case Exit => t in s.threads && pc.stage.Idle?
    case Pop => t in s.threads && pc.stage.Idle? && s.head < |s.tasks|
    case Check => pc.stage.Popped?
    case Lock => pc.stage.Checked? && s.locks[pc.event.fd].None?
    case Recheck => pc.stage.Locked?
    case Rearm => pc.stage.Dispatching?
    case Unlock => pc.stage.Rearmed?
    case Finish => pc.stage.Dispatching?
  }

  ghost predicate CleanupEnabled(s: State, t: Tid, c: CleanupStep)
    requires WellFormed(s)
  {
    var pc := At(s, t);
    match c
    case Uncount => pc.stage.Dropping?
    case Detach => pc.stage.Detaching?
    case LockForCleanup => pc.stage.Awaiting? && s.locks[pc.event.fd].None?
    case Kill => pc.stage.Killing?
    case Close => pc.stage.Shutting?
    case Release => pc.stage.Shut?
  }

  /** When a step may be taken; a lock is acquired only when nobody holds it. */
  ghost predicate Enabled(s: State, step: Step)
    requires WellFormed(s)
  {
    match step
    case InLoop(l) => LoopEnabled(s, l)
    case InWorker(id, w) => WorkerEnabled(s, Worker(id), w)
    case InCleanup(t, c) => CleanupEnabled(s, t, c)
    case OutsideClose(fd) => fd in s.open
  }

  ghost function LoopApply(s: State, l: LoopStep): State
    requires WellFormed(s) && LoopEnabled(s, l)
  {
    var fd := At(s, Loop).event.fd;
    match l
    case Accept(fd) =>
      With(s, Loop, Accepted, Event(fd, 0, 0)).(
        open := s.open + {fd}, accepts := s.accepts[fd := s.accepts[fd] + 1])
    case Count => To(s, Loop, Counted).(connections := s.connections + 1)
    case LockForActivate => SetLock(To(s, Loop, Activating), fd, Some(Loop))
    case Activate =>
      var slot := ActivatedSlot(s.slots[fd]);
      SetLock(To(s, Loop, if slot.generation == 0 then Refused else Activated), fd, None).(
        slots := s.slots[fd := slot], lives := s.lives[fd := s.lives[fd] + 1])
    case Add(ok) =>
      if ok then To(s, Loop, Idle).(registered := s.registered + {fd}, armed := s.armed + {fd})
      else To(s, Loop, Dropping)
    case Refuse => KernelClose(To(s, Loop, Idle), fd).(connections := s.connections - 1)
    case Wake(ready) =>
      s.(batch := ready, next := 0, armed := s.armed - (set i | 0 <= i < |ready| :: ready[i].fd))
    case Take =>
      var r := s.batch[s.next];
      var s' := s.(next := s.next + 1);
      if r.hup then With(s', Loop, Dropping, Event(r.fd, 0, 0))
      else if !s.slots[r.fd].active then s'
      else With(s', Loop, Pushing, Event(r.fd, s.slots[r.fd].generation, s.lives[r.fd]))
    case Push(ok) =>
      if ok then To(s, Loop, Idle).(tasks := s.tasks + [At(s, Loop).event])
      else To(s, Loop, Dropping)
  }

  ghost function WorkerApply(s: State, t: Tid, w: WorkerStep): State
    requires WellFormed(s) && t.Worker? && WorkerEnabled(s, t, w)
  {
    var e := At(s, t).event;
    match w
    case Spawn => With(s, t, Idle, e)
    case Exit => s.(threads := s.threads - {t})
    case Pop => With(s, t, Popped, s.tasks[s.head]).(head := s.head + 1)
    case Check => To(s, t, if ValidSlot(s.slots[e.fd], e.generation) then Checked else Idle)
    case Lock => SetLock(To(s, t, Locked), e.fd, Some(t))
    case Recheck =>
      if ValidSlot(s.slots[e.fd], e.generation) then To(s, t, Dispatching)
      else SetLock(To(s, t, Idle), e.fd, None)
    case Rearm =>
      To(s, t, Rearmed).(armed := if e.fd in s.registered then s.armed + {e.fd} else s.armed)
    case Unlock => SetLock(To(s, t, Idle), e.fd, None)
    case Finish => SetLock(To(s, t, Dropping), e.fd, None)
  }

  ghost function CleanupApply(s: State, t: Tid, c: CleanupStep): State
    requires WellFormed(s) && CleanupEnabled(s, t, c)
  {
    var fd := At(s, t).event.fd;
    match c
    case Uncount => To(s, t, Detaching).(connections := s.connections - 1)
    case Detach => To(s, t, Awaiting).(registered := s.registered - {fd}, armed := s.armed - {fd})
    case LockForCleanup => SetLock(To(s, t, Killing), fd, Some(t))
    case Kill => To(s, t, Shutting).(slots := s.slots[fd := KilledSlot(s.slots[fd])])
    case Close => KernelClose(To(s, t, Shut), fd)
    case Release => SetLock(To(s, t, Idle), fd, None)
  }

  /** The state a step leads to. */
  ghost function Apply(s: State, step: Step): State
    requires WellFormed(s) && Enabled(s, step)
  {
    match step
    case InLoop(l) => LoopApply(s, l)
    case InWorker(id, w) => WorkerApply(s, Worker(id), w)
    case InCleanup(t, c) => CleanupApply(s, t, c)
    case OutsideClose(fd) => KernelClose(s, fd)
  }

  ghost predicate Init(s: State) {
    && WellFormed(s)
    && s.open == {} && s.registered == {} && s.armed == {}
    && s.batch == [] && s.tasks == []
    && s.threads == map[Loop := IDLE]
    && s.connections == 0
    && (forall i :: 0 <= i < |s.slots| ==>
          && s.slots[i] == Slot(0, false, Dead) && s.locks[i] == None
          && s.lives[i] == 0 && s.accepts[i] == 0 && s.closes[i] == 0)
  }

  /** `run` is a behaviour of the server: any interleaving of enabled steps. */
  ghost predicate Behaviour(run: seq<State>, steps: seq<Step>) {
    && |run| == |steps| + 1 && Init(run[0])
    && forall i :: 0 <= i < |steps| ==>
      && WellFormed(run[i]) && Enabled(run[i], steps[i]) && run[i + 1] == Apply(run[i], steps[i])
  }

  lemma {:induction false} LoopStaysWellFormed(s: State, l: LoopStep)
    requires WellFormed(s) && LoopEnabled(s, l)
    ensures WellFormed(LoopApply(s, l))
  {
  }

  lemma {:induction false} WorkerStaysWellFormed(s: State, t: Tid, w: WorkerStep)
    requires WellFormed(s) && t.Worker? && WorkerEnabled(s, t, w)
    ensures WellFormed(WorkerApply(s, t, w))
  {
  }

  lemma {:induction false} CleanupStaysWellFormed(s: State, t: Tid, c: CleanupStep)
    requires WellFormed(s) && CleanupEnabled(s, t, c)
    ensures WellFormed(CleanupApply(s, t, c))
  {
  }

  // ----- Dispatch exclusion: for every behaviour, outside closes included

  /** A lock names exactly the thread that holds it. */
  ghost predicate LocksAgree(threads: map<Tid, Pc>, locks: seq<Option<Tid>>) {
    && (forall t :: t in threads && HoldsLock(threads[t]) ==>
          threads[t].event.fd < |locks| && locks[threads[t].event.fd] == Some(t))
    && (forall fd :: 0 <= fd < |locks| && locks[fd].Some? ==>
          var t := locks[fd].value;
          t in threads && HoldsLock(threads[t]) && threads[t].event.fd == fd)
  }

  ghost predicate EventFits(lives: seq<nat>, e: Event) {
    e.fd < |lives| && e.life <= lives[e.fd] && e.generation == e.life % TWO_32
  }

  ghost predicate SlotsCount(slots: seq<Slot>, lives: seq<nat>) {
    |slots| == |lives| && forall fd :: 0 <= fd < |slots| ==> AfterLives(slots[fd], lives[fd])
  }

  ghost predicate TasksFit(tasks: seq<Event>, lives: seq<nat>) {
    forall i :: 0 <= i < |tasks| ==> EventFits(lives, tasks[i])
  }

  ghost predicate ThreadsFit(threads: map<Tid, Pc>, lives: seq<nat>) {
    forall t :: t in threads && CarriesTask(threads[t]) ==> EventFits(lives, threads[t].event)
  }

  ghost predicate GenerationsAgree(s: State) {
    SlotsCount(s.slots, s.lives) && TasksFit(s.tasks, s.lives) && ThreadsFit(s.threads, s.lives)
  }

  ghost predicate DispatchesOnLiveSlot(s: State)
    requires WellFormed(s)
  {
    forall t :: t in s.threads && s.threads[t].stage.Dispatching? ==>
      var e := s.threads[t].event;
      s.slots[e.fd].active && s.slots[e.fd].generation == e.generation
  }

  ghost predicate Exclusion(s: State) {
    WellFormed(s) && LocksAgree(s.threads, s.locks) && GenerationsAgree(s) && DispatchesOnLiveSlot(s)
  }

  /** One thread moves, and takes or leaves at most one lock in doing so. */
  ghost predicate Moves(threads: map<Tid, Pc>, locks: seq<Option<Tid>>, t: Tid, pc: Pc, locks': seq<Option<Tid>>) {
    var held := t in threads && HoldsLock(threads[t]);
    if held && !HoldsLock(pc) then
      threads[t].event.fd < |locks| && locks' == locks[threads[t].event.fd := None]
    else if !held && HoldsLock(pc) then
      pc.event.fd < |locks| && locks[pc.event.fd] == None && locks' == locks[pc.event.fd := Some(t)]
    else
      locks' == locks && (held ==> pc.event == threads[t].event)
  }

  lemma {:induction false} MovesKeepLocks(
      threads: map<Tid, Pc>, locks: seq<Option<Tid>>, t: Tid, pc: Pc, locks': seq<Option<Tid>>)
    requires LocksAgree(threads, locks) && Moves(threads, locks, t, pc, locks')
    ensures LocksAgree(threads[t := pc], locks')
  {
  }

  lemma {:induction false} LoopMoves(s: State, l: LoopStep)
    requires WellFormed(s) && LoopEnabled(s, l)
    ensures var s' := LoopApply(s, l);
      Loop in s'.threads && s'.threads == s.threads[Loop := s'.threads[Loop]]
      && Moves(s.threads, s.locks, Loop, s'.threads[Loop], s'.locks)
  {
  }

  lemma {:induction false} LoopKeepsLocks(s: State, l: LoopStep)
    requires WellFormed(s) && LoopEnabled(s, l) && LocksAgree(s.threads, s.locks)
    ensures LocksAgree(LoopApply(s, l).threads, LoopApply(s, l).locks)
  {
    hide LoopApply, LoopEnabled, WellFormed, LocksAgree, Moves;
    LoopMoves(s, l);
    var s' := LoopApply(s, l);
    MovesKeepLocks(s.threads, s.locks, Loop, s'.threads[Loop], s'.locks);
  }

  lemma {:induction false} WorkerKeepsLocks(s: State, t: Tid, w: WorkerStep)
    requires WellFormed(s) && t.Worker? && WorkerEnabled(s, t, w) && LocksAgree(s.threads, s.locks)
    ensures LocksAgree(WorkerApply(s, t, w).threads, WorkerApply(s, t, w).locks)
  {
    var s' := WorkerApply(s, t, w);
    if w.Exit? {
    } else {
      MovesKeepLocks(s.threads, s.locks, t, s'.threads[t], s'.locks);
    }
  }

  lemma {:induction false} CleanupKeepsLocks(s: State, t: Tid, c: CleanupStep)
    requires WellFormed(s) && CleanupEnabled(s, t, c) && LocksAgree(s.threads, s.locks)
    ensures LocksAgree(CleanupApply(s, t, c).threads, CleanupApply(s, t, c).locks)
  {
    var s' := CleanupApply(s, t, c);
    MovesKeepLocks(s.threads, s.locks, t, s'.threads[t], s'.locks);
  }

  lemma {:induction false} LoopCountsLives(s: State, l: LoopStep)
    requires WellFormed(s) && LoopEnabled(s, l) && SlotsCount(s.slots, s.lives)
    ensures SlotsCount(LoopApply(s, l).slots, LoopApply(s, l).lives)
    ensures forall e :: EventFits(s.lives, e) ==> EventFits(LoopApply(s, l).lives, e)
  {
  }

  lemma {:induction false} LoopKeepsTasksFit(s: State, l: LoopStep)
    requires WellFormed(s) && LoopEnabled(s, l) && GenerationsAgree(s)
    ensures TasksFit(LoopApply(s, l).tasks, LoopApply(s, l).lives)
  {
    LoopCountsLives(s, l);
  }

  lemma {:induction false} LoopCarriesFittingTask(s: State, l: LoopStep)
    requires WellFormed(s) && LoopEnabled(s, l) && GenerationsAgree(s)
    ensures var s' := LoopApply(s, l);
      Loop in s'.threads && (CarriesTask(s'.threads[Loop]) ==> EventFits(s'.lives, s'.threads[Loop].event))
  {
    if l.Take? {
      var fd := s.batch[s.next].fd;
      assert AfterLives(s.slots[fd], s.lives[fd]);
    }
  }

  lemma {:induction false} LoopKeepsGenerations(s: State, l: LoopStep)
    requires WellFormed(s) && LoopEnabled(s, l) && GenerationsAgree(s)
    ensures GenerationsAgree(LoopApply(s, l))
  {
    LoopCountsLives(s, l);
    LoopKeepsTasksFit(s, l);
    LoopCarriesFittingTask(s, l);
    var s' := LoopApply(s, l);
    assert s'.threads == s.threads[Loop := s'.threads[Loop]];
  }

  lemma {:induction false} WorkerKeepsGenerations(s: State, t: Tid, w: WorkerStep)
    requires WellFormed(s) && t.Worker? && WorkerEnabled(s, t, w) && GenerationsAgree(s)
    ensures WellFormed(WorkerApply(s, t, w)) && GenerationsAgree(WorkerApply(s, t, w))
  {
    WorkerStaysWellFormed(s, t, w);
  }

  lemma {:induction false} CleanupKeepsGenerations(s: State, t: Tid, c: CleanupStep)
    requires WellFormed(s) && CleanupEnabled(s, t, c) && GenerationsAgree(s)
    ensures WellFormed(CleanupApply(s, t, c)) && GenerationsAgree(CleanupApply(s, t, c))
  {
    CleanupStaysWellFormed(s, t, c);
  }

  lemma {:induction false} LoopKeepsDispatches(s: State, l: LoopStep)
    requires WellFormed(s) && LoopEnabled(s, l) && LocksAgree(s.threads, s.locks) && DispatchesOnLiveSlot(s)
    ensures WellFormed(LoopApply(s, l)) && DispatchesOnLiveSlot(LoopApply(s, l))
  {
    LoopStaysWellFormed(s, l);
  }

  lemma {:induction false} WorkerKeepsDispatches(s: State, t: Tid, w: WorkerStep)
    requires WellFormed(s) && t.Worker? && WorkerEnabled(s, t, w) && LocksAgree(s.threads, s.locks) && DispatchesOnLiveSlot(s)
    ensures WellFormed(WorkerApply(s, t, w)) && DispatchesOnLiveSlot(WorkerApply(s, t, w))
  {
    WorkerStaysWellFormed(s, t, w);
  }

  lemma {:induction false} CleanupKeepsDispatches(s: State, t: Tid, c: CleanupStep)
    requires WellFormed(s) && CleanupEnabled(s, t, c) && LocksAgree(s.threads, s.locks) && DispatchesOnLiveSlot(s)
    ensures WellFormed(CleanupApply(s, t, c)) && DispatchesOnLiveSlot(CleanupApply(s, t, c))
  {
    CleanupStaysWellFormed(s, t, c);
  }

  lemma {:induction false} StepKeepsExclusion(s: State, step: Step)
    requires Exclusion(s) && Enabled(s, step)
    ensures Exclusion(Apply(s, step))
  {
    match step
    case InLoop(l) =>
      LoopStaysWellFormed(s, l);
      LoopKeepsLocks(s, l);
      LoopKeepsGenerations(s, l);
      LoopKeepsDispatches(s, l);
    case InWorker(id, w) =>
      WorkerStaysWellFormed(s, Worker(id), w);
      WorkerKeepsLocks(s, Worker(id), w);
      WorkerKeepsGenerations(s, Worker(id), w);
      WorkerKeepsDispatches(s, Worker(id), w);
    case InCleanup(t, c) =>
      CleanupStaysWellFormed(s, t, c);
      CleanupKeepsLocks(s, t, c);
      CleanupKeepsGenerations(s, t, c);
      CleanupKeepsDispatches(s, t, c);
    case OutsideClose(fd) =>
  }

  lemma {:induction false} BehavioursKeepExclusion(run: seq<State>, steps: seq<Step>, n: nat)
    requires Behaviour(run, steps) && n <= |steps|
    ensures Exclusion(run[n])
  {
    if n > 0 {
      BehavioursKeepExclusion(run, steps, n - 1);
      StepKeepsExclusion(run[n - 1], steps[n - 1]);
    }
  }

  /** Thread `t` dispatches on a slot that is active in the generation of its event, which is
      the lifetime of its event unless 2^32 lifetimes have gone by since, and no other thread
      holds the lock under which the server dispatches on, activates, kills and closes it. */
  ghost predicate DispatchesAlone(s: State, t: Tid)
    requires WellFormed(s) && t in s.threads && s.threads[t].stage.Dispatching?
  {
    var e := s.threads[t].event;
    && s.slots[e.fd].active && s.slots[e.fd].generation == e.generation
    && e.life <= s.lives[e.fd]
    && (s.lives[e.fd] - e.life < TWO_32 ==> e.life == s.lives[e.fd])
    && forall u :: u in s.threads && u != t && HoldsLock(s.threads[u]) ==> s.threads[u].event.fd != e.fd
  }

  /** In every interleaving, with descriptors closed from outside and reused by the
      kernel at any moment, a dispatch runs alone on the lifetime it was queued for. */
  lemma {:induction false} DispatchExclusion(run: seq<State>, steps: seq<Step>, n: nat, t: Tid)
    requires Behaviour(run, steps) && n <= |steps|
    requires t in run[n].threads && run[n].threads[t].stage.Dispatching?
    ensures WellFormed(run[n]) && DispatchesAlone(run[n], t)
  {
    BehavioursKeepExclusion(run, steps, n);
    var e := run[n].threads[t].event;
    if run[n].lives[e.fd] - e.life < TWO_32 {
      StaleGenerationIsInvalid(run[n].slots[e.fd], run[n].lives[e.fd], e.life);
    }
  }

  /** The slot, its lock and the thread are as they were. */
  ghost predicate Undisturbed(s: State, s': State, t: Tid)
    requires WellFormed(s) && t in s.threads
  {
    var fd := s.threads[t].event.fd;
    && fd < |s.slots| && fd < |s'.slots| && fd < |s'.locks| && t in s'.threads
    && s'.slots[fd] == s.slots[fd] && s'.locks[fd] == Some(t) && s'.threads[t] == s.threads[t]
  }

  lemma {:induction false} LoopLeavesDispatch(s: State, l: LoopStep, t: Tid)
    requires Exclusion(s) && LoopEnabled(s, l) && t in s.threads && s.threads[t].stage.Dispatching?
    ensures Undisturbed(s, LoopApply(s, l), t)
  {
    hide GenerationsAgree, DispatchesOnLiveSlot;
  }

  lemma {:induction false} WorkerLeavesDispatch(s: State, id: nat, w: WorkerStep, t: Tid)
    requires Exclusion(s) && WorkerEnabled(s, Worker(id), w) && t in s.threads && s.threads[t].stage.Dispatching?
    requires Worker(id) != t
    ensures Undisturbed(s, WorkerApply(s, Worker(id), w), t)
  {
    hide GenerationsAgree, DispatchesOnLiveSlot;
  }

  lemma {:induction false} CleanupLeavesDispatch(s: State, u: Tid, c: CleanupStep, t: Tid)
    requires Exclusion(s) && CleanupEnabled(s, u, c) && t in s.threads && s.threads[t].stage.Dispatching?
    ensures Undisturbed(s, CleanupApply(s, u, c), t)
  {
    hide GenerationsAgree, DispatchesOnLiveSlot;
  }

  /** While `t` dispatches, no step of anybody else changes its slot or takes its lock. */
  lemma {:induction false} DispatchIsUndisturbed(s: State, step: Step, t: Tid)
    requires Exclusion(s) && Enabled(s, step)
    requires t in s.threads && s.threads[t].stage.Dispatching?
    requires step.InWorker? ==> Worker(step.id) != t
    ensures Undisturbed(s, Apply(s, step), t)
  {
    hide LoopApply, WorkerApply, CleanupApply, LoopEnabled, WorkerEnabled, CleanupEnabled;
    match step
    case InLoop(l) => LoopLeavesDispatch(s, l, t);
    case InWorker(id, w) => WorkerLeavesDispatch(s, id, w, t);
    case InCleanup(u, c) => CleanupLeavesDispatch(s, u, c, t);
    case OutsideClose(fd) =>
  }

  // ----- Ownership: behaviours in which only the server closes client descriptors

  /** The places a connection can be in. */
  datatype Place = InEpoll | InBatch(i: nat) | InQueue(i: nat) | InThread(t: Tid)

  ghost predicate Holds(s: State, p: Place, fd: nat) {
    match p
    case InEpoll => fd in s.armed
    case InBatch(i) => s.next <= i < |s.batch| && s.batch[i].fd == fd
    case InQueue(i) => s.head <= i < |s.tasks| && s.tasks[i].fd == fd
    case InThread(t) => t in s.threads && Owns(s.threads[t]) && s.threads[t].event.fd == fd
  }

  ghost predicate OneOwner(s: State) {
    && (forall p, q, fd :: Holds(s, p, fd) && Holds(s, q, fd) ==> p == q)
    && (forall p, fd :: Holds(s, p, fd) ==> fd in s.open)
    && (forall fd :: fd in s.open ==> exists p :: Holds(s, p, fd))
  }

  /** Only `fd` changes place, from `p` to `q`; no place before means it is accepted, no
      place after means it is closed. */
  ghost predicate Transfer(s: State, s': State, fd: nat, p: Option<Place>, q: Option<Place>) {
    && (p.None? ==> fd !in s.open)
    && (p.Some? ==> Holds(s, p.value, fd))
    && (q.Some? ==> Holds(s', q.value, fd))
    && s'.open == (if q.Some? then s.open + {fd} else s.open - {fd})
    && (forall r, g :: Holds(s', r, g) && !(g == fd && q == Some(r)) ==> Holds(s, r, g) && !(g == fd && p == Some(r)))
    && (forall r, g :: Holds(s, r, g) && !(g == fd && p == Some(r)) ==> Holds(s', r, g))
  }

  lemma {:induction false} TransferKeepsOneOwner(s: State, s': State, fd: nat, p: Option<Place>, q: Option<Place>)
    requires OneOwner(s) && Transfer(s, s', fd, p, q)
    ensures OneOwner(s')
  {
    forall g | g in s'.open ensures exists r :: Holds(s', r, g) {
      if g != fd {
        var r :| Holds(s, r, g);
        assert Holds(s', r, g);
      }
    }
  }

  ghost predicate Reading(s: State, fd: nat)
    requires fd < |s.slots|
  {
    fd in s.registered && s.slots[fd].active && s.slots[fd].state == ConnState.Reading
  }

  /** What the slot and epoll look like for a connection in a given place: a queued or
      dispatched task is always valid, and the descriptor still registered. */
  ghost predicate Backed(s: State, p: Place, fd: nat)
    requires WellFormed(s) && Holds(s, p, fd)
  {
    fd < |s.slots| &&
    match p
    case InEpoll => Reading(s, fd)
    case InBatch(i) => Reading(s, fd)
    case InQueue(i) => Reading(s, fd) && s.slots[fd].generation == s.tasks[i].generation
    case InThread(t) =>
      && (CarriesTask(s.threads[t]) ==>
            Reading(s, fd) && s.slots[fd].generation == s.threads[t].event.generation)
      && (s.threads[t].stage.Activated? ==> s.slots[fd].active && s.slots[fd].state == ConnState.Reading)
  }

  ghost predicate AllBacked(s: State)
    requires WellFormed(s)
  {
    forall p, fd :: Holds(s, p, fd) ==> Backed(s, p, fd)
  }

  ghost predicate Owned(s: State) {
    WellFormed(s) && OneOwner(s) && AllBacked(s)
  }

  /** The thread goes on with the same connection, or without one. */
  lemma {:induction false} StayingKeepsOneOwner(s: State, s': State, t: Tid)
    requires OneOwner(s)
    requires s'.open == s.open && s'.armed == s.armed
    requires s'.batch == s.batch && s'.next == s.next && s'.tasks == s.tasks && s'.head == s.head
    requires t in s.threads && t in s'.threads && s'.threads == s.threads[t := s'.threads[t]]
    requires Owns(s.threads[t]) <==> Owns(s'.threads[t])
    requires Owns(s.threads[t]) ==> s.threads[t].event.fd == s'.threads[t].event.fd
    ensures OneOwner(s')
  {
    assert forall p, fd :: Holds(s', p, fd) <==> Holds(s, p, fd);
  }

  lemma {:induction false} AcceptTransfers(s: State, l: LoopStep)
    requires Owned(s) && LoopEnabled(s, l) && (l.Accept? || l.Add? || l.Refuse?)
    ensures OneOwner(LoopApply(s, l))
  {
    var s' := LoopApply(s, l);
    var fd := At(s, Loop).event.fd;
    var here := Some(InThread(Loop));
    match l
    case Accept(g) => TransferKeepsOneOwner(s, s', g, None, here);
    case Refuse =>
      assert Holds(s, InThread(Loop), fd);
      TransferKeepsOneOwner(s, s', fd, here, None);
    case Add(ok) =>
      if ok {
        assert Holds(s, InThread(Loop), fd);
        TransferKeepsOneOwner(s, s', fd, here, Some(InEpoll));
      } else {
        StayingKeepsOneOwner(s, s', Loop);
      }
  }

  lemma {:induction false} TakeTransfers(s: State)
    requires Owned(s) && LoopEnabled(s, Take)
    ensures OneOwner(LoopApply(s, Take))
  {
    var g := s.batch[s.next].fd;
    assert Holds(s, InBatch(s.next), g);
    assert Backed(s, InBatch(s.next), g);
    TransferKeepsOneOwner(s, LoopApply(s, Take), g, Some(InBatch(s.next)), Some(InThread(Loop)));
  }

  lemma {:induction false} PushTransfers(s: State)
    requires Owned(s) && LoopEnabled(s, Push(true))
    ensures OneOwner(LoopApply(s, Push(true)))
  {
    var fd := At(s, Loop).event.fd;
    assert Holds(s, InThread(Loop), fd);
    TransferKeepsOneOwner(s, LoopApply(s, Push(true)), fd, Some(InThread(Loop)), Some(InQueue(|s.tasks|)));
  }

  lemma {:induction false} WakeTransfers(s: State, ready: seq<Ready>)
    requires Owned(s) && LoopEnabled(s, Wake(ready))
    ensures OneOwner(LoopApply(s, Wake(ready)))
  {
    var s' := LoopApply(s, Wake(ready));
    forall p, fd | Holds(s', p, fd) ensures if p.InBatch? then Holds(s, InEpoll, fd) else Holds(s, p, fd) {
    }
    assert forall i, fd :: !Holds(s, InBatch(i), fd);
    forall fd | fd in s'.open ensures exists p :: Holds(s', p, fd) {
      var p :| Holds(s, p, fd);
      if i :| 0 <= i < |ready| && ready[i].fd == fd {
        assert Holds(s', InBatch(i), fd);
      } else {
        assert Holds(s', p, fd);
      }
    }
    forall p, q, fd | Holds(s', p, fd) && Holds(s', q, fd) ensures p == q {
    }
  }

  lemma {:induction false} LoopTransfers(s: State, l: LoopStep)
    requires Owned(s) && LoopEnabled(s, l)
    ensures OneOwner(LoopApply(s, l))
  {
    var s' := LoopApply(s, l);
    if l.Accept? || l.Add? || l.Refuse? {
      AcceptTransfers(s, l);
    } else if l.Wake? {
      WakeTransfers(s, l.ready);
    } else if l.Take? {
      TakeTransfers(s);
    } else if l == Push(true) {
      PushTransfers(s);
    } else {
      StayingKeepsOneOwner(s, s', Loop);
    }
  }

  lemma {:induction false} PopTransfers(s: State, t: Tid)
    requires Owned(s) && t.Worker? && WorkerEnabled(s, t, Pop)
    ensures OneOwner(WorkerApply(s, t, Pop))
  {
    var g := s.tasks[s.head].fd;
    assert Holds(s, InQueue(s.head), g);
    TransferKeepsOneOwner(s, WorkerApply(s, t, Pop), g, Some(InQueue(s.head)), Some(InThread(t)));
  }

  lemma {:induction false} RearmTransfers(s: State, t: Tid)
    requires Owned(s) && t.Worker? && WorkerEnabled(s, t, Rearm)
    ensures OneOwner(WorkerApply(s, t, Rearm))
  {
    var fd := At(s, t).event.fd;
    assert Holds(s, InThread(t), fd) && Backed(s, InThread(t), fd);
    TransferKeepsOneOwner(s, WorkerApply(s, t, Rearm), fd, Some(InThread(t)), Some(InEpoll));
  }

  lemma {:induction false} WorkerStays(s: State, t: Tid, w: WorkerStep)
    requires Owned(s) && t.Worker? && WorkerEnabled(s, t, w) && !w.Pop? && !w.Rearm?
    ensures OneOwner(WorkerApply(s, t, w))
  {
    var s' := WorkerApply(s, t, w);
    if w.Spawn? || w.Exit? {
      assert forall p, g :: Holds(s', p, g) <==> Holds(s, p, g);
    } else {
      assert w.Unlock? || Holds(s, InThread(t), At(s, t).event.fd);
      StayingKeepsOneOwner(s, s', t);
    }
  }

  lemma {:induction false} WorkerTransfers(s: State, t: Tid, w: WorkerStep)
    requires Owned(s) && t.Worker? && WorkerEnabled(s, t, w)
    ensures OneOwner(WorkerApply(s, t, w))
  {
    if w.Pop? {
      PopTransfers(s, t);
    } else if w.Rearm? {
      RearmTransfers(s, t);
    } else {
      WorkerStays(s, t, w);
    }
  }

  lemma {:induction false} CleanupTransfers(s: State, t: Tid, c: CleanupStep)
    requires Owned(s) && CleanupEnabled(s, t, c)
    ensures OneOwner(CleanupApply(s, t, c))
  {
    var s' := CleanupApply(s, t, c);
    var fd := At(s, t).event.fd;
    if c.Close? {
      assert Holds(s, InThread(t), fd);
      TransferKeepsOneOwner(s, s', fd, Some(InThread(t)), None);
    } else {
      assert c.Detach? ==> Holds(s, InThread(t), fd) && !Holds(s, InEpoll, fd);
      StayingKeepsOneOwner(s, s', t);
    }
  }

  lemma {:induction false} AcceptKeepsOthers(s: State, l: LoopStep, p: Place, fd: nat)
    requires Owned(s) && LoopEnabled(s, l) && !l.Wake? && !l.Take? && !l.Push?
    requires WellFormed(LoopApply(s, l)) && Holds(LoopApply(s, l), p, fd)
    requires Holds(s, p, fd) && p != InThread(Loop)
    ensures Backed(LoopApply(s, l), p, fd)
  {
    assert Backed(s, p, fd);
    assert Owns(At(s, Loop)) ==> Holds(s, InThread(Loop), At(s, Loop).event.fd);
    assert Owns(At(s, Loop)) ==> At(s, Loop).event.fd != fd;
    hide OneOwner, AllBacked;
  }

  lemma {:induction false} AcceptKeepsHolding(s: State, l: LoopStep, p: Place, fd: nat)
    requires Owned(s) && LoopEnabled(s, l) && !l.Wake? && !l.Take? && !l.Push?
    requires WellFormed(LoopApply(s, l)) && Holds(LoopApply(s, l), p, fd)
    ensures Backed(LoopApply(s, l), p, fd)
  {
    var here, own := InThread(Loop), At(s, Loop).event.fd;
    if Holds(s, p, fd) && p != here {
      AcceptKeepsOthers(s, l, p, fd);
    } else {
      assert Owns(At(s, Loop)) ==> Holds(s, here, own) && Backed(s, here, own);
      hide OneOwner, AllBacked;
    }
  }

  lemma {:induction false} HandOverKeepsHolding(s: State, l: LoopStep, p: Place, fd: nat)
    requires Owned(s) && LoopEnabled(s, l) && (l.Wake? || l.Take? || l.Push?)
    requires WellFormed(LoopApply(s, l)) && Holds(LoopApply(s, l), p, fd)
    ensures Backed(LoopApply(s, l), p, fd)
  {
    var from := if l.Wake? then InEpoll else if l.Take? then InBatch(s.next) else InThread(Loop);
    assert Holds(s, p, fd) || Holds(s, from, fd);
    assert Holds(s, p, fd) ==> Backed(s, p, fd);
    assert Holds(s, from, fd) ==> Backed(s, from, fd);
  }

  lemma {:induction false} LoopKeepsBacked(s: State, l: LoopStep)
    requires Owned(s) && LoopEnabled(s, l)
    ensures WellFormed(LoopApply(s, l)) && AllBacked(LoopApply(s, l))
  {
    LoopStaysWellFormed(s, l);
    forall p, fd | Holds(LoopApply(s, l), p, fd) ensures Backed(LoopApply(s, l), p, fd) {
      if l.Wake? || l.Take? || l.Push? {
        HandOverKeepsHolding(s, l, p, fd);
      } else {
        AcceptKeepsHolding(s, l, p, fd);
      }
    }
  }

  lemma {:induction false} PopKeepsHolding(s: State, t: Tid, p: Place, fd: nat)
    requires Owned(s) && t.Worker? && WorkerEnabled(s, t, Pop) && WellFormed(WorkerApply(s, t, Pop))
    requires Holds(WorkerApply(s, t, Pop), p, fd)
    ensures Backed(WorkerApply(s, t, Pop), p, fd)
  {
    if Holds(s, p, fd) {
      assert Backed(s, p, fd);
    } else {
      assert Holds(s, InQueue(s.head), fd) && Backed(s, InQueue(s.head), fd);
    }
  }

  lemma {:induction false} WorkerKeepsHolding(s: State, t: Tid, w: WorkerStep, p: Place, fd: nat)
    requires Owned(s) && t.Worker? && WorkerEnabled(s, t, w) && !w.Pop? && WellFormed(WorkerApply(s, t, w))
    requires Holds(WorkerApply(s, t, w), p, fd)
    ensures Backed(WorkerApply(s, t, w), p, fd)
  {
    assert Owns(At(s, t)) ==> Holds(s, InThread(t), At(s, t).event.fd) && Backed(s, InThread(t), At(s, t).event.fd);
    if Holds(s, p, fd) {
      assert Backed(s, p, fd);
    }
  }

  lemma {:induction false} WorkerKeepsBacked(s: State, t: Tid, w: WorkerStep)
    requires Owned(s) && t.Worker? && WorkerEnabled(s, t, w)
    ensures WellFormed(WorkerApply(s, t, w)) && AllBacked(WorkerApply(s, t, w))
  {
    WorkerStaysWellFormed(s, t, w);
    var s' := WorkerApply(s, t, w);
    forall p, fd | Holds(s', p, fd) ensures Backed(s', p, fd) {
      if w.Pop? {
        PopKeepsHolding(s, t, p, fd);
      } else {
        WorkerKeepsHolding(s, t, w, p, fd);
      }
    }
  }

  /** A cleanup moves no connection: what is held after its step was held there before, and
      when it closes its descriptor nobody else holds that one. */
  lemma {:induction false} CleanupMovesNothing(s: State, t: Tid, c: CleanupStep, p: Place, fd: nat)
    requires Owned(s) && CleanupEnabled(s, t, c) && Holds(CleanupApply(s, t, c), p, fd)
    ensures Holds(s, p, fd)
    ensures c.Close? || c.Detach? || c.Kill? ==> p == InThread(t) || fd != At(s, t).event.fd
  {
    hide AllBacked;
    assert Owns(At(s, t)) ==> Holds(s, InThread(t), At(s, t).event.fd);
  }

  lemma {:induction false} CleanupKeepsHolding(s: State, t: Tid, c: CleanupStep, p: Place, fd: nat)
    requires Owned(s) && CleanupEnabled(s, t, c) && WellFormed(CleanupApply(s, t, c))
    requires Holds(CleanupApply(s, t, c), p, fd)
    ensures Backed(CleanupApply(s, t, c), p, fd)
  {
    hide OneOwner;
    CleanupMovesNothing(s, t, c, p, fd);
    assert Backed(s, p, fd);
  }

  lemma {:induction false} CleanupKeepsBacked(s: State, t: Tid, c: CleanupStep)
    requires Owned(s) && CleanupEnabled(s, t, c)
    ensures WellFormed(CleanupApply(s, t, c)) && AllBacked(CleanupApply(s, t, c))
  {
    CleanupStaysWellFormed(s, t, c);
    var s' := CleanupApply(s, t, c);
    forall p, fd | Holds(s', p, fd) ensures Backed(s', p, fd) {
      CleanupKeepsHolding(s, t, c, p, fd);
    }
  }

  // ----- The connection counter and the close ledger

  ghost predicate UncountedFd(threads: map<Tid, Pc>, fd: nat) {
    exists t :: t in threads && Uncounted(threads[t]) && threads[t].event.fd == fd
  }

  /** The connections active_connections stands for: accepted and counted, and not yet
      uncounted by their cleanup. */
  ghost function Live(s: State): set<nat> {
    set fd | fd in s.open && !UncountedFd(s.threads, fd)
  }

  ghost predicate Ledger(s: State)
    requires WellFormed(s)
  {
    forall fd :: 0 <= fd < |s.slots| ==> s.accepts[fd] == s.closes[fd] + (if fd in s.open then 1 else 0)
  }

  ghost predicate CountExact(s: State) {
    s.connections == |Live(s)|
  }

  ghost predicate Ownership(s: State) {
    Owned(s) && CountExact(s) && Ledger(s)
  }

  /** Nobody but `t` owns `fd`, before or after `t` moves. */
  ghost predicate Solely(s: State, s': State, t: Tid, fd: nat) {
    && t in s'.threads && s'.threads == s.threads[t := s'.threads[t]]
    && (Owns(At(s, t)) ==> At(s, t).event.fd == fd)
    && (Owns(At(s', t)) ==> At(s', t).event.fd == fd)
    && (forall u :: u in s.threads && u != t && Owns(s.threads[u]) ==> s.threads[u].event.fd != fd)
    && (forall g :: g != fd ==> (g in s.open <==> g in s'.open))
  }

  lemma {:induction false} LiveAfter(s: State, s': State, t: Tid, fd: nat)
    requires Solely(s, s', t, fd)
    ensures Live(s') == Live(s) - {fd} + (if fd in s'.open && !Uncounted(At(s', t)) then {fd} else {})
    ensures fd in Live(s) <==> fd in s.open && !Uncounted(At(s, t))
  {
    forall g | g != fd ensures UncountedFd(s'.threads, g) <==> UncountedFd(s.threads, g) {
      if UncountedFd(s.threads, g) {
        var u :| u in s.threads && Uncounted(s.threads[u]) && s.threads[u].event.fd == g;
        assert s'.threads[u] == s.threads[u];
      }
    }
    assert UncountedFd(s.threads, fd) <==> Uncounted(At(s, t));
    assert UncountedFd(s'.threads, fd) <==> Uncounted(At(s', t));
  }

  lemma {:induction false} LiveCount(s: State, s': State, t: Tid, fd: nat)
    requires Solely(s, s', t, fd)
    ensures |Live(s')| == |Live(s)|
      - (if fd in s.open && !Uncounted(At(s, t)) then 1 else 0)
      + (if fd in s'.open && !Uncounted(At(s', t)) then 1 else 0)
  {
    LiveAfter(s, s', t, fd);
    assert |Live(s) - {fd}| == |Live(s)| - (if fd in Live(s) then 1 else 0);
  }

  lemma {:induction false} NobodyElseOwns(s: State, p: Place, fd: nat, t: Tid)
    requires OneOwner(s) && Holds(s, p, fd) && (p.InThread? ==> p.t == t)
    ensures fd in s.open
    ensures forall u :: u in s.threads && u != t && Owns(s.threads[u]) ==> s.threads[u].event.fd != fd
  {
    forall u | u in s.threads && u != t && Owns(s.threads[u]) ensures s.threads[u].event.fd != fd {
      assert Holds(s, InThread(u), s.threads[u].event.fd);
    }
  }

  lemma {:induction false} LiveUnlessOwner(s: State, s': State, t: Tid)
    requires s'.open == s.open && !Owns(At(s, t)) && !Owns(At(s', t))
    requires s'.threads - {t} == s.threads - {t}
    ensures Live(s') == Live(s)
  {
    forall g ensures UncountedFd(s'.threads, g) <==> UncountedFd(s.threads, g) {
      forall u | u != t ensures (u in s.threads <==> u in s'.threads) && (u in s.threads ==> s.threads[u] == s'.threads[u]) {
        assert u in s.threads <==> u in s.threads - {t};
        assert u in s'.threads <==> u in s'.threads - {t};
        if u in s.threads {
          assert (s.threads - {t})[u] == s.threads[u] && (s'.threads - {t})[u] == s'.threads[u];
        }
      }
    }
  }

  lemma {:induction false} AcceptKeepsCount(s: State, fd: nat)
    requires Owned(s) && CountExact(s) && LoopEnabled(s, Accept(fd))
    ensures CountExact(LoopApply(s, Accept(fd)))
  {
    forall u | u in s.threads && Owns(s.threads[u]) ensures s.threads[u].event.fd != fd {
      assert Holds(s, InThread(u), s.threads[u].event.fd);
    }
    LiveCount(s, LoopApply(s, Accept(fd)), Loop, fd);
  }

  lemma {:induction false} TakeKeepsCount(s: State)
    requires Owned(s) && CountExact(s) && LoopEnabled(s, Take)
    ensures CountExact(LoopApply(s, Take))
  {
    var fd := s.batch[s.next].fd;
    assert Holds(s, InBatch(s.next), fd) && Backed(s, InBatch(s.next), fd);
    NobodyElseOwns(s, InBatch(s.next), fd, Loop);
    LiveCount(s, LoopApply(s, Take), Loop, fd);
  }

  lemma {:induction false} OwnerKeepsCount(s: State, l: LoopStep)
    requires Owned(s) && CountExact(s) && LoopEnabled(s, l) && !l.Wake? && !l.Accept? && !l.Take?
    ensures CountExact(LoopApply(s, l))
  {
    NobodyElseOwns(s, InThread(Loop), At(s, Loop).event.fd, Loop);
    LiveCount(s, LoopApply(s, l), Loop, At(s, Loop).event.fd);
  }

  lemma {:induction false} LoopKeepsCount(s: State, l: LoopStep)
    requires Owned(s) && CountExact(s) && LoopEnabled(s, l)
    ensures CountExact(LoopApply(s, l))
  {
    if l.Wake? {
      assert Live(LoopApply(s, l)) == Live(s);
    } else if l.Accept? {
      AcceptKeepsCount(s, l.fd);
    } else if l.Take? {
      TakeKeepsCount(s);
    } else {
      OwnerKeepsCount(s, l);
    }
  }

  lemma {:induction false} WorkerKeepsCount(s: State, t: Tid, w: WorkerStep)
    requires Owned(s) && CountExact(s) && t.Worker? && WorkerEnabled(s, t, w)
    ensures CountExact(WorkerApply(s, t, w))
  {
    var s' := WorkerApply(s, t, w);
    if w.Exit? || w.Spawn? || w.Unlock? {
      assert s'.threads - {t} == s.threads - {t};
      LiveUnlessOwner(s, s', t);
    } else if w.Pop? {
      var fd := s.tasks[s.head].fd;
      NobodyElseOwns(s, InQueue(s.head), fd, t);
      LiveCount(s, s', t, fd);
    } else {
      var fd := At(s, t).event.fd;
      NobodyElseOwns(s, InThread(t), fd, t);
      assert Backed(s, InThread(t), fd);
      LiveCount(s, s', t, fd);
    }
  }

  lemma {:induction false} CleanupKeepsCount(s: State, t: Tid, c: CleanupStep)
    requires Owned(s) && CountExact(s) && CleanupEnabled(s, t, c)
    ensures CountExact(CleanupApply(s, t, c))
  {
    var s' := CleanupApply(s, t, c);
    if c.Release? {
      assert s'.threads - {t} == s.threads - {t};
      LiveUnlessOwner(s, s', t);
    } else {
      NobodyElseOwns(s, InThread(t), At(s, t).event.fd, t);
      LiveCount(s, s', t, At(s, t).event.fd);
    }
  }

  lemma {:induction false} LoopKeepsLedger(s: State, l: LoopStep)
    requires Owned(s) && Ledger(s) && LoopEnabled(s, l)
    ensures WellFormed(LoopApply(s, l)) && Ledger(LoopApply(s, l))
  {
    LoopStaysWellFormed(s, l);
    assert Owns(At(s, Loop)) ==> Holds(s, InThread(Loop), At(s, Loop).event.fd);
  }

  lemma {:induction false} WorkerKeepsLedger(s: State, t: Tid, w: WorkerStep)
    requires Owned(s) && Ledger(s) && t.Worker? && WorkerEnabled(s, t, w)
    ensures WellFormed(WorkerApply(s, t, w)) && Ledger(WorkerApply(s, t, w))
  {
    WorkerStaysWellFormed(s, t, w);
    assert Owns(At(s, t)) ==> Holds(s, InThread(t), At(s, t).event.fd);
  }

  lemma {:induction false} CleanupKeepsLedger(s: State, t: Tid, c: CleanupStep)
    requires Owned(s) && Ledger(s) && CleanupEnabled(s, t, c)
    ensures WellFormed(CleanupApply(s, t, c)) && Ledger(CleanupApply(s, t, c))
  {
    CleanupStaysWellFormed(s, t, c);
    assert Owns(At(s, t)) ==> Holds(s, InThread(t), At(s, t).event.fd);
  }

  lemma {:induction false} StepKeepsOwnership(s: State, step: Step)
    requires Ownership(s) && Enabled(s, step) && !step.OutsideClose?
    ensures Ownership(Apply(s, step))
  {
    match step
    case InLoop(l) =>
      LoopTransfers(s, l);
      LoopKeepsBacked(s, l);
      LoopKeepsCount(s, l);
      LoopKeepsLedger(s, l);
    case InWorker(id, w) =>
      WorkerTransfers(s, Worker(id), w);
      WorkerKeepsBacked(s, Worker(id), w);
      WorkerKeepsCount(s, Worker(id), w);
      WorkerKeepsLedger(s, Worker(id), w);
    case InCleanup(t, c) =>
      CleanupTransfers(s, t, c);
      CleanupKeepsBacked(s, t, c);
      CleanupKeepsCount(s, t, c);
      CleanupKeepsLedger(s, t, c);
  }

  /** In every interleaving of the server's own steps: each open connection is in exactly
      one place (armed in epoll, in the wake batch, queued once, or with one thread),
      active_connections counts the live ones, and every descriptor has been closed
      exactly once per finished lifetime. */
  lemma {:induction false} BehavioursKeepOwnership(run: seq<State>, steps: seq<Step>, n: nat)
    requires Behaviour(run, steps) && n <= |steps|
    requires forall i :: 0 <= i < n ==> !steps[i].OutsideClose?
    ensures Ownership(run[n])
  {
    if n > 0 {
      BehavioursKeepOwnership(run, steps, n - 1);
      StepKeepsOwnership(run[n - 1], steps[n - 1]);
    }
  }

  /** Hence a live descriptor has at most one task, no task is ever stale, the loop never
      meets an inactive slot, and close() is only ever called on an open descriptor. */
  lemma {:induction false} OwnershipConsequences(s: State, i: nat, j: nat, t: Tid)
    requires Ownership(s)
    ensures s.head <= i < |s.tasks| && s.head <= j < |s.tasks| && s.tasks[i].fd == s.tasks[j].fd ==> i == j
    ensures t in s.threads && CarriesTask(s.threads[t]) && !s.threads[t].stage.Rearmed? ==>
      var e := s.threads[t].event;
      ValidSlot(s.slots[e.fd], e.generation) && (s.head <= i < |s.tasks| ==> s.tasks[i].fd != e.fd)
    ensures s.next < |s.batch| ==> s.slots[s.batch[s.next].fd].active
    ensures t in s.threads && s.threads[t].stage.Shutting? ==> s.threads[t].event.fd in s.open
  {
    if s.head <= i < |s.tasks| {
      assert Holds(s, InQueue(i), s.tasks[i].fd);
    }
    if s.head <= j < |s.tasks| {
      assert Holds(s, InQueue(j), s.tasks[j].fd);
    }
    if t in s.threads && Owns(s.threads[t]) {
      assert Holds(s, InThread(t), s.threads[t].event.fd) && Backed(s, InThread(t), s.threads[t].event.fd);
    }
    if s.next < |s.batch| {
      assert Holds(s, InBatch(s.next), s.batch[s.next].fd) && Backed(s, InBatch(s.next), s.batch[s.next].fd);
    }
  }
}
