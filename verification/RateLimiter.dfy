/** The per-address rate limiter: open addressing with linear probing, and a janitor that
    empties idle slots and so may cut probe chains. */
module RateLimiter {
  import opened Bytes
  import Djb2

  const SIZE := 10007
  const STORED := 45        // bytes of an address that a slot keeps
  const IDLE := 10

  /** A slot with an empty address is free. */
  datatype Slot = Slot(ip: bytes, count: nat, windowStart: int)

  const FREE: Slot := Slot([], 0, 0)

  function Blank(n: nat): (t: seq<Slot>)
    ensures |t| == n && forall i :: 0 <= i < n ==> t[i] == FREE
  {
    if n == 0 then [] else Blank(n - 1) + [FREE]
  }

  type Table = t: seq<Slot> | |t| == SIZE witness Blank(SIZE)

  // ----- Probing

  function Home(ip: bytes): (i: nat)
    ensures i < SIZE
  {
    Djb2.Slot(ip, SIZE)
  }

  /** The slot probed in round `k`. */
  function At(ip: bytes, k: nat): (i: nat)
    ensures i < SIZE
  {
    (Home(ip) + k) % SIZE
  }

  lemma {:induction false} ProbesDiffer(ip: bytes, j: nat, k: nat)
    requires j < k < SIZE
    ensures At(ip, j) != At(ip, k)
  {
    var h := Home(ip);
    assert (h + j) % SIZE == (if h + j < SIZE then h + j else h + j - SIZE);
    assert (h + k) % SIZE == (if h + k < SIZE then h + k else h + k - SIZE);
  }

  predicate Stops(t: Table, ip: bytes, k: nat) {
    t[At(ip, k)].ip == [] || t[At(ip, k)].ip == ip
  }

  /** The first round from `k` on that finds a free slot or the address; SIZE if none does. */
  function Probe(t: Table, ip: bytes, k: nat): (j: nat)
    requires k <= SIZE
    ensures k <= j <= SIZE && (j < SIZE ==> Stops(t, ip, j))
    ensures forall i :: k <= i < j ==> !Stops(t, ip, i)
    decreases SIZE - k
  {
    if k == SIZE || Stops(t, ip, k) then k else Probe(t, ip, k + 1)
  }

  lemma {:induction false} ProbeIsFirst(t: Table, ip: bytes, k: nat)
    requires k <= SIZE && (k < SIZE ==> Stops(t, ip, k)) && forall i :: 0 <= i < k ==> !Stops(t, ip, i)
    ensures Probe(t, ip, 0) == k
  {
  }

  // ----- One request, one sweep

  datatype Answer = Answer(allowed: bool, slot: Slot)

  /** What happens to the slot a request finds. */
  function Visit(s: Slot, ip: bytes, limit: int, now: int): Answer {
    if s.ip == [] then Answer(true, Slot(if |ip| > STORED then ip[..STORED] else ip, 1, now))
    else if now > s.windowStart then Answer(true, s.(count := 1, windowStart := now))
    else if s.count < limit then Answer(true, s.(count := s.count + 1))
    else Answer(false, if s.count == limit then s.(count := s.count + 1) else s)
  }

  predicate Allowed(t: Table, ip: bytes, limit: int, now: int) {
    var k := Probe(t, ip, 0);
    ip == [] || k == SIZE || Visit(t[At(ip, k)], ip, limit, now).allowed
  }

  function Requested(t: Table, ip: bytes, limit: int, now: int): Table {
    var k := Probe(t, ip, 0);
    if ip == [] || k == SIZE then t else t[At(ip, k) := Visit(t[At(ip, k)], ip, limit, now).slot]
  }

  function SweptSlot(s: Slot, now: int): Slot {
    if s.ip != [] && now - s.windowStart > IDLE then FREE else s
  }

  function Swept(t: Table, now: int): (r: Table)
    ensures forall i :: 0 <= i < SIZE ==> r[i] == SweptSlot(t[i], now)
  {
    seq(SIZE, i requires 0 <= i < SIZE => SweptSlot(t[i], now))
  }

  class Limiter {
    const slots: array<Slot>

    ghost predicate Valid() {
      slots.Length == SIZE
    }

    ghost function Contents(): Table
      reads this, slots
      requires Valid()
    {
      slots[..]
    }

    constructor ()
      ensures Valid() && fresh(slots) && forall i :: 0 <= i < SIZE ==> Contents()[i] == FREE
    {
      slots := new Slot[SIZE](_ => FREE);
    }

    method IsRequestAllowed(ip: bytes, limit: int, now: int) returns (allowed: bool)
      requires Valid()
      modifies slots
      ensures allowed == Allowed(old(Contents()), ip, limit, now)
      ensures Contents() == Requested(old(Contents()), ip, limit, now)
    {
      if |ip| == 0 {
        return true;
      }
      var index := Home(ip);
      var i := 0;
      ghost var t := Contents();
      while i < SIZE
        invariant 0 <= i <= SIZE && Contents() == t
        invariant forall k :: 0 <= k < i ==> !Stops(t, ip, k)
      {
        var at := (index + i) % SIZE;
        assert at == At(ip, i);
        if slots[at].ip == [] || slots[at].ip == ip {
          ProbeIsFirst(t, ip, i);
          allowed := Touch(at, ip, limit, now);
          return;
        }
        i := i + 1;
      }
      ProbeIsFirst(t, ip, SIZE);
      return true;
    }

    /** The loop body once the probe has stopped at a free slot or at the address. */
    method Touch(at: nat, ip: bytes, limit: int, now: int) returns (allowed: bool)
      requires Valid() && at < SIZE && ip != []
      modifies slots
      ensures Answer(allowed, slots[at]) == Visit(old(slots[at]), ip, limit, now)
      ensures Contents() == old(Contents())[at := slots[at]]
    {
      var s := slots[at];
      if s.ip == [] {
        slots[at] := Slot(if |ip| > STORED then ip[..STORED] else ip, 1, now);
        return true;
      }
      if now > s.windowStart {
        slots[at] := s.(count := 1, windowStart := now);
        return true;
      }
      if s.count < limit {
        slots[at] := s.(count := s.count + 1);
        return true;
      }
      if s.count == limit {
        slots[at] := s.(count := s.count + 1);
      }
      return false;
    }

    method CleanOldRateLimits(now: int)
      requires Valid()
      modifies slots
      ensures Contents() == Swept(old(Contents()), now)
    {
      for i := 0 to SIZE
        invariant forall k :: 0 <= k < i ==> slots[k] == SweptSlot(old(slots[k]), now)
        invariant forall k :: i <= k < SIZE ==> slots[k] == old(slots[k])
      {
        if slots[i].ip != [] && now - slots[i].windowStart > IDLE {
          slots[i] := FREE;
        }
      }
    }
  }

  // ----- The bound

  /** The requests and sweeps of a run, in the order they got the lock. */
  datatype Event = Request(ip: bytes, now: int) | Sweep(now: int)

  function Step(t: Table, e: Event, limit: int): Table {
    match e
    case Request(ip, now) => Requested(t, ip, limit, now)
    case Sweep(now) => Swept(t, now)
  }

  function After(run: seq<Event>, limit: int): Table {
    if run == [] then Blank(SIZE) else Step(After(run[..|run| - 1], limit), run[|run| - 1], limit)
  }

  function One(b: bool): nat {
    if b then 1 else 0
  }

  /** How often `ip` is admitted in second `now`. */
  function Admitted(run: seq<Event>, limit: int, ip: bytes, now: int): nat {
    if run == [] then 0
    else
      var before, e := run[..|run| - 1], run[|run| - 1];
      Admitted(before, limit, ip, now) + One(e == Request(ip, now) && Allowed(After(before, limit), ip, limit, now))
  }

  /** How many of those requests found the table full of other addresses. */
  function Overflowing(run: seq<Event>, limit: int, ip: bytes, now: int): nat {
    if run == [] then 0
    else
      var before, e := run[..|run| - 1], run[|run| - 1];
      Overflowing(before, limit, ip, now) + One(e == Request(ip, now) && Probe(After(before, limit), ip, 0) == SIZE)
  }

  /** A request of `ip` in a later second that starts its window afresh, and so forgets what
      the window of second `now` has been charged. */
  predicate Resets(t: Table, e: Event, ip: bytes, now: int) {
    var k := Probe(t, ip, 0);
    && e.Request? && e.ip == ip && k < SIZE && t[At(ip, k)].ip == ip
    && now <= t[At(ip, k)].windowStart < e.now
  }

  /** The sweeps, and the resets, that come after a first request of `ip` in second `now`. */
  function SweepsSince(run: seq<Event>, ip: bytes, now: int): nat {
    if run == [] then 0
    else
      var before, e := run[..|run| - 1], run[|run| - 1];
      SweepsSince(before, ip, now) + One(e.Sweep? && Request(ip, now) in before)
  }

  function ResetsSince(run: seq<Event>, limit: int, ip: bytes, now: int): nat {
    if run == [] then 0
    else
      var before, e := run[..|run| - 1], run[|run| - 1];
      ResetsSince(before, limit, ip, now) + One(Resets(After(before, limit), e, ip, now) && Request(ip, now) in before)
  }

  /** The run up to its last request of `ip` in second `now`. */
  function UpToLast(run: seq<Event>, ip: bytes, now: int): (r: seq<Event>)
    ensures r <= run && (r == [] || r[|r| - 1] == Request(ip, now))
  {
    if run == [] || run[|run| - 1] == Request(ip, now) then run else UpToLast(run[..|run| - 1], ip, now)
  }

  /** The sweeps of second `now`. */
  function Sweeps(run: seq<Event>, now: int): nat {
    if run == [] then 0 else Sweeps(run[..|run| - 1], now) + One(run[|run| - 1] == Sweep(now))
  }

  ghost predicate ClockGoesForward(run: seq<Event>) {
    forall i, j :: 0 <= i < j < |run| ==> run[i].now <= run[j].now
  }

  function ChargedBy(s: Slot, ip: bytes, limit: nat, now: int): (c: nat)
    ensures c <= limit
  {
    if s.ip != ip || s.windowStart < now then 0 else if s.count < limit then s.count else limit
  }

  /** What the slot that `ip` would find has already charged it for second `now`. */
  function Charged(t: Table, ip: bytes, limit: nat, now: int): (c: nat)
    ensures c <= limit
  {
    var k := Probe(t, ip, 0);
    if k == SIZE then 0 else ChargedBy(t[At(ip, k)], ip, limit, now)
  }

  /** Where an address has been found or put it is found again. */
  lemma {:induction false} FoundAgain(t: Table, ip: bytes, limit: int, now: int)
    requires ip != [] && |ip| <= STORED && Probe(t, ip, 0) < SIZE
    ensures Probe(Requested(t, ip, limit, now), ip, 0) == Probe(t, ip, 0)
    ensures Requested(t, ip, limit, now)[At(ip, Probe(t, ip, 0))].ip == ip
  {
    var u, k := Requested(t, ip, limit, now), Probe(t, ip, 0);
    forall i | 0 <= i < k ensures !Stops(u, ip, i) {
      assert !Stops(t, ip, i);
      ProbesDiffer(ip, i, k);
    }
    ProbeIsFirst(u, ip, k);
  }

  /** A request of the address itself is charged if it is admitted. */
  lemma {:induction false} OwnRequestIsCharged(t: Table, ip: bytes, limit: nat, now: int)
    requires 0 < |ip| <= STORED && limit >= 1
    ensures One(Allowed(t, ip, limit, now)) + Charged(t, ip, limit, now)
      <= Charged(Requested(t, ip, limit, now), ip, limit, now) + One(Probe(t, ip, 0) == SIZE)
  {
    if Probe(t, ip, 0) < SIZE {
      FoundAgain(t, ip, limit, now);
    }
  }

  /** A request of another address takes nothing back. */
  lemma {:induction false} OtherRequestKeepsCharge(t: Table, other: bytes, ip: bytes, limit: nat, now: int, at: int)
    requires ip != [] && other != ip && limit >= 1
    ensures Charged(t, ip, limit, now) <= Charged(Requested(t, other, limit, at), ip, limit, now)
  {
    var u := Requested(t, other, limit, at);
    var k, m := Probe(t, ip, 0), Probe(t, other, 0);
    if u != t {
      forall i | 0 <= i < k ensures !Stops(u, ip, i) {
        assert !Stops(t, ip, i);
      }
      if k < SIZE && t[At(ip, k)].ip == ip {
        ProbeIsFirst(u, ip, k);
      }
    }
  }

  /** A request of the address with another reading keeps the charge, or resets the window
      and leaves one admission of it. */
  lemma {:induction false} OtherSecondKeepsCharge(t: Table, ip: bytes, limit: nat, now: int, other: int)
    requires 0 < |ip| <= STORED && limit >= 1
    ensures Charged(t, ip, limit, now)
      <= Charged(Requested(t, ip, limit, other), ip, limit, now)
        + if Resets(t, Request(ip, other), ip, now) then limit - 1 else 0
  {
    if Probe(t, ip, 0) < SIZE {
      FoundAgain(t, ip, limit, other);
    }
  }

  /** A sweep forgives at most one limit. */
  lemma {:induction false} SweepForgivesOnce(t: Table, ip: bytes, limit: nat, now: int, at: int)
    ensures Charged(t, ip, limit, now) <= Charged(Swept(t, at), ip, limit, now) + limit
  {
  }

  lemma {:induction false} OneMore(limit: int, n: nat)
    ensures limit * (n + 1) == limit * (1 + n) == limit * n + limit
  {
  }

  /** What a run does when one more event is appended. */
  lemma {:induction false} OneEvent(run: seq<Event>, e: Event, limit: nat, ip: bytes, now: int)
    ensures var r, t := run + [e], After(run, limit);
      && After(r, limit) == Step(t, e, limit)
      && Admitted(r, limit, ip, now) == Admitted(run, limit, ip, now) + One(e == Request(ip, now) && Allowed(t, ip, limit, now))
      && SweepsSince(r, ip, now) == SweepsSince(run, ip, now) + One(e.Sweep? && Request(ip, now) in run)
      && ResetsSince(r, limit, ip, now) == ResetsSince(run, limit, ip, now) + One(Resets(t, e, ip, now) && Request(ip, now) in run)
      && Overflowing(r, limit, ip, now) == Overflowing(run, limit, ip, now) + One(e == Request(ip, now) && Probe(t, ip, 0) == SIZE)
  {
    assert (run + [e])[..|run|] == run;
  }

  /** What a run may have admitted, short of the charge. */
  function Allowance(run: seq<Event>, limit: nat, ip: bytes, now: int): int {
    limit * SweepsSince(run, ip, now) + (limit - 1) * ResetsSince(run, limit, ip, now) + Overflowing(run, limit, ip, now)
  }

  lemma {:induction false} ResetsNothing(t: Table, e: Event, ip: bytes, now: int)
    requires e.Sweep? || e.ip != ip || e.now <= now
    ensures !Resets(t, e, ip, now)
  {
  }

  /** What one event admits is charged, and what it takes from the charge is accounted for. */
  lemma {:induction false} EventIsCharged(t: Table, e: Event, limit: nat, ip: bytes, now: int)
    requires 0 < |ip| <= STORED && limit >= 1
    ensures One(e == Request(ip, now) && Allowed(t, ip, limit, now)) + Charged(t, ip, limit, now)
      <= Charged(Step(t, e, limit), ip, limit, now) + One(e == Request(ip, now) && Probe(t, ip, 0) == SIZE)
        + (if e.Sweep? then limit else 0) + if Resets(t, e, ip, now) then limit - 1 else 0
  {
    hide Probe, Allowed, Requested, Swept, Charged, Resets;
    if e.Sweep? || e.ip != ip || e.now <= now {
      ResetsNothing(t, e, ip, now);
    }
    match e
    case Sweep(at) => SweepForgivesOnce(t, ip, limit, now, at);
    case Request(other, at) =>
      if other != ip {
        OtherRequestKeepsCharge(t, other, ip, limit, now, at);
      } else if at == now {
        OwnRequestIsCharged(t, ip, limit, now);
      } else {
        OtherSecondKeepsCharge(t, ip, limit, now, at);
      }
  }

  lemma {:induction false} StepKeepsBound(before: seq<Event>, e: Event, limit: nat, ip: bytes, now: int)
    requires 0 < |ip| <= STORED && limit >= 1 && Request(ip, now) in before
    requires Admitted(before, limit, ip, now) <= Allowance(before, limit, ip, now) + Charged(After(before, limit), ip, limit, now)
    ensures var run := before + [e];
      Admitted(run, limit, ip, now) <= Allowance(run, limit, ip, now) + Charged(After(run, limit), ip, limit, now)
  {
    hide Probe, Allowed, Requested, Swept, Charged, Resets, After, Admitted, SweepsSince, ResetsSince, Overflowing, Step;
    OneEvent(before, e, limit, ip, now);
    EventIsCharged(After(before, limit), e, limit, ip, now);
    OneMore(limit, SweepsSince(before, ip, now));
    OneMore(limit - 1, ResetsSince(before, limit, ip, now));
  }

  lemma {:induction false} NothingYet(run: seq<Event>, limit: nat, ip: bytes, now: int)
    requires Request(ip, now) !in run
    ensures Admitted(run, limit, ip, now) == 0
  {
    if run != [] {
      assert run[|run| - 1] in run;
      NothingYet(run[..|run| - 1], limit, ip, now);
    }
  }

  lemma {:induction false} FirstIsCovered(run: seq<Event>, limit: nat, ip: bytes, now: int)
    requires 0 < |ip| <= STORED && limit >= 1 && run != [] && Request(ip, now) !in run[..|run| - 1]
    ensures Admitted(run, limit, ip, now) <= Allowance(run, limit, ip, now) + Charged(After(run, limit), ip, limit, now)
  {
    hide Probe, Allowed, Requested, Swept, Charged, Resets;
    var before, e := run[..|run| - 1], run[|run| - 1];
    NothingYet(before, limit, ip, now);
    if e == Request(ip, now) {
      OwnRequestIsCharged(After(before, limit), ip, limit, now);
    }
    assert limit * SweepsSince(run, ip, now) >= 0 && (limit - 1) * ResetsSince(run, limit, ip, now) >= 0;
  }

  /** Admissions are covered by the allowance and the charge, in any order of readings. */
  lemma {:induction false} BoundSoFar(run: seq<Event>, limit: nat, ip: bytes, now: int)
    requires 0 < |ip| <= STORED && limit >= 1
    ensures Admitted(run, limit, ip, now) <= Allowance(run, limit, ip, now) + Charged(After(run, limit), ip, limit, now)
  {
    if run == [] {
    } else {
      hide Allowance, Admitted, Charged, After;
      var before, e := run[..|run| - 1], run[|run| - 1];
      if Request(ip, now) in before {
        BoundSoFar(before, limit, ip, now);
        StepKeepsBound(before, e, limit, ip, now);
        assert run == before + [e];
      } else {
        FirstIsCovered(run, limit, ip, now);
      }
    }
  }

  lemma {:induction false} RestAdmitsNothing(run: seq<Event>, limit: nat, ip: bytes, now: int)
    ensures var r := UpToLast(run, ip, now);
      && Admitted(run, limit, ip, now) == Admitted(r, limit, ip, now)
      && Overflowing(run, limit, ip, now) == Overflowing(r, limit, ip, now)
  {
    if run != [] && run[|run| - 1] != Request(ip, now) {
      RestAdmitsNothing(run[..|run| - 1], limit, ip, now);
    }
  }

  /** In whatever order the clock readings get the lock, an address is admitted in one second
      at most limit times one more than the sweeps between its first and its last request of
      that second, and limit - 1 times more for each window reset between them by one of its
      requests with a later reading, not counting requests that found the table full. */
  lemma {:induction false} RateBoundAnyClock(run: seq<Event>, limit: nat, ip: bytes, now: int)
    requires 0 < |ip| <= STORED && limit >= 1
    ensures var r := UpToLast(run, ip, now);
      Admitted(run, limit, ip, now)
        <= limit * (1 + SweepsSince(r, ip, now)) + (limit - 1) * ResetsSince(r, limit, ip, now) + Overflowing(run, limit, ip, now)
  {
    hide UpToLast, Admitted, SweepsSince, ResetsSince, Overflowing, After, Probe;
    var r := UpToLast(run, ip, now);
    RestAdmitsNothing(run, limit, ip, now);
    BoundSoFar(r, limit, ip, now);
    OneMore(limit, SweepsSince(r, ip, now));
  }

  /** Readings in order: nothing is reset, and only sweeps of the same second come between. */
  lemma {:induction false} OrderedReadings(run: seq<Event>, limit: nat, ip: bytes, now: int)
    requires ClockGoesForward(run) && (run == [] || run[|run| - 1].now <= now)
    ensures SweepsSince(run, ip, now) <= Sweeps(run, now) && ResetsSince(run, limit, ip, now) == 0
  {
    if run != [] {
      var before, e := run[..|run| - 1], run[|run| - 1];
      assert Request(ip, now) in before ==> e.now == now;
      OrderedReadings(before, limit, ip, now);
    }
  }

  lemma {:induction false} SweepsGrow(r: seq<Event>, run: seq<Event>, now: int)
    requires r <= run
    ensures Sweeps(r, now) <= Sweeps(run, now)
  {
    if |r| < |run| {
      SweepsGrow(r, run[..|run| - 1], now);
    } else {
      assert r == run;
    }
  }

  lemma {:induction false} MoreSweepsMore(limit: nat, m: nat, n: nat)
    requires m <= n
    ensures limit * (1 + m) <= limit * (1 + n)
  {
    if m < n {
      MoreSweepsMore(limit, m, n - 1);
      OneMore(limit, n);
    }
  }

  /** With readings in order that is at most limit times one more than the sweeps of that
      second, not counting requests that found the table full. */
  lemma {:induction false} RateBound(run: seq<Event>, limit: nat, ip: bytes, now: int)
    requires 0 < |ip| <= STORED && limit >= 1 && ClockGoesForward(run)
    ensures Admitted(run, limit, ip, now) <= limit * (1 + Sweeps(run, now)) + Overflowing(run, limit, ip, now)
  {
    hide Admitted, SweepsSince, ResetsSince, Overflowing, Sweeps, UpToLast, After, Probe;
    var r := UpToLast(run, ip, now);
    RateBoundAnyClock(run, limit, ip, now);
    OrderedReadings(r, limit, ip, now);
    SweepsGrow(r, run, now);
    assert (limit - 1) * ResetsSince(r, limit, ip, now) == 0;
    MoreSweepsMore(limit, SweepsSince(r, ip, now), Sweeps(run, now));
  }

  // ----- The bound is reached

  /** Every slot on the path of a refused address is taken, by others but for the last. */
  lemma {:induction false} RefusedPath(t: Table, ip: bytes, limit: int, now: int, i: nat)
    requires !Allowed(t, ip, limit, now) && i <= Probe(t, ip, 0)
    ensures t[At(ip, i)].ip != [] && (i < Probe(t, ip, 0) <==> t[At(ip, i)].ip != ip)
    ensures i == Probe(t, ip, 0) ==> t[At(ip, i)].windowStart >= now
  {
    assert i < Probe(t, ip, 0) ==> !Stops(t, ip, i);
  }

  lemma {:induction false} SweptPathAdmits(t: Table, ip: bytes, limit: int, now: int, at: int, i: nat)
    requires !Allowed(t, ip, limit, now)
    requires i <= Probe(t, ip, 0) && at - t[At(ip, i)].windowStart > IDLE
    ensures Allowed(Swept(t, at), ip, limit, now)
  {
    var u := Swept(t, at);
    var m := Probe(u, ip, 0);
    RefusedPath(t, ip, limit, now, i);
    assert u[At(ip, i)] == FREE && Stops(u, ip, i) && m <= i;
    RefusedPath(t, ip, limit, now, m);
    assert u[At(ip, m)] == SweptSlot(t[At(ip, m)], at);
    assert m == Probe(t, ip, 0) ==> m == i;
  }

  lemma {:induction false} UntouchedPathRefuses(t: Table, ip: bytes, limit: int, now: int, at: int)
    requires !Allowed(t, ip, limit, now)
    requires forall i :: 0 <= i <= Probe(t, ip, 0) ==> at - t[At(ip, i)].windowStart <= IDLE
    ensures !Allowed(Swept(t, at), ip, limit, now)
  {
    var k, u := Probe(t, ip, 0), Swept(t, at);
    forall i | 0 <= i <= k ensures u[At(ip, i)] == t[At(ip, i)] {
      assert u[At(ip, i)] == SweptSlot(t[At(ip, i)], at);
    }
    forall i | 0 <= i < k ensures !Stops(u, ip, i) {
      assert !Stops(t, ip, i);
    }
    ProbeIsFirst(u, ip, k);
  }

  /** A refused address is let in by a sweep exactly if the sweep frees a slot on its probe
      path, its own included. */
  lemma {:induction false} SweepLetsInAgain(t: Table, ip: bytes, limit: int, now: int, at: int)
    requires !Allowed(t, ip, limit, now)
    ensures Allowed(Swept(t, at), ip, limit, now) <==>
      exists i :: 0 <= i <= Probe(t, ip, 0) && at - t[At(ip, i)].windowStart > IDLE
    ensures Allowed(Swept(t, now), ip, limit, now) <==>
      exists i :: 0 <= i < Probe(t, ip, 0) && now - t[At(ip, i)].windowStart > IDLE
  {
    hide Probe, Allowed, Swept, At;
    RefusedPath(t, ip, limit, now, Probe(t, ip, 0));
    forall w | w == at || w == now
      ensures Allowed(Swept(t, w), ip, limit, now) <==>
        exists i :: 0 <= i <= Probe(t, ip, 0) && w - t[At(ip, i)].windowStart > IDLE
    {
      if i :| 0 <= i <= Probe(t, ip, 0) && w - t[At(ip, i)].windowStart > IDLE {
        SweptPathAdmits(t, ip, limit, now, w, i);
      } else {
        UntouchedPathRefuses(t, ip, limit, now, w);
      }
    }
  }

  /** `n` requests in a row. */
  function Burst(ip: bytes, now: int, n: nat): (r: seq<Event>)
    ensures |r| == n && forall i :: 0 <= i < n ==> r[i] == Request(ip, now)
  {
    if n == 0 then [] else Burst(ip, now, n - 1) + [Request(ip, now)]
  }

  /** The counts of a run: admitted, swept, reset and overflowing. */
  datatype Counts = Counts(admitted: nat, sweeps: nat, resets: nat, overflowing: nat)

  function CountsOf(run: seq<Event>, limit: nat, ip: bytes, now: int): Counts {
    Counts(Admitted(run, limit, ip, now), SweepsSince(run, ip, now), ResetsSince(run, limit, ip, now),
           Overflowing(run, limit, ip, now))
  }

  /** One more request, admitted into the slot at the end of its probe path. */
  lemma {:induction false} OneIsAdmitted(run: seq<Event>, limit: nat, ip: bytes, now: int, s: Slot)
    requires var t := After(run, limit);
      0 < |ip| <= STORED && Probe(t, ip, 0) < SIZE && t[At(ip, Probe(t, ip, 0))] == s
    requires limit >= 1 && (s.ip == [] || (s.windowStart >= now && s.count < limit))
    ensures var c, t, r := CountsOf(run, limit, ip, now), After(run, limit), run + [Request(ip, now)];
      && CountsOf(r, limit, ip, now) == c.(admitted := c.admitted + 1)
      && After(r, limit) == t[At(ip, Probe(t, ip, 0)) := if s.ip == [] then Slot(ip, 1, now) else s.(count := s.count + 1)]
      && Probe(After(r, limit), ip, 0) == Probe(t, ip, 0)
  {
    hide Probe, At, Resets, After, Admitted, SweepsSince, ResetsSince, Overflowing;
    OneEvent(run, Request(ip, now), limit, ip, now);
    ResetsNothing(After(run, limit), Request(ip, now), ip, now);
    FoundAgain(After(run, limit), ip, limit, now);
  }

  /** The slot after that many more requests have been admitted. */
  function Filled(s: Slot, ip: bytes, now: int, n: nat): Slot {
    if s.ip != [] then s.(count := s.count + n) else if n == 0 then s else Slot(ip, n, now)
  }

  /** A burst is admitted as far as the slot at the end of the probe path has room for it. */
  lemma {:induction false} BurstIsAdmitted(run: seq<Event>, limit: nat, ip: bytes, now: int, at: nat, s: Slot, n: nat)
    requires 0 < |ip| <= STORED && limit >= 1
    requires var t := After(run, limit);
      Probe(t, ip, 0) < SIZE && at == At(ip, Probe(t, ip, 0)) && t[at] == s
    requires if s.ip == [] then n <= limit else s.windowStart >= now && s.count + n <= limit
    ensures var c, t, r := CountsOf(run, limit, ip, now), After(run, limit), run + Burst(ip, now, n);
      && CountsOf(r, limit, ip, now) == c.(admitted := c.admitted + n)
      && After(r, limit) == t[at := Filled(s, ip, now, n)]
      && Probe(After(r, limit), ip, 0) == Probe(t, ip, 0)
    decreases n
  {
    hide Probe, At, After, CountsOf;
    if n == 0 {
      assert run + Burst(ip, now, 0) == run;
      assert After(run, limit)[at := s] == After(run, limit);
    } else {
      var mid := run + Burst(ip, now, n - 1);
      assert run + Burst(ip, now, n) == mid + [Request(ip, now)];
      BurstIsAdmitted(run, limit, ip, now, at, s, n - 1);
      OneIsAdmitted(mid, limit, ip, now, Filled(s, ip, now, n - 1));
    }
  }

  /** Two addresses with the same home slot, 2.1.0.9 and 3.8.9.1. */
  const FIRST: bytes := [50, 46, 49, 46, 48, 46, 57]
  const SECOND: bytes := [51, 46, 56, 46, 57, 46, 49]

  lemma {:induction false} HashStep(s: bytes, hash: nat)
    requires s != []
    ensures Djb2.Hash64(s, hash) == Djb2.Hash64(s[1..], (hash * 33 + Djb2.Signed(s[0])) % 0x1_0000_0000_0000_0000)
    ensures |s| == 1 ==> Djb2.Hash64(s, hash) == (hash * 33 + Djb2.Signed(s[0])) % 0x1_0000_0000_0000_0000
  {
  }

  lemma {:induction false} FirstHash()
    ensures Djb2.Hash64(FIRST, 5381) == 229396275102843
  {
    hide Djb2.Hash64;
    HashStep([50, 46, 49, 46, 48, 46, 57], 5381);
    HashStep([46, 49, 46, 48, 46, 57], 177623);
    HashStep([49, 46, 48, 46, 57], 5861605);
    HashStep([46, 48, 46, 57], 193433014);
    HashStep([48, 46, 57], 6383289508);
    HashStep([46, 57], 210648553812);
    HashStep([57], 6951402275842);
  }

  lemma {:induction false} SecondHash()
    ensures Djb2.Hash64(SECOND, 5381) == 229397574882052
  {
    hide Djb2.Hash64;
    HashStep([51, 46, 56, 46, 57, 46, 49], 5381);
    HashStep([46, 56, 46, 57, 46, 49], 177624);
    HashStep([56, 46, 57, 46, 49], 5861638);
    HashStep([46, 57, 46, 49], 193434110);
    HashStep([57, 46, 49], 6383325676);
    HashStep([46, 49], 210649747365);
    HashStep([49], 6951441663091);
  }

  lemma {:induction false} SameHome()
    ensures Home(FIRST) == Home(SECOND) && FIRST != SECOND && |FIRST| == |SECOND| == 7
  {
    hide Djb2.Hash64;
    FirstHash();
    SecondHash();
    assert FIRST[0] != SECOND[0];
  }

  lemma {:induction false} NothingRun(limit: nat, ip: bytes, now: int)
    ensures After([], limit) == Blank(SIZE) && CountsOf([], limit, ip, now) == Counts(0, 0, 0, 0)
    ensures Probe(Blank(SIZE), ip, 0) == 0 && At(ip, 0) == Home(ip) && Blank(SIZE)[Home(ip)] == FREE
  {
    hide Home;
    assert Home(ip) % SIZE == Home(ip);
    ProbeIsFirst(Blank(SIZE), ip, 0);
  }

  /** The first address has come long ago, and is in the way of the second. */
  lemma {:induction false} FirstIsInTheWay(limit: nat, now: int)
    requires limit >= 1
    ensures var r, t := [Request(FIRST, 0)], Blank(SIZE)[Home(SECOND) := Slot(FIRST, 1, 0)];
      && After(r, limit) == t && CountsOf(r, limit, SECOND, now) == Counts(0, 0, 0, 0)
      && Probe(t, SECOND, 0) == 1 && t[At(SECOND, 1)] == FREE && At(SECOND, 1) != Home(SECOND)
      && At(SECOND, 0) == Home(SECOND)
  {
    hide Home, Probe, Admitted, SweepsSince, ResetsSince, Overflowing, Resets, After, FIRST, SECOND;
    SameHome();
    NothingRun(limit, FIRST, 0);
    NothingRun(limit, SECOND, now);
    var r, t := [Request(FIRST, 0)], Blank(SIZE)[Home(SECOND) := Slot(FIRST, 1, 0)];
    assert [] + r == r;
    OneEvent([], r[0], limit, SECOND, now);
    OneIsAdmitted([], limit, FIRST, 0, FREE);
    ResetsNothing(Blank(SIZE), r[0], SECOND, now);
    ProbesDiffer(SECOND, 0, 1);
    ProbeIsFirst(t, SECOND, 1);
  }

  /** The second address, when the slot before its own has gone idle: its whole second again
      after one sweep, which is all the bound allows. */
  lemma {:induction false} SweepDoublesLimit(limit: nat) returns (run: seq<Event>)
    requires limit >= 1
    ensures run == [Request(FIRST, 0)] + Burst(SECOND, 20, limit) + [Sweep(20)] + Burst(SECOND, 20, limit)
    ensures CountsOf(run, limit, SECOND, 20) == Counts(2 * limit, 1, 0, 0)
  {
    hide Home, At, Probe, Admitted, SweepsSince, ResetsSince, Overflowing, Resets, After, Requested, Swept, FIRST, SECOND;
    var h, at := Home(SECOND), At(SECOND, 1);
    SameHome();
    FirstIsInTheWay(limit, 20);
    var r1 := [Request(FIRST, 0)];
    BurstIsAdmitted(r1, limit, SECOND, 20, at, FREE, limit);
    var r2 := r1 + Burst(SECOND, 20, limit);
    assert r2[1] == Request(SECOND, 20);
    OneEvent(r2, Sweep(20), limit, SECOND, 20);
    ResetsNothing(After(r2, limit), Sweep(20), SECOND, 20);
    var r3 := r2 + [Sweep(20)];
    assert After(r3, limit)[h] == SweptSlot(Slot(FIRST, 1, 0), 20);
    ProbeIsFirst(After(r3, limit), SECOND, 0);
    BurstIsAdmitted(r3, limit, SECOND, 20, h, FREE, limit);
    run := r3 + Burst(SECOND, 20, limit);
  }

  /** A request a second later starts the window of its slot afresh. */
  lemma {:induction false} LaterRequestResets(run: seq<Event>, limit: nat, ip: bytes, now: int, count: nat)
    requires Request(ip, now) in run && 0 < |ip| <= STORED
    requires var t := After(run, limit);
      Probe(t, ip, 0) == 0 && t[At(ip, 0)] == Slot(ip, count, now)
    ensures var c, t, r := CountsOf(run, limit, ip, now), After(run, limit), run + [Request(ip, now + 1)];
      && CountsOf(r, limit, ip, now) == c.(resets := c.resets + 1)
      && After(r, limit) == t[At(ip, 0) := Slot(ip, 1, now + 1)] && Probe(After(r, limit), ip, 0) == 0
  {
    hide Home, At, Probe, Admitted, SweepsSince, ResetsSince, Overflowing, After;
    OneEvent(run, Request(ip, now + 1), limit, ip, now);
    FoundAgain(After(run, limit), ip, limit, now + 1);
  }

  /** A request that read the clock a second later and got the lock in between gives the rest
      of the second back, which is all the bound allows; with limit 2 the readings are 10, 10,
      11, 10. */
  lemma {:induction false} LateReadingAdmitsMore(ip: bytes, limit: nat) returns (run: seq<Event>)
    requires 0 < |ip| <= STORED && limit >= 1
    ensures run == Burst(ip, 10, limit) + [Request(ip, 11)] + Burst(ip, 10, limit - 1)
    ensures CountsOf(run, limit, ip, 10) == Counts(2 * limit - 1, 0, 1, 0)
  {
    hide Home, At, Probe, After, CountsOf;
    NothingRun(limit, ip, 10);
    BurstIsAdmitted([], limit, ip, 10, Home(ip), FREE, limit);
    var r1 := Burst(ip, 10, limit);
    assert [] + r1 == r1 && r1[0] in r1;
    LaterRequestResets(r1, limit, ip, 10, limit);
    var r2 := r1 + [Request(ip, 11)];
    BurstIsAdmitted(r2, limit, ip, 10, Home(ip), Slot(ip, 1, 11), limit - 1);
    run := r2 + Burst(ip, 10, limit - 1);
  }

  // ----- Addresses longer than a slot

  /** An address too long for a slot is never recognised, so it is never refused, whatever
      the table holds. Addresses come in a 45-byte buffer, so none of the server's own is. */
  lemma {:induction false} LongAddressIsNeverLimited(t: Table, ip: bytes, limit: int, now: int)
    requires |ip| > STORED && forall i :: 0 <= i < SIZE ==> |t[i].ip| <= STORED
    ensures Allowed(t, ip, limit, now)
  {
  }

  /** No slot ever holds more than fits. */
  lemma {:induction false} SlotsAreShort(run: seq<Event>, limit: int)
    ensures forall i :: 0 <= i < SIZE ==> |After(run, limit)[i].ip| <= STORED
  {
    if run != [] {
      SlotsAreShort(run[..|run| - 1], limit);
    }
  }

  // ----- Without sweeps: the table is a map

  /** What the limiter knows of an address. */
  datatype Record = Record(count: nat, windowStart: int)

  function RecordOf(s: Slot): Record {
    Record(s.count, s.windowStart)
  }

  ghost predicate Found(t: Table, ip: bytes) {
    Probe(t, ip, 0) < SIZE && t[At(ip, Probe(t, ip, 0))].ip == ip
  }

  /** Each address has one slot, on its own probe path, with no free slot before it, and
      the slot holds what the map says. */
  ghost predicate Represents(t: Table, m: map<bytes, Record>) {
    && (forall i :: 0 <= i < SIZE && t[i].ip != [] ==> t[i].ip in m && m[t[i].ip] == RecordOf(t[i]))
    && (forall ip :: ip in m ==> ip != [] && |ip| <= STORED && Found(t, ip))
    && (forall i, j :: 0 <= i < j < SIZE && t[i].ip != [] ==> t[i].ip != t[j].ip)
  }

  /** The limiter on a map: the answer, and the record afterwards. */
  function MapVisit(m: map<bytes, Record>, ip: bytes, limit: int, now: int): (bool, Record) {
    if ip !in m || now > m[ip].windowStart then (true, Record(1, now))
    else if m[ip].count < limit then (true, m[ip].(count := m[ip].count + 1))
    else (false, if m[ip].count == limit then m[ip].(count := m[ip].count + 1) else m[ip])
  }

  /** A request of `other` leaves the path of an address that has its slot as it was. */
  lemma {:induction false} PathSurvives(t: Table, other: bytes, ip: bytes, limit: int, now: int)
    requires other != [] && ip != [] && |other| <= STORED && Found(t, ip)
    ensures Found(Requested(t, other, limit, now), ip)
  {
    var u := Requested(t, other, limit, now);
    var k := Probe(t, ip, 0);
    forall i | 0 <= i < k ensures !Stops(u, ip, i) {
      assert !Stops(t, ip, i);
    }
    ProbeIsFirst(u, ip, k);
  }

  /** An address the map does not know is in no slot, and the probe for it ends at a free
      one; an address it knows has its record where the probe ends. */
  lemma {:induction false} ProbeAsksMap(t: Table, m: map<bytes, Record>, ip: bytes)
    requires Represents(t, m) && 0 < |ip| <= STORED && Probe(t, ip, 0) < SIZE
    ensures var s := t[At(ip, Probe(t, ip, 0))];
      if ip in m then s.ip == ip && RecordOf(s) == m[ip] else s.ip == []
  {
  }

  lemma {:induction false} AnswersAgree(t: Table, m: map<bytes, Record>, ip: bytes, limit: int, now: int)
    requires Represents(t, m) && 0 < |ip| <= STORED && Probe(t, ip, 0) < SIZE
    ensures Allowed(t, ip, limit, now) == MapVisit(m, ip, limit, now).0
    ensures var s := Requested(t, ip, limit, now)[At(ip, Probe(t, ip, 0))];
      s.ip == ip && RecordOf(s) == MapVisit(m, ip, limit, now).1
  {
    ProbeAsksMap(t, m, ip);
  }

  lemma {:induction false} SlotsAgree(t: Table, m: map<bytes, Record>, ip: bytes, limit: int, now: int, i: nat)
    requires Represents(t, m) && 0 < |ip| <= STORED && Probe(t, ip, 0) < SIZE
    requires i < SIZE && Requested(t, ip, limit, now)[i].ip != []
    ensures var s, m' := Requested(t, ip, limit, now)[i], m[ip := MapVisit(m, ip, limit, now).1];
      s.ip in m' && m'[s.ip] == RecordOf(s)
  {
    AnswersAgree(t, m, ip, limit, now);
    ProbeAsksMap(t, m, ip);
    if i != At(ip, Probe(t, ip, 0)) {
      assert t[i].ip in m;
      assert ip in m ==> t[i].ip != ip;
    }
  }

  lemma {:induction false} KnownAreFound(t: Table, m: map<bytes, Record>, ip: bytes, limit: int, now: int, other: bytes)
    requires Represents(t, m) && 0 < |ip| <= STORED && Probe(t, ip, 0) < SIZE
    requires other in m || other == ip
    ensures other != [] && |other| <= STORED && Found(Requested(t, ip, limit, now), other)
  {
    if other in m {
      PathSurvives(t, ip, other, limit, now);
    } else {
      FoundAgain(t, ip, limit, now);
    }
  }

  lemma {:induction false} UniqueAfterwards(t: Table, m: map<bytes, Record>, ip: bytes, limit: int, now: int)
    requires Represents(t, m) && 0 < |ip| <= STORED && Probe(t, ip, 0) < SIZE
    ensures var u := Requested(t, ip, limit, now);
      forall i, j :: 0 <= i < j < SIZE && u[i].ip != [] ==> u[i].ip != u[j].ip
  {
    var at := At(ip, Probe(t, ip, 0));
    assert t[at].ip == [] ==> forall i :: 0 <= i < SIZE ==> t[i].ip != ip;
  }

  /** The table does to a request exactly what the map does, unless the table is full and
      does not know the address. */
  lemma {:induction false} RequestRefinesMap(t: Table, m: map<bytes, Record>, ip: bytes, limit: int, now: int)
    requires Represents(t, m) && 0 < |ip| <= STORED && Probe(t, ip, 0) < SIZE
    ensures Allowed(t, ip, limit, now) == MapVisit(m, ip, limit, now).0
    ensures Represents(Requested(t, ip, limit, now), m[ip := MapVisit(m, ip, limit, now).1])
  {
    var u := Requested(t, ip, limit, now);
    var m' := m[ip := MapVisit(m, ip, limit, now).1];
    AnswersAgree(t, m, ip, limit, now);
    forall i | 0 <= i < SIZE && u[i].ip != [] ensures u[i].ip in m' && m'[u[i].ip] == RecordOf(u[i]) {
      SlotsAgree(t, m, ip, limit, now, i);
    }
    forall other | other in m' ensures other != [] && |other| <= STORED && Found(u, other) {
      KnownAreFound(t, m, ip, limit, now, other);
    }
    UniqueAfterwards(t, m, ip, limit, now);
  }

  /** Only requests that find a slot. */
  ghost predicate NeverFull(run: seq<Event>, limit: int) {
    forall i | 0 <= i < |run| :: run[i].Request? && 0 < |run[i].ip| <= STORED
      && Probe(After(run[..i], limit), run[i].ip, 0) < SIZE
  }

  function MapAfter(run: seq<Event>, limit: int): map<bytes, Record> {
    if run == [] then map[]
    else
      var m, e := MapAfter(run[..|run| - 1], limit), run[|run| - 1];
      if e.Request? then m[e.ip := MapVisit(m, e.ip, limit, e.now).1] else m
  }

  lemma {:induction false} NeverFullBefore(run: seq<Event>, limit: int)
    requires run != [] && NeverFull(run, limit)
    ensures var before, e := run[..|run| - 1], run[|run| - 1];
      NeverFull(before, limit) && e.Request? && 0 < |e.ip| <= STORED && Probe(After(before, limit), e.ip, 0) < SIZE
  {
    hide Probe, After;
    var before := run[..|run| - 1];
    forall i | 0 <= i < |before| ensures before[i] == run[i] && before[..i] == run[..i] {
    }
  }

  /** Over any run without sweeps, the table is the map of what was asked. */
  lemma {:induction false} RunRefinesMap(run: seq<Event>, limit: int)
    requires NeverFull(run, limit)
    ensures Represents(After(run, limit), MapAfter(run, limit))
  {
    if run == [] {
    } else {
      hide Represents, Requested, Probe, NeverFull;
      var before, e := run[..|run| - 1], run[|run| - 1];
      NeverFullBefore(run, limit);
      RunRefinesMap(before, limit);
      RequestRefinesMap(After(before, limit), MapAfter(before, limit), e.ip, limit, e.now);
    }
  }
}
