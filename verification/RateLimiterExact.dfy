/** What the rate limiter answers, slot by slot and second by second. */
module RateLimiterExact {
  import opened Bytes
  import opened RateLimiter

  // ----- One request

  /** The slot `k` places on from the home slot. */
  function Place(ip: bytes, k: nat): (i: nat)
    ensures i < 10007
  {
    (Home(ip) + k) % 10007
  }

  /** The first `k` slots from home are taken by others. */
  predicate Passed(t: Table, ip: bytes, k: nat) {
    forall i :: 0 <= i < k ==> t[Place(ip, i)].ip != [] && t[Place(ip, i)].ip != ip
  }

  lemma {:induction false} PassedIsProbed(t: Table, ip: bytes, k: nat)
    requires k <= 10007 && Passed(t, ip, k)
    requires k < 10007 ==> t[Place(ip, k)].ip == [] || t[Place(ip, k)].ip == ip
    ensures Probe(t, ip, 0) == k && (k < 10007 ==> At(ip, k) == Place(ip, k))
  {
    forall i | 0 <= i < k ensures !Stops(t, ip, i) {
      assert At(ip, i) == Place(ip, i);
    }
    ProbeIsFirst(t, ip, k);
  }

  /** Without an address, or with every slot taken by others, a request is allowed and
      nothing is noted. */
  lemma {:induction false} NobodyIsAllowed(t: Table, ip: bytes, limit: int, now: int)
    requires ip == [] || Passed(t, ip, 10007)
    ensures Allowed(t, ip, limit, now) && Requested(t, ip, limit, now) == t
  {
    if ip != [] {
      PassedIsProbed(t, ip, 10007);
    }
  }

  /** The first free slot is taken, and the request allowed. */
  lemma {:induction false} NewcomerIsAllowed(t: Table, ip: bytes, limit: int, now: int, k: nat)
    requires 0 < |ip| <= 45 && k < 10007 && Passed(t, ip, k) && t[Place(ip, k)].ip == []
    ensures Allowed(t, ip, limit, now) && Requested(t, ip, limit, now) == t[Place(ip, k) := Slot(ip, 1, now)]
  {
    PassedIsProbed(t, ip, k);
  }

  /** In a later second than the last one noted, the count starts again at one; in that second
      or with an earlier reading a request is allowed exactly while the count is below the
      limit, and the count stops one above it. */
  lemma {:induction false} KnownIsCounted(t: Table, ip: bytes, limit: int, now: int, k: nat)
    requires ip != [] && k < 10007 && Passed(t, ip, k) && t[Place(ip, k)].ip == ip
    ensures var s := t[Place(ip, k)];
      && (Allowed(t, ip, limit, now) <==> now > s.windowStart || s.count < limit)
      && Requested(t, ip, limit, now) == t[Place(ip, k) :=
           if now > s.windowStart then Slot(ip, 1, now)
           else if s.count <= limit then Slot(ip, s.count + 1, s.windowStart)
           else s]
  {
    PassedIsProbed(t, ip, k);
  }

  /** A sweep frees the slots of which the second is eleven or more ago, and no others. */
  lemma {:induction false} SweepFreesIdle(t: Table, now: int, i: nat)
    requires i < 10007 && t[i].ip != []
    ensures Swept(t, now)[i] == if now - t[i].windowStart >= 11 then Slot([], 0, 0) else t[i]
  {
  }

  // ----- A run

  /** How often `ip` asks in second `now`. */
  function Asked(run: seq<Event>, ip: bytes, now: int): nat {
    if run == [] then 0
    else Asked(run[..|run| - 1], ip, now) + if run[|run| - 1] == Request(ip, now) then 1 else 0
  }

  function Least(a: nat, b: nat): nat {
    if a < b then a else b
  }

  /** What is known of an address that has asked `n` times in a second that is not over. */
  ghost predicate Noted(m: map<bytes, Record>, ip: bytes, limit: nat, now: int, n: nat) {
    if n == 0 then ip in m ==> m[ip].windowStart < now
    else ip in m && m[ip] == Record(Least(n, limit + 1), now)
  }

  lemma {:induction false} RequestIsNoted(m: map<bytes, Record>, ip: bytes, limit: nat, now: int, n: nat, e: Event)
    requires limit >= 1 && Noted(m, ip, limit, now, n) && e.Request? && e.now <= now
    requires n > 0 ==> e.now == now
    ensures Noted(m[e.ip := MapVisit(m, e.ip, limit, e.now).1], ip, limit, now, if e == Request(ip, now) then n + 1 else n)
    ensures e == Request(ip, now) ==> (MapVisit(m, ip, limit, now).0 <==> n < limit)
  {
  }

  ghost predicate Over(run: seq<Event>, now: int) {
    forall i :: 0 <= i < |run| ==> run[i].now <= now
  }

  lemma {:induction false} AskedInTime(run: seq<Event>, ip: bytes, now: int)
    requires Asked(run, ip, now) > 0
    ensures Request(ip, now) in run
  {
    if run[|run| - 1] != Request(ip, now) {
      AskedInTime(run[..|run| - 1], ip, now);
    }
  }

  lemma {:induction false} AskedBefore(run: seq<Event>, ip: bytes, now: int)
    requires run != [] && ClockGoesForward(run) && Over(run, now) && Asked(run[..|run| - 1], ip, now) > 0
    ensures run[|run| - 1].now == now
  {
    AskedInTime(run[..|run| - 1], ip, now);
  }

  lemma {:induction false} LastEvent(run: seq<Event>, limit: nat, ip: bytes, now: int)
    requires run != [] && run[|run| - 1].Request?
    ensures var before, e := run[..|run| - 1], run[|run| - 1];
      && Asked(run, ip, now) == (if e == Request(ip, now) then Asked(before, ip, now) + 1 else Asked(before, ip, now))
      && Admitted(run, limit, ip, now) == Admitted(before, limit, ip, now) + One(e == Request(ip, now) && Allowed(After(before, limit), ip, limit, now))
      && MapAfter(run, limit) == MapAfter(before, limit)[e.ip := MapVisit(MapAfter(before, limit), e.ip, limit, e.now).1]
  {
    hide Allowed, MapVisit, After;
  }

  lemma {:induction false} RunAgrees(run: seq<Event>, limit: nat)
    requires run != [] && NeverFull(run, limit)
    ensures var before, e := run[..|run| - 1], run[|run| - 1];
      && NeverFull(before, limit) && e.Request?
      && Allowed(After(before, limit), e.ip, limit, e.now) == MapVisit(MapAfter(before, limit), e.ip, limit, e.now).0
  {
    hide NeverFull, Represents, Allowed, Probe, MapVisit, After, MapAfter;
    var before, e := run[..|run| - 1], run[|run| - 1];
    NeverFullBefore(run, limit);
    RunRefinesMap(before, limit);
    RequestRefinesMap(After(before, limit), MapAfter(before, limit), e.ip, limit, e.now);
  }

  lemma {:induction false} SecondSoFar(run: seq<Event>, limit: nat, ip: bytes, now: int)
    requires limit >= 1 && NeverFull(run, limit) && ClockGoesForward(run) && Over(run, now)
    ensures Noted(MapAfter(run, limit), ip, limit, now, Asked(run, ip, now))
    ensures Admitted(run, limit, ip, now) == Least(Asked(run, ip, now), limit)
  {
    if run != [] {
      var before, e := run[..|run| - 1], run[|run| - 1];
      RunAgrees(run, limit);
      assert ClockGoesForward(before) && Over(before, now) && e.now <= now;
      LastEvent(run, limit, ip, now);
      hide NeverFull, Allowed, MapVisit, After, MapAfter, Asked, Admitted, Noted, ClockGoesForward, Over;
      SecondSoFar(before, limit, ip, now);
      if Asked(before, ip, now) > 0 {
        AskedBefore(run, ip, now);
      }
      RequestIsNoted(MapAfter(before, limit), ip, limit, now, Asked(before, ip, now), e);
    }
  }

  /** With readings in order, without sweeps, and while every request finds a slot, each
      address is admitted in each second exactly as often as it asks, up to the limit. */
  lemma {:induction false} ExactlyTheLimit(run: seq<Event>, limit: nat, ip: bytes, now: int)
    requires limit >= 1 && NeverFull(run, limit) && ClockGoesForward(run)
    ensures Admitted(run, limit, ip, now) == if Asked(run, ip, now) < limit then Asked(run, ip, now) else limit
  {
    if run == [] || run[|run| - 1].now <= now {
      SecondSoFar(run, limit, ip, now);
    } else {
      NeverFullBefore(run, limit);
      ExactlyTheLimit(run[..|run| - 1], limit, ip, now);
    }
  }
}
