/** The flow-control side of an HTTP/2 session as the code keeps it: the bucket array
    updated in place by SETTINGS, WINDOW_UPDATE, RST_STREAM and the file pump. */
module Http2Session {
  import opened Bytes
  import opened Http2FlowControl
  import Http2Framing
  import opened Http2Streams
  import opened Options
  import opened Resources

  /** The 6-byte entry at `at`: identifier 4 sets the initial window, others are ignored. */
  function InitialAt(payload: bytes, at: nat): History
    requires at + 6 <= |payload|
  {
    if U16(payload[at..at + 2]) == 4 then [Initial(U32(payload[at + 2..at + 6]))] else []
  }

  /** The window settings among the 6-byte entries of a SETTINGS payload, from `at` on. */
  function InitialsFrom(payload: bytes, at: nat): History
    decreases |payload| - at
  {
    if at + 6 > |payload| then [] else InitialAt(payload, at) + InitialsFrom(payload, at + 6)
  }

  /** The increment of a WINDOW_UPDATE payload; the reserved bit is ignored. */
  function Increment(payload: bytes): nat
    requires |payload| >= 4
  {
    U32(payload[..4]) % 0x8000_0000
  }

  lemma {:induction false} AppendAssociates(before: History, step: History, rest: History)
    ensures (before + step) + rest == before + (step + rest)
  {
  }

  // ----- Which streams the pump serves, and what is left to send

  predicate IsActive(st: Stream) {
    HasFile(st) || st.fcgi
  }

  function ListActive(list: seq<Stream>): seq<(nat, bool)> {
    if list == [] then []
    else
      var last := list[|list| - 1];
      ListActive(list[..|list| - 1]) + (if IsActive(last) then [(last.id, last.fcgi)] else [])
  }

  function TableActive(t: Table): seq<(nat, bool)> {
    if t == [] then [] else TableActive(t[..|t| - 1]) + ListActive(t[|t| - 1])
  }

  function Capped(ids: seq<(nat, bool)>): seq<(nat, bool)> {
    if |ids| <= MAX_PUMPED then ids else ids[..MAX_PUMPED]
  }

  function FirstActive(t: Table): seq<(nat, bool)> {
    Capped(TableActive(t))
  }

  /** The place of a stream in table order: how many active ones come before it. */
  function PlaceOf(t: Table, b: nat, i: nat): nat
    requires b < |t| && i < |t[b]|
  {
    |TableActive(t[..b])| + |ListActive(t[b][..i])|
  }

  lemma {:induction false} ListPrefix(list: seq<Stream>, i: nat)
    requires i <= |list|
    ensures ListActive(list[..i]) <= ListActive(list)
  {
    if i < |list| {
      var n := |list| - 1;
      assert list[..n][..i] == list[..i];
      ListPrefix(list[..n], i);
    } else {
      assert list[..i] == list;
    }
  }

  lemma {:induction false} ListPlace(list: seq<Stream>, i: nat)
    requires i < |list| && IsActive(list[i])
    ensures var p := |ListActive(list[..i])|;
      p < |ListActive(list)| && ListActive(list)[p] == (list[i].id, list[i].fcgi)
  {
    assert list[..i + 1][..i] == list[..i];
    ListPrefix(list, i + 1);
    assert ListActive(list[..i + 1]) == ListActive(list[..i]) + [(list[i].id, list[i].fcgi)];
  }

  lemma {:induction false} ListPlaceExists(list: seq<Stream>, k: nat) returns (i: nat)
    requires k < |ListActive(list)|
    ensures i < |list| && IsActive(list[i]) && |ListActive(list[..i])| == k
  {
    var n := |list| - 1;
    if k < |ListActive(list[..n])| {
      i := ListPlaceExists(list[..n], k);
      assert list[..n][..i] == list[..i];
    } else {
      i := n;
    }
  }

  lemma {:induction false} TablePrefix(t: Table, b: nat)
    requires b <= |t|
    ensures TableActive(t[..b]) <= TableActive(t)
  {
    if b < |t| {
      var n := |t| - 1;
      assert t[..n][..b] == t[..b];
      TablePrefix(t[..n], b);
    } else {
      assert t[..b] == t;
    }
  }

  lemma {:induction false} TablePlace(t: Table, b: nat, i: nat)
    requires b < |t| && i < |t[b]| && IsActive(t[b][i])
    ensures PlaceOf(t, b, i) < |TableActive(t)| && TableActive(t)[PlaceOf(t, b, i)] == (t[b][i].id, t[b][i].fcgi)
  {
    assert t[..b + 1][..b] == t[..b];
    TablePrefix(t, b + 1);
    ListPlace(t[b], i);
    assert TableActive(t[..b + 1]) == TableActive(t[..b]) + ListActive(t[b]);
  }

  lemma {:induction false} TablePlaceExists(t: Table, k: nat) returns (b: nat, i: nat)
    requires k < |TableActive(t)|
    ensures b < |t| && i < |t[b]| && IsActive(t[b][i]) && PlaceOf(t, b, i) == k
  {
    var n := |t| - 1;
    var before := |TableActive(t[..n])|;
    if k < before {
      b, i := TablePlaceExists(t[..n], k);
      assert t[..n][..b] == t[..b];
    } else {
      b := n;
      i := ListPlaceExists(t[n], k - before);
    }
  }

  /** The stream at `b`, `i` has an open file that is being sent and is not closed, or is a
      FastCGI stream, and entry `k` is its entry. */
  ghost predicate EntryOf(t: Table, k: nat, b: nat, i: nat) {
    && b < |t| && i < |t[b]| && PlaceOf(t, b, i) == k < |TableActive(t)|
    && ((t[b][i].sending && t[b][i].open && t[b][i].state != 6) || t[b][i].fcgi)
    && TableActive(t)[k] == (t[b][i].id, t[b][i].fcgi)
  }

  ghost predicate IsEntry(t: Table, k: nat) {
    exists b: nat, i: nat :: EntryOf(t, k, b, i)
  }

  /** What is listed: such streams, each at its place in table order, and nothing else; of
      these the pump takes the first 256. */
  lemma {:induction false} ActiveAreListed(t: Table)
    ensures forall b, i :: 0 <= b < |t| && 0 <= i < |t[b]| ==>
      var st := t[b][i];
      (st.sending && st.open && st.state != 6) || st.fcgi ==> EntryOf(t, PlaceOf(t, b, i), b, i)
    ensures forall k: nat :: k < |TableActive(t)| ==> IsEntry(t, k)
    ensures FirstActive(t) == TableActive(t)[..if |TableActive(t)| < 256 then |TableActive(t)| else 256]
  {
    forall b, i | 0 <= b < |t| && 0 <= i < |t[b]| && IsActive(t[b][i]) ensures EntryOf(t, PlaceOf(t, b, i), b, i) {
      TablePlace(t, b, i);
    }
    forall k: nat | k < |TableActive(t)| ensures IsEntry(t, k) {
      var b, i := TablePlaceExists(t, k);
      TablePlace(t, b, i);
      assert EntryOf(t, k, b, i);
    }
  }

  /** By id: a stream is listed once, exactly if it is such a stream. */
  lemma {:induction false} ListedById(t: Table, id: nat, fcgi: bool)
    requires |t| == BUCKETS && WellFormed(t)
    ensures (id, fcgi) in TableActive(t) <==> (
      && Lookup(t, id).Some?
      && var st := Lookup(t, id).value;
         ((st.sending && st.open && st.state != 6) || st.fcgi) && fcgi == st.fcgi)
    ensures forall j, k :: 0 <= j < k < |TableActive(t)| ==> TableActive(t)[j].0 != TableActive(t)[k].0
  {
    if (id, fcgi) in TableActive(t) {
      var k :| 0 <= k < |TableActive(t)| && TableActive(t)[k] == (id, fcgi);
      var b, i := TablePlaceExists(t, k);
      TablePlace(t, b, i);
      FoundOnce(t, b, i);
    }
    if Lookup(t, id).Some? && IsActive(Lookup(t, id).value) {
      TablePlace(t, Bucket(id), Index(t[Bucket(id)], id));
    }
    forall j, k | 0 <= j < k < |TableActive(t)| ensures TableActive(t)[j].0 != TableActive(t)[k].0 {
      var b, i := TablePlaceExists(t, j);
      var c, l := TablePlaceExists(t, k);
      TablePlace(t, b, i);
      TablePlace(t, c, l);
    }
  }

  lemma {:induction false} CappedAppend(before: seq<(nat, bool)>, a: seq<(nat, bool)>, b: seq<(nat, bool)>)
    requires a <= b
    ensures b == a ==> Capped(before + b) == Capped(before + a)
    ensures |b| == |a| + 1 && |Capped(before + a)| < MAX_PUMPED ==>
      Capped(before + b) == Capped(before + a) + [b[|a|]]
    ensures |b| == |a| + 1 && |Capped(before + a)| == MAX_PUMPED ==> Capped(before + b) == Capped(before + a)
  {
    assert b == a + b[|a|..];
  }

  ghost predicate MaySend(t: Table, window: int, id: nat)
    requires |t| == BUCKETS
  {
    var st := Lookup(t, id);
    st.Some? && HasFile(st.value) && st.value.offset < |st.value.file| && window > 0 && st.value.win > 0
  }

  function Abandoned(st: Stream): Stream {
    st.(open := false, sending := false, state := CLOSED)
  }

  /** The bytes of a stream's file still to be sent. */
  function Left(st: Stream): nat {
    if HasFile(st) && st.offset < |st.file| then |st.file| - st.offset else 0
  }

  function ListLeft(list: seq<Stream>): nat {
    if list == [] then 0 else Left(list[0]) + ListLeft(list[1..])
  }

  function TableLeft(t: Table): nat {
    if t == [] then 0 else ListLeft(t[0]) + TableLeft(t[1..])
  }

  lemma {:induction false} ListLeftUpdate(list: seq<Stream>, i: nat, st: Stream)
    requires i < |list|
    ensures ListLeft(list[i := st]) == ListLeft(list) - Left(list[i]) + Left(st)
  {
    if i == 0 {
      assert list[i := st][1..] == list[1..];
    } else {
      ListLeftUpdate(list[1..], i - 1, st);
      assert list[i := st][1..] == list[1..][i - 1 := st];
    }
  }

  lemma {:induction false} TableLeftUpdate(t: Table, b: nat, list: seq<Stream>)
    requires b < |t|
    ensures TableLeft(t[b := list]) == TableLeft(t) - ListLeft(t[b]) + ListLeft(list)
  {
    if b == 0 {
      assert t[b := list][1..] == t[1..];
    } else {
      TableLeftUpdate(t[1..], b - 1, list);
      assert t[b := list][1..] == t[1..][b - 1 := list];
    }
  }

  lemma {:induction false} PutChangesLeft(t: Table, st: Stream)
    requires |t| == BUCKETS && Lookup(t, st.id).Some?
    ensures TableLeft(Put(t, st)) == TableLeft(t) - Left(Lookup(t, st.id).value) + Left(st)
  {
    var b := Bucket(st.id);
    var i := Index(t[b], st.id);
    ListLeftUpdate(t[b], i, st);
    TableLeftUpdate(t, b, t[b][i := st]);
  }

  ghost predicate ShiftedUpTo(t: Table, t': Table, delta: int, b: nat, i: nat) {
    && |t'| == |t| == BUCKETS
    && (forall c :: 0 <= c < BUCKETS ==> |t'[c]| == |t[c]|)
    && (forall c, j :: 0 <= c < BUCKETS && 0 <= j < |t[c]| ==>
          t'[c][j] == if c < b || (c == b && j < i) then Shift(delta)(t[c][j]) else t[c][j])
  }

  ghost predicate GivenUp(t: Table, id: nat)
    requires |t| == BUCKETS
  {
    Lookup(t, id).Some? && !HasFile(Lookup(t, id).value)
  }

  /** More of the stream's file has been sent. */
  ghost predicate OffsetGrew(t: Table, t': Table, id: nat)
    requires |t| == |t'| == BUCKETS
  {
    Lookup(t, id).Some? && Lookup(t', id).Some? && Lookup(t, id).value.offset < Lookup(t', id).value.offset
  }

  /** Changing a stream that has a file changes no other, and none that was given up. */
  lemma {:induction false} OthersStay(t: Table, st: Stream)
    requires |t| == BUCKETS && WellFormed(t) && Lookup(t, st.id).Some? && HasFile(Lookup(t, st.id).value)
    ensures |Put(t, st)| == BUCKETS
    ensures forall id: nat :: id != st.id ==> Lookup(Put(t, st), id) == Lookup(t, id)
    ensures Lookup(Put(t, st), st.id) == Some(st)
    ensures forall id: nat :: GivenUp(t, id) ==> GivenUp(Put(t, st), id)
  {
    hide Lookup, WellFormed, HasFile, Bucket, Index;
    forall id: nat ensures Lookup(Put(t, st), id) == if id == st.id then Some(st) else Lookup(t, id) {
      LookupPut(t, st, id);
    }
  }

  function Least(a: int, b: int): int {
    if a < b then a else b
  }

  /** A stream after a read of `n` bytes of its file; the file is given up if there are none. */
  function Served(st: Stream, n: int): Stream
    requires n <= |st.file| - st.offset
  {
    if n > 0 then Pumped(st, st.file[st.offset..st.offset + n]) else Abandoned(st)
  }

  lemma {:induction false} ServingLeavesLess(t: Table, window: int, id: nat, n: int)
    requires |t| == BUCKETS && WellFormed(t) && MaySend(t, window, id)
    requires n != 0 && n <= |Lookup(t, id).value.file| - Lookup(t, id).value.offset
    ensures var st := Served(Lookup(t, id).value, n);
      && st.id == id && TableLeft(Put(t, st)) < TableLeft(t) && (n < 0 ==> !HasFile(st))
      && (n > 0 ==> st.offset == Lookup(t, id).value.offset + n)
  {
    hide WellFormed, Lookup, TableLeft, Put;
    PutChangesLeft(t, Served(Lookup(t, id).value, n));
  }

  lemma {:induction false} ListedOnce(t: Table)
    requires |t| == BUCKETS && WellFormed(t)
    ensures var ids := FirstActive(t);
      forall j, k :: 0 <= j < k < |ids| ==> ids[j].0 != ids[k].0
  {
    ListedById(t, 0, false);
  }

  /** What the service of the `k`-th of them leaves of the others. */
  lemma {:induction false} ServedOnly(t: Table, before: Table, after: Table, ids: seq<(nat, bool)>, k: nat)
    requires |t| == |before| == |after| == BUCKETS && k < |ids|
    requires forall i, j :: 0 <= i < j < |ids| ==> ids[i].0 != ids[j].0
    requires forall other: nat :: other != ids[k].0 ==> Lookup(after, other) == Lookup(before, other)
    ensures forall j :: 0 <= j < |ids| && j != k ==>
      && Lookup(after, ids[j].0) == Lookup(before, ids[j].0)
      && (OffsetGrew(t, before, ids[j].0) ==> OffsetGrew(t, after, ids[j].0))
    ensures Lookup(before, ids[k].0) == Lookup(t, ids[k].0) && OffsetGrew(before, after, ids[k].0) ==> OffsetGrew(t, after, ids[k].0)
  {
    hide Lookup;
    forall j | 0 <= j < |ids| && j != k ensures ids[j].0 != ids[k].0 {
      assert if j < k then ids[j].0 != ids[k].0 else ids[k].0 != ids[j].0;
    }
  }

  /** A file stream that may send is listed, unless there are more than 256 before it. */
  lemma {:induction false} AllListed(t: Table, w: int)
    requires |t| == BUCKETS && WellFormed(t)
    ensures |TableActive(t)| <= 256 ==> forall id: nat :: Lookup(t, id).Some? ==>
      var st := Lookup(t, id).value;
      st.sending && st.open && st.state != 6 && !st.fcgi && st.offset < |st.file| && w > 0 && st.win > 0 ==>
        MaySend(t, w, id) && exists k :: 0 <= k < |FirstActive(t)| && FirstActive(t)[k] == (id, false)
  {
    forall id: nat | Lookup(t, id).Some?
      ensures var st := Lookup(t, id).value;
        |TableActive(t)| <= 256 && st.sending && st.open && st.state != 6 && !st.fcgi && st.offset < |st.file| && w > 0 && st.win > 0 ==>
          MaySend(t, w, id) && exists k :: 0 <= k < |FirstActive(t)| && FirstActive(t)[k] == (id, false)
    {
      ListedById(t, id, false);
      ActiveAreListed(t);
    }
  }

  // ----- What the pump puts on the wire

  /** The frame of an event, if it has one. */
  function FrameOf(e: Event): seq<Http2Framing.Frame> {
    match e
    case Data(id, payload, endStream) => [Http2Framing.Frame(0, if endStream then 1 else 0, id % 0x8000_0000, payload)]
    case _ => []
  }

  function FramesOf(h: History): (fs: seq<Http2Framing.Frame>)
    ensures h == [] ==> fs == []
  {
    if h == [] then [] else FramesOf(h[..|h| - 1]) + FrameOf(h[|h| - 1])
  }

  lemma {:induction false} FramesGrow(before: History, h: History, e: Event, sent: seq<Http2Framing.Frame>)
    requires before <= h
    ensures before <= h + [e]
    ensures sent + FramesOf((h + [e])[|before|..]) == sent + FramesOf(h[|before|..]) + FrameOf(e)
  {
    var new' := (h + [e])[|before|..];
    assert new' == h[|before|..] + [e] && new'[..|new'| - 1] == h[|before|..];
  }

  class Session {
    const buckets: array<seq<Stream>>
    const disk: Disk
    var window: int                // out_window_size of the connection
    var peerInitial: nat           // peer_initial_window_size
    ghost var history: History

    ghost predicate Valid()
      reads this, buckets
    {
      && buckets.Length == BUCKETS
      && Agrees(buckets[..], history) && GoodHistory(history)
      && window == ConnectionWindow(history)
      && peerInitial == InitialWindow(history)
    }

    constructor (disk: Disk)
      ensures Valid() && history == [] && fresh(buckets) && this.disk == disk
      ensures forall id :: Lookup(buckets[..], id).None?
    {
      this.disk := disk;
      buckets := new seq<Stream>[BUCKETS](_ => []);
      window, peerInitial := 65535, 65535;
      history := [];
      new;
      assert forall b :: 0 <= b < BUCKETS ==> buckets[..][b] == [];
    }

    lemma TableIsWellFormed()
      requires Valid()
      ensures WellFormed(buckets[..])
    {
    }

    /** The bucket of a stream and its index there; past the end when there is none. */
    method Find(id: nat) returns (b: nat, i: nat)
      requires Valid()
      ensures b == Bucket(id) && i == Index(buckets[b], id)
      ensures id > 0 ==> Lookup(buckets[..], id) == if i < |buckets[b]| then Some(buckets[b][i]) else None
    {
      b, i := Bucket(id), 0;
      while i < |buckets[b]| && buckets[b][i].id != id
        invariant i <= |buckets[b]|
        invariant i + Index(buckets[b][i..], id) == Index(buckets[b], id)
      {
        assert buckets[b][i..][1..] == buckets[b][i + 1..];
        i := i + 1;
      }
    }

    /** The stream with that id, created with the peer's initial window if there is none. */
    method GetOrCreate(id: nat)
      requires Valid() && id > 0
      modifies buckets, `history
      ensures Valid()
      ensures old(Lookup(buckets[..], id)).Some? ==> buckets[..] == old(buckets[..]) && history == old(history)
      ensures old(Lookup(buckets[..], id)).None? ==>
        && Lookup(buckets[..], id) == Some(Stream(id, Wrap32(peerInitial), 0, false, false, [], 0, false))
        && history == old(history) + [Created(id)]
        && forall other :: other != id ==> Lookup(buckets[..], other) == old(Lookup(buckets[..], other))
    {
      var b, i := Find(id);
      if i < |buckets[b]| {
        return;
      }
      var st := Stream(id, Wrap32(peerInitial), 0, false, false, [], 0, false);
      AddAgrees(buckets[..], st, history);
      ghost var t := buckets[..];
      buckets[b] := [st] + buckets[b];
      assert buckets[..] == Add(t, st);
      forall other ensures Lookup(buckets[..], other) == if other == id then Some(st) else Lookup(t, other) {
        LookupAdd(t, st, other);
      }
      HistoryGrows(history, Created(id));
      LastOf(history, Created(id));
      history := history + [Created(id)];
    }

    /** SETTINGS: each initial-window entry moves every stream's window by the difference. */
    method ApplySettings(flags: byte, payload: bytes)
      requires Valid()
      modifies this`peerInitial, this`history, buckets
      ensures Valid()
      ensures history == old(history) +
        (if flags % 2 == 0 && |payload| >= 6 then InitialsFrom(payload, 0) else [])
    {
      if flags % 2 == 0 && |payload| >= 6 {
        var idx := 0;
        while idx + 6 <= |payload|
          invariant 0 <= idx && Valid()
          invariant history + InitialsFrom(payload, idx) == old(history) + InitialsFrom(payload, 0)
          decreases |payload| - idx
        {
          AppendAssociates(history, InitialAt(payload, idx), InitialsFrom(payload, idx + 6));
          ApplyEntry(payload, idx);
          idx := idx + 6;
        }
        assert InitialsFrom(payload, idx) == [] && history + [] == history;
      }
    }

    method ApplyEntry(payload: bytes, at: nat)
      requires Valid() && at + 6 <= |payload|
      modifies this`peerInitial, this`history, buckets
      ensures Valid() && history == old(history) + InitialAt(payload, at)
    {
      if U16([payload[at], payload[at + 1]]) == 4 {
        SetInitial(U32([payload[at + 2], payload[at + 3], payload[at + 4], payload[at + 5]]));
      }
    }

    /** Adds `delta` to the window of every stream of every bucket. */
    method ShiftAll(delta: int)
      requires buckets.Length == BUCKETS
      modifies buckets
      ensures Pointwise(old(buckets[..]), buckets[..], Shift(delta))
    {
      ghost var t := buckets[..];
      var b := 0;
      while b < BUCKETS
        invariant b <= BUCKETS && ShiftedUpTo(t, buckets[..], delta, b, 0)
      {
        var i := 0;
        while i < |buckets[b]|
          invariant i <= |buckets[b]| && ShiftedUpTo(t, buckets[..], delta, b, i)
        {
          var st := buckets[b][i];
          buckets[b] := buckets[b][i := st.(win := Wrap32(st.win + delta))];
          i := i + 1;
        }
        b := b + 1;
      }
    }

    method SetInitial(value: nat)
      requires Valid()
      modifies this`peerInitial, this`history, buckets
      ensures Valid() && history == old(history) + [Initial(value)]
    {
      var delta := Wrap32(Wrap32(value) - Wrap32(peerInitial));
      peerInitial := value;
      ghost var t := buckets[..];
      ShiftAll(delta);
      ShiftAgrees(t, buckets[..], history, value);
      HistoryGrows(history, Initial(value));
      LastOf(history, Initial(value));
      history := history + [Initial(value)];
    }

    method WindowUpdate(id: nat, payload: bytes)
      requires Valid()
      modifies this`window, this`history, buckets
      ensures Valid()
      ensures history == old(history) +
        (if |payload| < 4 || Increment(payload) == 0 then []
         else if id == 0 then [ConnectionCredit(Increment(payload))]
         else if old(Lookup(buckets[..], id)).Some? then [Credit(id, Increment(payload))]
         else [])
    {
      if |payload| < 4 {
        return;
      }
      var increment := U32([payload[0] % 0x80, payload[1], payload[2], payload[3]]);
      assert increment == Increment(payload);
      if increment == 0 {
        return;
      }
      if id == 0 {
        CreditsConnection(increment);
        window := Wrap32(window + increment);
        history := history + [ConnectionCredit(increment)];
      } else {
        var b, i := Find(id);
        if i < |buckets[b]| {
          CreditStream(id, b, i, increment);
        }
      }
    }

    /** Writes a stream back to its place. */
    method Replace(b: nat, i: nat, st: Stream)
      requires buckets.Length == BUCKETS && b == Bucket(st.id) && i < |buckets[b]| && i == Index(buckets[b], st.id)
      requires st.id > 0
      modifies buckets
      ensures old(Lookup(buckets[..], st.id)).Some? && buckets[..] == Put(old(buckets[..]), st)
    {
      buckets[b] := buckets[b][i := st];
    }

    method CreditStream(id: nat, b: nat, i: nat, increment: nat)
      requires Valid() && id > 0 && b == Bucket(id) && i < |buckets[b]|
      requires Lookup(buckets[..], id) == Some(buckets[b][i]) && i == Index(buckets[b], id)
      modifies this`history, buckets
      ensures Valid() && history == old(history) + [Credit(id, increment)]
    {
      var st := buckets[b][i];
      CreditAgrees(buckets[..], st, history, increment);
      HistoryGrows(history, Credit(id, increment));
      Replace(b, i, st.(win := Wrap32(st.win + increment)));
      history := history + [Credit(id, increment)];
    }

    lemma CreditsConnection(increment: nat)
      requires Valid()
      ensures var h := history + [ConnectionCredit(increment)];
        && Agrees(buckets[..], h) && GoodHistory(h)
        && ConnectionWindow(h) == Wrap32(window + increment) && InitialWindow(h) == peerInitial
    {
      var e := ConnectionCredit(increment);
      LastOf(history, e);
      Wrap32Adds(DEFAULT_WINDOW + ConnectionBalance(history), increment);
      HistoryGrows(history, e);
      forall other
        ensures Window(history + [e], other) == Window(history, other)
        ensures Balance(history + [e], other) == Balance(history, other)
        ensures FileOf(history + [e], other) == FileOf(history, other)
        ensures SentOf(history + [e], other) == SentOf(history, other)
      {
        EventElsewhere(history, e, other);
      }
    }

    /** RST_STREAM closes the file and the stream; the windows keep what they had. */
    method Reset(id: nat)
      requires Valid()
      modifies buckets
      ensures Valid() && history == old(history)
      ensures buckets[..] ==
        var found := old(Lookup(buckets[..], id));
        if found.Some? then Put(old(buckets[..]), found.value.(open := false, sending := false, state := CLOSED))
        else old(buckets[..])
    {
      ghost var t := buckets[..];
      ghost var found := Lookup(t, id);
      var b := 0;
      while b < BUCKETS
        invariant b <= BUCKETS
        invariant buckets[..] ==
          if found.Some? && Bucket(id) < b then Put(t, found.value.(open := false, sending := false, state := CLOSED))
          else t
      {
        var i := 0;
        while i < |buckets[b]| && buckets[b][i].id != id
          invariant i <= |buckets[b]|
          invariant forall j :: 0 <= j < i ==> buckets[b][j].id != id
        {
          i := i + 1;
        }
        if i < |buckets[b]| {
          assert buckets[b][i] == t[b][i] by {
            assert buckets[..] == t;
          }
          FoundOnce(t, b, i);
          buckets[b] := buckets[b][i := buckets[b][i].(open := false, sending := false, state := CLOSED)];
          assert buckets[..] == Put(t, found.value.(open := false, sending := false, state := CLOSED));
        }
        b := b + 1;
      }
      if found.Some? {
        PutQuietlyAgrees(t, found.value.(open := false, sending := false, state := CLOSED), history);
      }
    }

    /** A static file of at least one byte is attached to the stream. */
    method OpenFile(id: nat, file: bytes)
      requires Valid() && Lookup(buckets[..], id).Some? && |file| > 0
      modifies buckets, this`history
      ensures Valid() && history == old(history) + [Opened(id, file)]
      ensures buckets[..] == Put(old(buckets[..]),
        old(Lookup(buckets[..], id)).value.(open := true, file := file, offset := 0, sending := true))
    {
      var b, i := Find(id);
      var st := buckets[b][i].(open := true, file := file, offset := 0, sending := true);
      LastOf(history, Opened(id, file));
      PutAgrees(buckets[..], st, history, Opened(id, file));
      HistoryGrows(history, Opened(id, file));
      ghost var t := buckets[..];
      buckets[b] := buckets[b][i := st];
      assert buckets[..] == Put(t, st);
      history := history + [Opened(id, file)];
    }

    /** The raw state numbers 2 and 4 written by the request and response paths; neither
        is the value the pump tests for. */
    method MarkState(id: nat, raw: int)
      requires Valid() && (raw == 2 || raw == 4)
      modifies buckets
      ensures Valid() && history == old(history)
      ensures buckets[..] ==
        var found := old(Lookup(buckets[..], id));
        if found.Some? then Put(old(buckets[..]), found.value.(state := raw)) else old(buckets[..])
    {
      var b, i := Find(id);
      if i < |buckets[b]| {
        ghost var t := buckets[..];
        FoundOnce(t, b, i);
        PutQuietlyAgrees(t, buckets[b][i].(state := raw), history);
        buckets[b] := buckets[b][i := buckets[b][i].(state := raw)];
        assert buckets[..] == Put(t, t[b][i].(state := raw));
      }
    }

    /** The first 256 active streams, in table order, and whether each is a FastCGI one. */
    method CollectActive() returns (ids: seq<(nat, bool)>)
      requires buckets.Length == BUCKETS
      ensures ids == FirstActive(buckets[..])
    {
      ids := [];
      var b := 0;
      ghost var t := buckets[..];
      while b < BUCKETS
        invariant b <= BUCKETS && ids == Capped(TableActive(t[..b]))
      {
        ids := CollectBucket(b, ids, TableActive(t[..b]));
        assert t[..b + 1] == t[..b] + [t[b]];
        b := b + 1;
      }
      assert t[..b] == t;
    }

    method CollectBucket(b: nat, before: seq<(nat, bool)>, ghost all: seq<(nat, bool)>) returns (ids: seq<(nat, bool)>)
      requires b < buckets.Length && before == Capped(all)
      ensures ids == Capped(all + ListActive(buckets[b]))
    {
      ids := before;
      var i := 0;
      var list := buckets[b];
      assert all + [] == all;
      while i < |list|
        invariant i <= |list| && ids == Capped(all + ListActive(list[..i]))
      {
        var curr := list[i];
        var hasFile := curr.sending && curr.open && curr.state != CLOSED;
        if (hasFile || curr.fcgi) && |ids| < MAX_PUMPED {
          ids := ids + [(curr.id, curr.fcgi)];
        }
        assert list[..i + 1][..i] == list[..i];
        CappedAppend(all, ListActive(list[..i]), ListActive(list[..i + 1]));
        i := i + 1;
      }
      assert list[..i] == list;
    }

    /** The file could not be read: the stream is closed. */
    method Abandon(b: nat, i: nat)
      requires Valid() && b < BUCKETS && i < |buckets[b]|
      modifies buckets
      ensures Valid() && buckets[..] == Put(old(buckets[..]), Abandoned(old(buckets[b][i])))
    {
      ghost var t := buckets[..];
      var st := buckets[b][i];
      FoundOnce(t, b, i);
      PutQuietlyAgrees(t, Abandoned(st), history);
      buckets[b] := buckets[b][i := st.(open := false, sending := false, state := CLOSED)];
      assert buckets[..] == Put(t, Abandoned(st));
    }

    /** `n` more bytes of the file were sent as one DATA frame. */
    method Advance(b: nat, i: nat, n: nat)
      requires Valid() && b < BUCKETS && i < |buckets[b]|
      requires HasFile(buckets[b][i]) && 0 < n <= MAX_FRAME && n <= |buckets[b][i].file| - buckets[b][i].offset
      requires n <= buckets[b][i].win && n <= window
      modifies this`window, this`history, buckets
      ensures Valid() && window == old(window) - n
      ensures var st := old(buckets[b][i]);
        var payload := st.file[st.offset..st.offset + n];
        && buckets[..] == Put(old(buckets[..]), Pumped(st, payload))
        && history == old(history) + [Data(st.id, payload, st.offset + n >= |st.file|)]
    {
      TableIsWellFormed();
      ghost var t := buckets[..];
      FoundOnce(t, b, i);
      hide Agrees, GoodHistory, InitialWindow, TableLeft, Lookup, WellFormed;
      var st := buckets[b][i];
      ghost var payload := st.file[st.offset..st.offset + n];
      ghost var data := Data(st.id, payload, st.offset + n >= |st.file|);
      PumpAgrees(t, st, history, n);
      HistoryGrows(history, data);
      Wrap32Adds(DEFAULT_WINDOW + ConnectionBalance(history), -(n as int));
      window := Wrap32(window - n);
      st := st.(win := Wrap32(st.win - n), offset := st.offset + n);
      if st.offset >= |st.file| {
        st := st.(open := false, sending := false, state := CLOSED);
      }
      assert st == Pumped(t[b][i], payload);
      buckets[b] := buckets[b][i := st];
      assert buckets[..] == Put(t, st);
      history := history + [data];
    }

    /** Sends the bytes that were read as one DATA frame. */
    method SendPiece(b: nat, i: nat, n: nat, out: Http2Framing.Writer)
      requires Valid() && out.Valid() && out.InOrder() && b < BUCKETS && i < |buckets[b]|
      requires HasFile(buckets[b][i]) && 0 < n <= MAX_FRAME && n <= |buckets[b][i].file| - buckets[b][i].offset
      requires n <= buckets[b][i].win && n <= window
      modifies this`window, this`history, buckets, out, out.sock, out.heap
      ensures Valid() && out.Valid() && out.InOrder() && window == old(window) - n
      ensures var st := old(buckets[b][i]);
        var payload := st.file[st.offset..st.offset + n];
        var e := Data(st.id, payload, st.offset + n >= |st.file|);
        && buckets[..] == Put(old(buckets[..]), Pumped(st, payload))
        && history == old(history) + [e] && out.sent == old(out.sent) + FrameOf(e)
      ensures out.ErrorHasCause()
    {
      hide Agrees, GoodHistory, Put, Pumped, Lookup, Index, Bucket, ConnectionWindow, InitialWindow, HasFile;
      hide Http2Framing.EncodeAll, Http2Framing.Encode;
      var st := buckets[b][i];
      var payload := st.file[st.offset..st.offset + n];
      out.SendFrame(0, if st.offset + n >= |st.file| then 1 else 0, st.id, payload);
      Advance(b, i, n);
    }

    /** The least of the frame size, both windows and what is left of the file. */
    method MostAllowed(st: Stream) returns (max: int)
      requires window > 0 && st.win > 0 && st.offset < |st.file|
      ensures max == Least(Least(16384, window), Least(st.win, |st.file| - st.offset)) > 0
    {
      max := MAX_FRAME;
      if max > window {
        max := window;
      }
      if max > st.win {
        max := st.win;
      }
      if max > |st.file| - st.offset {
        max := |st.file| - st.offset;
      }
    }

    /** Where the stream is, and whether it has bytes to send and both windows allow any. */
    method FindSendable(id: nat) returns (b: nat, i: nat, may: bool)
      requires Valid()
      ensures may == MaySend(buckets[..], window, id)
      ensures may ==>
        && b < BUCKETS && i < |buckets[b]| && Lookup(buckets[..], id) == Some(buckets[b][i])
        && HasFile(buckets[b][i]) && buckets[b][i].offset < |buckets[b][i].file| && window > 0 && buckets[b][i].win > 0
    {
      TableIsWellFormed();
      hide GoodHistory, Agrees;
      b, i := Find(id);
      if i == |buckets[b]| {
        return b, i, false;
      }
      var st := buckets[b][i];
      FoundOnce(buckets[..], b, i);
      if !(st.sending && st.open && st.state != CLOSED) || st.offset >= |st.file| {
        return b, i, false;
      }
      return b, i, !(window <= 0 || st.win <= 0);
    }

    /** Sends the next bytes of one stream's file, if it has any and both windows allow:
        the bytes sent, 0 when it may not send, -1 when the file could not be read. */
    method PumpOne(id: nat, out: Http2Framing.Writer) returns (n: int)
      requires Valid() && out.Valid() && out.InOrder()
      modifies this`window, this`history, buckets, disk, out, out.sock, out.heap
      ensures Valid() && n >= -1 && out.Valid() && out.InOrder()
      ensures n != 0 <==> old(MaySend(buckets[..], window, id))
      ensures n == 0 ==> buckets[..] == old(buckets[..])
      ensures n <= 0 ==> window == old(window) && history == old(history) && out.sent == old(out.sent)
      ensures n != 0 ==>
        var st := old(Lookup(buckets[..], id)).value;
        n <= |st.file| - st.offset && buckets[..] == Put(old(buckets[..]), Served(st, n))
      ensures n > 0 ==>
        var st := old(Lookup(buckets[..], id)).value;
        var e := Data(id, st.file[st.offset..st.offset + n], st.offset + n >= |st.file|);
        window == old(window) - n && history == old(history) + [e] && out.sent == old(out.sent) + FrameOf(e)
      ensures disk.failed == old(disk.failed) + if n == -1 then 1 else 0
      ensures n != 0 ==>
        var st := old(Lookup(buckets[..], id)).value;
        disk.asked == Least(Least(16384, old(window)), Least(st.win, |st.file| - st.offset))
      ensures out.ErrorHasCause()
    {
      hide TableLeft, GoodHistory, Agrees, Put, FrameOf, Lookup, MaySend, Http2Framing.EncodeAll;
      var b, i, may := FindSendable(id);
      if !may {
        return 0;
      }
      var st := buckets[b][i];
      var max := MostAllowed(st);
      n := disk.Pread(max);
      if n < 0 {
        Abandon(b, i);
      } else {
        SendPiece(b, i, n, out);
      }
    }

    /** Serves one collected stream: whenever it may send, less is left to send, because a
        frame of it goes out or because its file is given up. */
    method Serve(id: nat, out: Http2Framing.Writer) returns (n: int)
      requires Valid() && out.Valid() && out.InOrder()
      modifies this`window, this`history, buckets, disk, out, out.sock, out.heap
      ensures Valid() && out.Valid() && out.InOrder()
      ensures n != 0 <==> old(MaySend(buckets[..], window, id))
      ensures n > 0 ==> exists e: Event :: e.Data? && history == old(history) + [e] && out.sent == old(out.sent) + FrameOf(e)
      ensures n <= 0 ==> history == old(history) && window == old(window) && out.sent == old(out.sent)
      ensures n < 0 ==> GivenUp(buckets[..], id)
      ensures n == 0 ==> buckets[..] == old(buckets[..])
      ensures n != 0 ==> TableLeft(buckets[..]) < old(TableLeft(buckets[..]))
      ensures n > 0 ==> OffsetGrew(old(buckets[..]), buckets[..], id)
      ensures window <= old(window) && disk.failed == old(disk.failed) + if n < 0 then 1 else 0
      ensures forall other: nat :: other != id ==> Lookup(buckets[..], other) == old(Lookup(buckets[..], other))
      ensures forall other: nat :: old(GivenUp(buckets[..], other)) ==> GivenUp(buckets[..], other)
      ensures out.ErrorHasCause()
    {
      hide TableLeft, GoodHistory, Lookup, Put;
      ghost var t, w := buckets[..], window;
      n := PumpOne(id, out);
      if n != 0 {
        ServingLeavesLess(t, w, id, n);
        OthersStay(t, Served(Lookup(t, id).value, n));
      }
    }

    /** One pass over the first 256 active streams; FastCGI streams are served elsewhere. The
        frames of the pass are sent in order. Every file stream among them that may send sends,
        unless its file could not be read, and is given up, or those before it have used up the
        window of the connection. */
    method Flush(out: Http2Framing.Writer) returns (ghost failed: set<nat>)
      requires Valid() && out.Valid() && out.InOrder()
      modifies this`window, this`history, buckets, disk, out, out.sock, out.heap
      ensures Valid() && old(history) <= history && out.Valid() && out.InOrder()
      ensures forall k :: |old(history)| <= k < |history| ==> history[k].Data?
      ensures out.sent == old(out.sent) + FramesOf(history[|old(history)|..])
      ensures TableLeft(buckets[..]) <= old(TableLeft(buckets[..]))
      ensures forall id :: id in failed ==> GivenUp(buckets[..], id)
      ensures failed != {} ==> disk.failed > old(disk.failed)
      ensures forall k :: 0 <= k < |old(FirstActive(buckets[..]))| ==>
        var (id, fcgi) := old(FirstActive(buckets[..]))[k];
        !fcgi && old(MaySend(buckets[..], window, id)) ==>
          && TableLeft(buckets[..]) < old(TableLeft(buckets[..]))
          && (id in failed || |history| > |old(history)|)
          && (id in failed || window <= 0 || OffsetGrew(old(buckets[..]), buckets[..], id))
      ensures |old(TableActive(buckets[..]))| <= 256 ==> forall id: nat ::
        old(Lookup(buckets[..], id)).Some? ==>
          var st := old(Lookup(buckets[..], id)).value;
          st.sending && st.open && st.state != 6 && !st.fcgi && st.offset < |st.file| && old(window) > 0 && st.win > 0 ==>
            && (id in failed || |history| > |old(history)|)
            && (id in failed || window <= 0 || OffsetGrew(old(buckets[..]), buckets[..], id))
      ensures out.ErrorHasCause()
    {
      hide Agrees, GoodHistory, Put, Lookup, ConnectionWindow, InitialWindow, HasFile, FirstActive, TableLeft, FramesOf;
      hide Http2Framing.EncodeAll, GivenUp, OffsetGrew;
      var ids := CollectActive();
      ghost var t, w := buckets[..], window;
      TableIsWellFormed();
      ListedOnce(t);
      var k := 0;
      failed := {};
      assert out.sent + [] == out.sent;
      while k < |ids|
        invariant k <= |ids| && Valid() && old(history) <= history && out.Valid() && out.InOrder()
        invariant forall j :: |old(history)| <= j < |history| ==> history[j].Data?
        invariant out.sent == old(out.sent) + FramesOf(history[|old(history)|..])
        invariant TableLeft(buckets[..]) <= TableLeft(t) && out.ErrorHasCause()
        invariant |history| > |old(history)| || failed != {} ==> TableLeft(buckets[..]) < TableLeft(t)
        invariant forall id :: id in failed ==> GivenUp(buckets[..], id)
        invariant window <= w && disk.failed >= old(disk.failed) && (failed != {} ==> disk.failed > old(disk.failed))
        invariant |history| == |old(history)| ==> window == w
        invariant forall j :: k <= j < |ids| ==> Lookup(buckets[..], ids[j].0) == Lookup(t, ids[j].0)
        invariant forall j :: 0 <= j < k && !ids[j].1 && MaySend(t, w, ids[j].0) ==>
          && (ids[j].0 in failed || |history| > |old(history)|)
          && (ids[j].0 in failed || window <= 0 || OffsetGrew(t, buckets[..], ids[j].0))
      {
        var (id, fcgi) := ids[k];
        if !fcgi {
          ghost var h, before := history, buckets[..];
          var n := Serve(id, out);
          ServedOnly(t, before, buckets[..], ids, k);
          if n > 0 {
            FramesGrow(old(history), h, history[|history| - 1], old(out.sent));
          } else if n < 0 {
            failed := failed + {id};
          }
        }
        k := k + 1;
      }
      AllListed(t, w);
    }

    /** Whether the connection must wait to write again. */
    method HasActive() returns (active: bool)
      requires buckets.Length == BUCKETS
      ensures active <==> exists b, i ::
        && 0 <= b < BUCKETS && 0 <= i < |buckets[b]|
        && ((buckets[b][i].sending && buckets[b][i].open && buckets[b][i].state != 6) || buckets[b][i].fcgi)
    {
      active := false;
      var b := 0;
      while b < BUCKETS && !active
        invariant b <= BUCKETS
        invariant active ==> exists c, i :: 0 <= c < BUCKETS && 0 <= i < |buckets[c]| && IsActive(buckets[c][i])
        invariant !active ==> forall c, i :: 0 <= c < b && 0 <= i < |buckets[c]| ==> !IsActive(buckets[c][i])
      {
        var i := 0;
        while i < |buckets[b]| && !active
          invariant i <= |buckets[b]|
          invariant active ==> exists c, j :: 0 <= c < BUCKETS && 0 <= j < |buckets[c]| && IsActive(buckets[c][j])
          invariant !active ==> forall j :: 0 <= j < i ==> !IsActive(buckets[b][j])
        {
          active := IsActive(buckets[b][i]);
          i := i + 1;
        }
        b := b + 1;
      }
    }
  }
}
