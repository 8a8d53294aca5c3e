/** Flow control and the static-file pump of an HTTP/2 session (sections 6.9.1 and 6.9.2
    of RFC 7540), over the stream table. */
module Http2FlowControl {
  import opened Bytes
  import Http2Framing
  import opened Http2Streams
  import opened Options

  const MAX_FRAME := Http2Framing.MAX_FRAME
  const DEFAULT_WINDOW: nat := 65535
  const MAX_PUMPED := 256

  /** Two's complement of 32 bits, as the window fields wrap. */
  function Wrap32(x: int): int {
    (x + 0x8000_0000) % 0x1_0000_0000 - 0x8000_0000
  }

  lemma {:induction false} ShiftMod(x: int, k: int)
    ensures (x - k * 0x1_0000_0000) % 0x1_0000_0000 == x % 0x1_0000_0000
    decreases if k < 0 then -k else k
  {
    if k > 0 {
      ShiftMod(x - 0x1_0000_0000, k - 1);
    } else if k < 0 {
      ShiftMod(x + 0x1_0000_0000, k + 1);
    }
  }

  lemma {:induction false} Wrap32Adds(a: int, b: int)
    ensures Wrap32(Wrap32(a) + b) == Wrap32(a + b)
    ensures -0x8000_0000 <= a < 0x8000_0000 ==> Wrap32(a) == a
  {
    var k := (a + 0x8000_0000) / 0x1_0000_0000;
    assert Wrap32(a) == a - k * 0x1_0000_0000;
    assert (a + b + 0x8000_0000 - k * 0x1_0000_0000) % 0x1_0000_0000 == (a + b + 0x8000_0000) % 0x1_0000_0000 by {
      ShiftMod(a + b + 0x8000_0000, k);
    }
  }

  // ----- The history of a session, and the ledger it implies

  datatype Event =
    | Created(id: nat)
    | Initial(value: nat)                             // SETTINGS_INITIAL_WINDOW_SIZE
    | Credit(id: nat, increment: nat)                 // WINDOW_UPDATE on a known stream
    | ConnectionCredit(increment: nat)
    | Opened(id: nat, file: bytes)                    // a static file is attached
    | Data(id: nat, payload: bytes, endStream: bool)  // a DATA frame of the pump

  type History = seq<Event>

  function Last(h: History): Event
    requires h != []
  {
    h[|h| - 1]
  }

  function Before(h: History): History
    requires h != []
  {
    h[..|h| - 1]
  }

  function InitialWindow(h: History): nat {
    if h == [] then DEFAULT_WINDOW
    else if Last(h).Initial? then Last(h).value
    else InitialWindow(Before(h))
  }

  /** The stream's credit minus the file bytes sent on it. */
  function Balance(h: History, id: nat): int {
    if h == [] then 0
    else
      var rest := Balance(Before(h), id);
      match Last(h)
      case Credit(i, n) => if i == id then rest + n else rest
      case Data(i, p, _) => if i == id then rest - |p| else rest
      case _ => rest
  }

  function ConnectionBalance(h: History): int {
    if h == [] then 0
    else
      var rest := ConnectionBalance(Before(h));
      match Last(h)
      case ConnectionCredit(n) => rest + n
      case Data(_, p, _) => rest - |p|
      case _ => rest
  }

  function Window(h: History, id: nat): int {
    Wrap32(InitialWindow(h) + Balance(h, id))
  }

  function ConnectionWindow(h: History): int {
    Wrap32(DEFAULT_WINDOW + ConnectionBalance(h))
  }

  /** The file last opened on the stream. */
  function FileOf(h: History, id: nat): Option<bytes> {
    if h == [] then None
    else if Last(h).Opened? && Last(h).id == id then Some(Last(h).file)
    else FileOf(Before(h), id)
  }

  /** The file bytes sent on the stream since then. */
  function SentOf(h: History, id: nat): bytes {
    if h == [] then []
    else if Last(h).Opened? && Last(h).id == id then []
    else if Last(h).Data? && Last(h).id == id then SentOf(Before(h), id) + Last(h).payload
    else SentOf(Before(h), id)
  }

  /** A DATA frame the pump may send after history `h`: within the frame size and both
      windows, the next bytes of the file, and END_STREAM exactly on the last of them. */
  ghost predicate MayPump(h: History, id: nat, payload: bytes, endStream: bool) {
    && 0 < |payload| <= MAX_FRAME
    && |payload| <= ConnectionWindow(h) && |payload| <= Window(h, id)
    && FileOf(h, id).Some?
    && SentOf(h, id) + payload <= FileOf(h, id).value
    && (endStream <==> SentOf(h, id) + payload == FileOf(h, id).value)
  }

  ghost predicate GoodHistory(h: History) {
    forall k :: 0 <= k < |h| && h[k].Data? ==> MayPump(h[..k], h[k].id, h[k].payload, h[k].endStream)
  }

  lemma {:induction false} HistoryGrows(h: History, e: Event)
    requires GoodHistory(h) && (e.Data? ==> MayPump(h, e.id, e.payload, e.endStream))
    ensures GoodHistory(h + [e])
  {
    forall k | 0 <= k < |h + [e]| && (h + [e])[k].Data?
      ensures var d := (h + [e])[k]; MayPump((h + [e])[..k], d.id, d.payload, d.endStream)
    {
      if k < |h| {
        assert (h + [e])[..k] == h[..k];
      } else {
        assert (h + [e])[..k] == h;
      }
    }
  }

  lemma {:induction false} LastOf(h: History, e: Event)
    ensures Last(h + [e]) == e && Before(h + [e]) == h
  {
  }

  /** The pump never takes a window below zero, so within it no window wraps. */
  lemma {:induction false} PumpLeavesWindowsNonNegative(h: History, id: nat, payload: bytes, endStream: bool)
    requires MayPump(h, id, payload, endStream)
    ensures var h' := h + [Data(id, payload, endStream)];
      && 0 <= Window(h', id) == Window(h, id) - |payload|
      && 0 <= ConnectionWindow(h') == ConnectionWindow(h) - |payload|
  {
    LastOf(h, Data(id, payload, endStream));
    Wrap32Adds(InitialWindow(h) + Balance(h, id), -|payload|);
    Wrap32Adds(DEFAULT_WINDOW + ConnectionBalance(h), -|payload|);
    Wrap32Adds(Window(h, id) - |payload|, 0);
    Wrap32Adds(ConnectionWindow(h) - |payload|, 0);
  }

  /** The 32-bit window is the ledger's own value exactly when that value fits. */
  lemma {:induction false} LedgerIsExact(h: History, id: nat)
    ensures Window(h, id) == InitialWindow(h) + Balance(h, id)
      <==> -0x8000_0000 <= InitialWindow(h) + Balance(h, id) < 0x8000_0000
    ensures ConnectionWindow(h) == DEFAULT_WINDOW + ConnectionBalance(h)
      <==> -0x8000_0000 <= DEFAULT_WINDOW + ConnectionBalance(h) < 0x8000_0000
  {
    Wrap32Adds(InitialWindow(h) + Balance(h, id), 0);
    Wrap32Adds(DEFAULT_WINDOW + ConnectionBalance(h), 0);
  }

  /** Over any run, what has been sent of a stream's file is a prefix of it. */
  lemma {:induction false} SentIsPrefix(h: History, id: nat)
    requires GoodHistory(h)
    ensures FileOf(h, id).Some? ==> SentOf(h, id) <= FileOf(h, id).value
    ensures FileOf(h, id).None? ==> SentOf(h, id) == []
  {
    if h != [] {
      var g := Before(h);
      assert forall k :: 0 <= k < |g| ==> g[..k] == h[..k];
      assert GoodHistory(g);
      SentIsPrefix(g, id);
      assert h[..|h| - 1] == g;
    }
  }

  // ----- The table keeps the ledger

  predicate HasFile(st: Stream) {
    st.sending && st.open && st.state != CLOSED
  }

  ghost predicate StreamOk(h: History, st: Stream) {
    && st.win == Window(h, st.id)
    && st.offset <= |st.file|
    && (st.sending && st.open ==>
          FileOf(h, st.id) == Some(st.file) && st.offset < |st.file| && SentOf(h, st.id) == st.file[..st.offset])
  }

  /** Every stream's window is what the ledger says, and every file it sends is where the
      history left it; a stream not in the table has no entries. */
  ghost predicate Agrees(t: Table, h: History) {
    && WellFormed(t)
    && (forall id :: Lookup(t, id).Some? ==> StreamOk(h, Lookup(t, id).value))
    && (forall id :: Lookup(t, id).None? ==> Balance(h, id) == 0)
  }

  /** An event about one stream leaves the ledger of every other alone. */
  lemma {:induction false} EventElsewhere(h: History, e: Event, id: nat)
    requires !e.Initial? && (e.Credit? || e.Opened? || e.Data? ==> e.id != id)
    ensures Window(h + [e], id) == Window(h, id) && Balance(h + [e], id) == Balance(h, id)
    ensures FileOf(h + [e], id) == FileOf(h, id) && SentOf(h + [e], id) == SentOf(h, id)
  {
    LastOf(h, e);
  }

  lemma {:induction false} PutAgrees(t: Table, st: Stream, h: History, e: Event)
    requires Agrees(t, h) && Lookup(t, st.id).Some?
    requires (e.Credit? || e.Opened? || e.Data?) && e.id == st.id
    requires StreamOk(h + [e], st)
    ensures Agrees(Put(t, st), h + [e])
  {
    LookupPut(t, st, st.id);
    forall id ensures Lookup(Put(t, st), id) == if id == st.id then Some(st) else Lookup(t, id) {
      LookupPut(t, st, id);
    }
    forall id | id != st.id
      ensures Lookup(t, id).Some? ==> StreamOk(h + [e], Lookup(t, id).value)
      ensures Balance(h + [e], id) == Balance(h, id)
    {
      EventElsewhere(h, e, id);
    }
  }

  /** A change that concerns neither window nor file. */
  lemma {:induction false} PutQuietlyAgrees(t: Table, st: Stream, h: History)
    requires Agrees(t, h) && Lookup(t, st.id).Some? && StreamOk(h, st)
    ensures Agrees(Put(t, st), h)
  {
    LookupPut(t, st, st.id);
    forall id ensures Lookup(Put(t, st), id) == if id == st.id then Some(st) else Lookup(t, id) {
      LookupPut(t, st, id);
    }
  }

  lemma {:induction false} AddAgrees(t: Table, st: Stream, h: History)
    requires Agrees(t, h) && st.id > 0 && Lookup(t, st.id).None?
    requires st.win == Wrap32(InitialWindow(h)) && !st.open && st.offset == 0
    ensures Agrees(Add(t, st), h + [Created(st.id)])
  {
    LookupAdd(t, st, st.id);
    forall id
      ensures Lookup(Add(t, st), id) == if id == st.id then Some(st) else Lookup(t, id)
      ensures Window(h + [Created(st.id)], id) == Window(h, id)
      ensures Balance(h + [Created(st.id)], id) == Balance(h, id)
      ensures FileOf(h + [Created(st.id)], id) == FileOf(h, id)
      ensures SentOf(h + [Created(st.id)], id) == SentOf(h, id)
    {
      LookupAdd(t, st, id);
      EventElsewhere(h, Created(st.id), id);
    }
  }

  function Shift(delta: int): Stream -> Stream {
    (st: Stream) => st.(win := Wrap32(st.win + delta))
  }

  /** The change of a window when SETTINGS replaces `before` by `after`. */
  function Delta(before: nat, after: nat): int {
    Wrap32(Wrap32(after) - Wrap32(before))
  }

  lemma {:induction false} DeltaMovesWindow(before: nat, after: nat, balance: int)
    ensures Wrap32(Wrap32(before + balance) + Delta(before, after)) == Wrap32(after + balance)
  {
    var d := Wrap32(after) - Wrap32(before);
    Wrap32Adds(before + balance, Delta(before, after));
    Wrap32Adds(d, before + balance);
    Wrap32Adds(after, balance - Wrap32(before) + before);
    Wrap32Adds(before, - Wrap32(before) + after + balance);
    assert Wrap32(d + (before + balance)) == Wrap32(Wrap32(after) + (balance - Wrap32(before) + before));
    assert Wrap32(after + (balance - Wrap32(before) + before)) == Wrap32(before + (- Wrap32(before) + after + balance));
    assert Wrap32(Wrap32(before) + (- Wrap32(before) + after + balance)) == Wrap32(after + balance);
  }

  lemma {:induction false} ShiftAgrees(t: Table, t': Table, h: History, after: nat)
    requires Agrees(t, h)
    requires Pointwise(t, t', Shift(Delta(InitialWindow(h), after)))
    ensures Agrees(t', h + [Initial(after)])
  {
    var f := Shift(Delta(InitialWindow(h), after));
    var h' := h + [Initial(after)];
    LookupPointwise(t, t', f, 0);
    forall id
      ensures Balance(h', id) == Balance(h, id)
      ensures Lookup(t', id) == if Lookup(t, id).Some? then Some(f(Lookup(t, id).value)) else None
      ensures Lookup(t', id).Some? ==> StreamOk(h', Lookup(t', id).value)
    {
      LastOf(h, Initial(after));
      LookupPointwise(t, t', f, id);
      DeltaMovesWindow(InitialWindow(h), after, Balance(h, id));
    }
  }

  lemma {:induction false} CreditFits(h: History, st: Stream, increment: nat)
    requires StreamOk(h, st)
    ensures var h' := h + [Credit(st.id, increment)];
      && StreamOk(h', st.(win := Wrap32(st.win + increment)))
      && ConnectionWindow(h') == ConnectionWindow(h) && InitialWindow(h') == InitialWindow(h)
  {
    LastOf(h, Credit(st.id, increment));
    Wrap32Adds(InitialWindow(h) + Balance(h, st.id), increment);
  }

  lemma {:induction false} CreditAgrees(t: Table, st: Stream, h: History, increment: nat)
    requires Agrees(t, h) && Lookup(t, st.id) == Some(st)
    ensures var h' := h + [Credit(st.id, increment)];
      && Agrees(Put(t, st.(win := Wrap32(st.win + increment))), h')
      && ConnectionWindow(h') == ConnectionWindow(h) && InitialWindow(h') == InitialWindow(h)
  {
    CreditFits(h, st, increment);
    PutAgrees(t, st.(win := Wrap32(st.win + increment)), h, Credit(st.id, increment));
  }

  /** What the pump makes of a stream after sending `payload`. */
  function Pumped(st: Stream, payload: bytes): Stream {
    var offset := st.offset + |payload|;
    var sent := st.(win := Wrap32(st.win - |payload|), offset := offset);
    if offset >= |st.file| then sent.(open := false, sending := false, state := CLOSED) else sent
  }

  lemma {:induction false} PumpFits(h: History, st: Stream, n: nat)
    requires StreamOk(h, st) && st.sending && st.open
    requires 0 < n <= MAX_FRAME && n <= |st.file| - st.offset && n <= st.win && n <= ConnectionWindow(h)
    ensures var payload := st.file[st.offset..st.offset + n];
      var endStream := st.offset + n >= |st.file|;
      var h' := h + [Data(st.id, payload, endStream)];
      && MayPump(h, st.id, payload, endStream)
      && StreamOk(h', Pumped(st, payload))
      && ConnectionWindow(h') == ConnectionWindow(h) - n && InitialWindow(h') == InitialWindow(h)
  {
    var payload := st.file[st.offset..st.offset + n];
    var endStream := st.offset + n >= |st.file|;
    var h' := h + [Data(st.id, payload, endStream)];
    LastOf(h, Data(st.id, payload, endStream));
    assert st.file[..st.offset] + payload == st.file[..st.offset + n];
    assert endStream ==> st.file[..st.offset + n] == st.file;
    assert MayPump(h, st.id, payload, endStream);
    PumpLeavesWindowsNonNegative(h, st.id, payload, endStream);
    Wrap32Adds(InitialWindow(h) + Balance(h, st.id), -(n as int));
  }

  lemma {:induction false} PumpAgrees(t: Table, st: Stream, h: History, n: nat)
    requires Agrees(t, h) && Lookup(t, st.id) == Some(st) && st.sending && st.open
    requires 0 < n <= MAX_FRAME && n <= |st.file| - st.offset && n <= st.win && n <= ConnectionWindow(h)
    ensures var payload := st.file[st.offset..st.offset + n];
      var endStream := st.offset + n >= |st.file|;
      var h' := h + [Data(st.id, payload, endStream)];
      && MayPump(h, st.id, payload, endStream) && Agrees(Put(t, Pumped(st, payload)), h')
      && ConnectionWindow(h') == ConnectionWindow(h) - n && InitialWindow(h') == InitialWindow(h)
  {
    PumpFits(h, st, n);
    var payload := st.file[st.offset..st.offset + n];
    PutAgrees(t, Pumped(st, payload), h, Data(st.id, payload, st.offset + n >= |st.file|));
  }
}
