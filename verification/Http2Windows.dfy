/** What a peer achieves with SETTINGS and WINDOW_UPDATE, from the bytes of the payload to
    the windows (sections 6.5, 6.9 and 6.9.2 of RFC 7540). */
module Http2Windows {
  import opened Bytes
  import opened Http2FlowControl
  import opened Http2Session

  // ----- The payloads

  datatype Setting = Setting(id: nat, value: nat)

  predicate Fits(s: Setting) {
    s.id < 0x1_0000 && s.value < 0x1_0000_0000
  }

  function SettingsPayload(settings: seq<Setting>): bytes
    requires forall i :: 0 <= i < |settings| ==> Fits(settings[i])
  {
    if settings == [] then []
    else Be16(settings[0].id) + Be32(settings[0].value) + SettingsPayload(settings[1..])
  }

  /** The values for SETTINGS_INITIAL_WINDOW_SIZE, which has the identifier 4. */
  function InitialValues(settings: seq<Setting>): seq<nat> {
    if settings == [] then []
    else (if settings[0].id == 4 then [settings[0].value] else []) + InitialValues(settings[1..])
  }

  function Initials(values: seq<nat>): History {
    if values == [] then [] else [Initial(values[0])] + Initials(values[1..])
  }

  lemma {:induction false} EntryIsRead(before: bytes, s: Setting, rest: bytes)
    requires Fits(s)
    ensures InitialAt(before + Be16(s.id) + Be32(s.value) + rest, |before|) == if s.id == 4 then [Initial(s.value)] else []
  {
    var payload, at := before + Be16(s.id) + Be32(s.value) + rest, |before|;
    assert payload[at..at + 2] == Be16(s.id) && payload[at + 2..at + 6] == Be32(s.value);
    Be16RoundTrip(s.id);
    Be32RoundTrip(s.value);
  }

  lemma {:induction false} OneMoreInitial(s: Setting, rest: seq<nat>)
    ensures Initials((if s.id == 4 then [s.value] else []) + rest) == (if s.id == 4 then [Initial(s.value)] else []) + Initials(rest)
  {
    if s.id == 4 {
      assert ([s.value] + rest)[1..] == rest;
    } else {
      assert [] + rest == rest;
    }
  }

  lemma {:induction false} Regrouped(a: bytes, b: bytes, c: bytes, d: bytes, e: bytes)
    ensures a + (b + c + d) + e == a + b + c + (d + e)
    ensures a + (b + c + d) + e == (a + (b + c)) + d + e
  {
  }

  lemma {:induction false} FirstEntry(before: bytes, settings: seq<Setting>, after: bytes)
    requires settings != [] && forall i :: 0 <= i < |settings| ==> Fits(settings[i])
    ensures var s, tail := settings[0], SettingsPayload(settings[1..]) + after;
      var entry := Be16(s.id) + Be32(s.value);
      && before + SettingsPayload(settings) + after == before + Be16(s.id) + Be32(s.value) + tail
      && before + SettingsPayload(settings) + after == (before + entry) + SettingsPayload(settings[1..]) + after
      && |entry| == 6
  {
    var s, rest := settings[0], SettingsPayload(settings[1..]);
    Regrouped(before, Be16(s.id), Be32(s.value), rest, after);
  }

  lemma {:induction false} SettingsAreReadAt(before: bytes, settings: seq<Setting>, after: bytes)
    requires |after| < 6 && forall i :: 0 <= i < |settings| ==> Fits(settings[i])
    ensures InitialsFrom(before + SettingsPayload(settings) + after, |before|) == Initials(InitialValues(settings))
    decreases |settings|
  {
    if settings != [] {
      var s, tail := settings[0], settings[1..];
      var payload, entry := before + SettingsPayload(settings) + after, Be16(s.id) + Be32(s.value);
      FirstEntry(before, settings, after);
      EntryIsRead(before, s, SettingsPayload(tail) + after);
      OneMoreInitial(s, InitialValues(tail));
      assert InitialsFrom(payload, |before|) == InitialAt(payload, |before|) + InitialsFrom(payload, |before| + 6);
      assert Initials(InitialValues(settings)) == InitialAt(payload, |before|) + Initials(InitialValues(tail));
      hide InitialAt, InitialsFrom, Initials, InitialValues, SettingsPayload, Be16, Be32;
      SettingsAreReadAt(before + entry, tail, after);
    }
  }

  /** A SETTINGS payload sets the initial window to each value it gives for it, in order, and
      no other setting has any effect on the windows. */
  lemma {:induction false} SettingsAreRead(settings: seq<Setting>)
    requires forall i :: 0 <= i < |settings| ==> Fits(settings[i])
    ensures InitialsFrom(SettingsPayload(settings), 0) == Initials(InitialValues(settings))
  {
    assert SettingsPayload(settings) == [] + SettingsPayload(settings) + [];
    SettingsAreReadAt([], settings, []);
  }

  /** An increment is read without its highest bit. */
  lemma {:induction false} IncrementIsRead(n: nat, rest: bytes)
    requires n < 0x1_0000_0000
    ensures Increment(Be32(n) + rest) == if n < 0x8000_0000 then n else n - 0x8000_0000
  {
    assert (Be32(n) + rest)[..4] == Be32(n);
    Be32RoundTrip(n);
  }

  // ----- The windows

  /** Equal as 32-bit numbers. */
  ghost predicate SameWord(x: int, y: int) {
    (x - y) % 0x1_0000_0000 == 0
  }

  lemma {:induction false} WrapKeepsWord(x: int)
    ensures SameWord(Wrap32(x), x) && -0x8000_0000 <= Wrap32(x) <= 0x7fff_ffff
  {
    var k := (x + 0x8000_0000) / 0x1_0000_0000;
    assert Wrap32(x) - x == -k * 0x1_0000_0000;
  }

  lemma {:induction false} WordsAdd(a: int, b: int, c: int, d: int)
    requires SameWord(a, b) && SameWord(c, d)
    ensures SameWord(a + c, b + d) && SameWord(a - c, b - d) && SameWord(b, a)
  {
    var m, n := (a - b) / 0x1_0000_0000, (c - d) / 0x1_0000_0000;
    assert a - b == m * 0x1_0000_0000 && c - d == n * 0x1_0000_0000;
    ShiftMod((a + c) - (b + d), m + n);
    ShiftMod((a - c) - (b - d), m - n);
    ShiftMod(b - a, -m);
  }

  lemma {:induction false} WrapMoves(a: int, d: int)
    ensures SameWord(Wrap32(a + d), Wrap32(a) + d)
  {
    WrapKeepsWord(a + d);
    WrapKeepsWord(a);
    WordsAdd(Wrap32(a), a, d, d);
    WordsAdd(Wrap32(a) + d, a + d, 0, 0);
    WordsAdd(Wrap32(a + d), a + d, Wrap32(a) + d, a + d);
  }

  /** What each event does to the window of every stream and to that of the connection. */
  function StreamChange(h: History, e: Event, id: nat): int {
    match e
    case Initial(value) => value - InitialWindow(h)
    case Credit(i, n) => if i == id then n else 0
    case Data(i, payload, _) => if i == id then -|payload| else 0
    case _ => 0
  }

  function ConnectionChange(e: Event): int {
    match e
    case ConnectionCredit(n) => n
    case Data(_, payload, _) => -|payload|
    case _ => 0
  }

  /** Every window starts at 65535 and moves with each event by exactly that, in 32 bits: a
      setting moves all streams by the difference, a credit its stream or the connection, a
      DATA frame both, and nothing else moves any. */
  lemma {:induction false} WindowsMove(h: History, e: Event, id: nat)
    ensures Window([], id) == 65535 && ConnectionWindow([]) == 65535
    ensures SameWord(Window(h + [e], id), Window(h, id) + StreamChange(h, e, id))
    ensures SameWord(ConnectionWindow(h + [e]), ConnectionWindow(h) + ConnectionChange(e))
  {
    LastOf(h, e);
    var a, b := InitialWindow(h) + Balance(h, id), DEFAULT_WINDOW + ConnectionBalance(h);
    WrapMoves(a, StreamChange(h, e, id));
    WrapMoves(b, ConnectionChange(e));
  }
}
