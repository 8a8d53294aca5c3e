/** The FastCGI response relay: records from the backend (section 3.3 of the FastCGI
    Specification) become one HTTP/1.1 response with a chunked body. */
module FastCgiRelay {
  import opened Bytes
  import opened Chunked
  import opened FastCgiRecords
  import opened Options

  const HEADER_ROOM := 8191      // header_buffer without its final NUL
  const BODY_TEMP := 16384

  const BLANK: bytes := [13, 10, 13, 10]
  const STATUS: bytes := [115, 116, 97, 116, 117, 115, 58]             // "status:"
  const LOCATION: bytes := [108, 111, 99, 97, 116, 105, 111, 110, 58]  // "location:"
  const LENGTH: bytes :=                                               // "content-length:"
    [99, 111, 110, 116, 101, 110, 116, 45, 108, 101, 110, 103, 116, 104, 58]

  // ----- Text in the header buffer

  function Lower(b: byte): byte {
    if 65 <= b <= 90 then b + 32 else b
  }

  predicate Same(text: bytes, pattern: bytes)
    requires |text| == |pattern|
  {
    pattern == [] || (Lower(text[0]) == pattern[0] && Same(text[1..], pattern[1..]))
  }

  /** strcasestr, and strstr for a pattern without letters: the search ends at a NUL. */
  function Find(text: bytes, pattern: bytes): (r: Option<nat>)
    requires pattern != []
    ensures r.Some? ==> r.value + |pattern| <= |text|
  {
    if |text| < |pattern| || text[0] == 0 then None
    else if Same(text[..|pattern|], pattern) then Some(0)
    else
      match Find(text[1..], pattern)
      case None => None
      case Some(k) => Some(k + 1)
  }

  predicate MatchesAt(text: bytes, pattern: bytes, k: nat) {
    k + |pattern| <= |text| && Same(text[k..k + |pattern|], pattern)
  }

  /** Find gives the first match, and no NUL comes before it. */
  lemma {:induction false} FindIsFirst(text: bytes, pattern: bytes)
    requires pattern != [] && Find(text, pattern).Some?
    ensures var k := Find(text, pattern).value;
      && MatchesAt(text, pattern, k) && (forall j :: 0 <= j < k ==> text[j] != 0)
      && (forall j: nat :: j < k ==> !MatchesAt(text, pattern, j))
  {
    if !Same(text[..|pattern|], pattern) {
      FindIsFirst(text[1..], pattern);
      forall j: nat | j > 0 ensures MatchesAt(text, pattern, j) <==> MatchesAt(text[1..], pattern, j - 1) {
        if j + |pattern| <= |text| {
          assert text[1..][j - 1..j - 1 + |pattern|] == text[j..j + |pattern|];
        }
      }
      forall j: nat | 0 < j < Find(text, pattern).value ensures text[j] != 0 {
        assert text[j] == text[1..][j - 1];
      }
    }
  }

  /** A match stays where it is when more text arrives. */
  lemma {:induction false} FindIsStable(text: bytes, more: bytes, pattern: bytes)
    requires pattern != [] && Find(text, pattern).Some?
    ensures Find(text + more, pattern) == Find(text, pattern)
  {
    assert (text + more)[..|pattern|] == text[..|pattern|];
    if !Same(text[..|pattern|], pattern) {
      assert (text + more)[1..] == text[1..] + more;
      FindIsStable(text[1..], more, pattern);
    }
  }

  predicate Space(b: byte) {
    b == 32 || 9 <= b <= 13
  }

  function Digits(s: bytes, value: nat): nat {
    if s == [] || !(48 <= s[0] <= 57) then value else Digits(s[1..], 10 * value + s[0] as int - 48)
  }

  function Int32(v: int): int {
    var max := 0x7fff_ffff_ffff_ffff;
    var saturated := if v > max then max else if v < -max - 1 then -max - 1 else v;
    (saturated + 0x8000_0000) % 0x1_0000_0000 - 0x8000_0000
  }

  /** atoi, through a saturating 64-bit strtol cut to 32 bits. */
  function Atoi(s: bytes): int {
    if s == [] then 0
    else if Space(s[0]) then Atoi(s[1..])
    else if s[0] == 45 then Int32(-(Digits(s[1..], 0) as int))
    else Int32(Digits(if s[0] == 43 then s[1..] else s, 0))
  }

  /** Nothing of what follows the name is looked at when the name ends the text. */
  function CgiStatus(buf: bytes): int {
    match Find(buf, STATUS)
    case Some(k) => if k + 8 <= |buf| then Atoi(buf[k + 8..]) else 0
    case None => if Find(buf, LOCATION).Some? then 302 else 200
  }

  predicate Redirect(status: int) {
    300 <= status < 400
  }

  /** What the first lines of the response are made from. */
  datatype Start = Start(status: int, hasLength: bool)

  function StartOf(buf: bytes): Start {
    Start(CgiStatus(buf), Find(buf, LENGTH).Some?)
  }

  /** What the relay makes of a complete header buffer. */
  datatype Reply = Reply(status: int, first: bytes)

  /** The relay's answer, given how the first lines are worded. The relay below is defined
      for any answer; this is the one it is run with. */
  function AnswerOf(line: Start -> bytes): bytes -> Reply {
    (buf: bytes) => Reply(CgiStatus(buf), line(StartOf(buf)))
  }

  // ----- The relay on values

  /** The header buffer, whether the header has gone out, and all the client has. */
  datatype State = State(header: bytes, sent: bool, out: bytes)

  /** How a record ends: -2, 0 with what is left unread, or on to the next one. */
  datatype Turn = Fail | Done(out: bytes, unread: bytes) | Next(input: bytes, state: State)

  function Pulls(data: bytes): bytes {
    if data == [] then []
    else if |data| <= BODY_TEMP then Chunk(data)
    else Chunk(data[..BODY_TEMP]) + Pulls(data[BODY_TEMP..])
  }

  function NonEmptyChunk(data: bytes): bytes {
    if data == [] then [] else Chunk(data)
  }

  function Min(a: nat, b: nat): nat {
    if a < b then a else b
  }

  /** What is written once the header is complete: it ends at `k`, what else is in the
      buffer is body, and so is `more`, the rest of the record. */
  function Opening(answer: bytes -> Reply, buf: bytes, k: nat, more: bytes): bytes
    requires k <= |buf|
  {
    answer(buf).first + buf[..k] + NonEmptyChunk(buf[k..]) + Pulls(more)
  }

  /** The first lines and the CGI header. */
  function Head(answer: bytes -> Reply, buf: bytes, k: nat): bytes
    requires k <= |buf|
  {
    answer(buf).first + buf[..k]
  }

  /** The blank line ends at `k`: send the header, and what there is of the body. A redirect
      ends the response, and what is drained of its record is counted from the whole header
      buffer. */
  function Begin(answer: bytes -> Reply, remain: nat, drain: int, s: bytes, st: State, k: nat): Turn
    requires k <= |st.header|
  {
    if Redirect(answer(st.header).status) then
      Done(st.out + Head(answer, st.header, k), s[Min(if drain > 0 then drain else 0, |s|)..])
    else if |s| < remain then Fail
    else Next(s[remain..], State(st.header, true, st.out + Opening(answer, st.header, k, s[..remain])))
  }

  /** `remain` bytes of the record are still to be read, and `blank` is where the blank line
      is in the buffer. Without one they are taken for the records that follow. */
  function Gathered(answer: bytes -> Reply, remain: nat, drain: int, s: bytes, st: State, blank: Option<nat>): Turn
    requires blank.Some? ==> blank.value + 4 <= |st.header|
  {
    match blank
    case None => Next(s, st)
    case Some(k) => Begin(answer, remain, drain, s, st, k + 4)
  }

  /** STDOUT before the blank line has been seen: as much as fits goes to the buffer. */
  function Gather(answer: bytes -> Reply, length: nat, s: bytes, st: State): Turn
    requires |st.header| <= HEADER_ROOM
  {
    var take: nat := Min(length, HEADER_ROOM - |st.header|);
    if |s| < take then Fail
    else
      var buf := st.header + s[..take];
      Gathered(answer, length - take, length - |buf|, s[take..], st.(header := buf), Find(buf, BLANK))
  }

  function Content(answer: bytes -> Reply, kind: byte, length: nat, s: bytes, st: State): Turn
    requires |st.header| <= HEADER_ROOM
  {
    if kind == STDOUT && length > 0 && !st.sent then Gather(answer, length, s, st)
    else if kind == STDOUT && length > 0 then
      (if |s| < length then Fail else Next(s[length..], st.(out := st.out + Chunk(s[..length]))))
    else if kind == STDERR && length > 0 then
      (if |s| < length then Fail else Next(s[length..], st))
    else if kind == END_REQUEST then
      (if |s| < 8 then Fail else Done(st.out + (if st.sent then LAST_CHUNK else []), s[8..]))
    else Next(s, st)   // the content of any other record is taken for what follows it
  }

  function Skip(padding: nat, t: Turn): Turn {
    if !t.Next? then t
    else if |t.input| < padding then Fail
    else t.(input := t.input[padding..])
  }

  function Record(answer: bytes -> Reply, s: bytes, st: State): (t: Turn)
    requires |st.header| <= HEADER_ROOM
    ensures t.Next? ==> |t.input| + 8 <= |s| && |t.state.header| <= HEADER_ROOM
  {
    if |s| < 8 then Fail
    else Skip(s[6], Content(answer, s[1], U16(s[4..6]), s[8..], st))
  }

  /** Everything the client gets and what of the input is not read, if the relay succeeds. */
  function Relayed(answer: bytes -> Reply, s: bytes, st: State): Option<(bytes, bytes)>
    requires |st.header| <= HEADER_ROOM
    decreases |s|
  {
    match Record(answer, s, st)
    case Fail => None
    case Done(out, unread) => Some((out, unread))
    case Next(t, after) => Relayed(answer, t, after)
  }

  // ----- The body is preserved

  ghost predicate Proper(r: Rec) {
    (r.kind == STDOUT || r.kind == STDERR) && Fits(r)
  }

  function Wire(rs: seq<Rec>): bytes
    requires forall r :: r in rs ==> Proper(r)
  {
    if rs == [] then []
    else
      assert Proper(rs[0]);
      Encode(rs[0]) + Wire(rs[1..])
  }

  function Stdout(rs: seq<Rec>): bytes {
    if rs == [] then [] else (if rs[0].kind == STDOUT then rs[0].content else []) + Stdout(rs[1..])
  }

  /** The header buffer when the blank line is found, or when the records are used up. */
  function HeadBuffer(rs: seq<Rec>, header: bytes): bytes
    requires |header| <= HEADER_ROOM
  {
    if rs == [] || Find(header, BLANK).Some? then header
    else if rs[0].kind != STDOUT then HeadBuffer(rs[1..], header)
    else HeadBuffer(rs[1..], header + rs[0].content[..Min(|rs[0].content|, HEADER_ROOM - |header|)])
  }

  /** A record whose content is read whole leaves its padding, which is skipped. */
  lemma {:induction false} PaddingIsSkipped(content: bytes, padding: bytes, rest: bytes, st: State)
    ensures var s := content + (padding + rest);
      Skip(|padding|, Next(s[|content|..], st)) == Next(rest, st)
  {
    var s := content + (padding + rest);
    assert s[|content|..] == padding + rest;
  }

  lemma {:induction false} RecordOf(answer: bytes -> Reply, r: Rec, rest: bytes, st: State)
    requires Proper(r) && |st.header| <= HEADER_ROOM
    ensures Record(answer, Encode(r) + rest, st) ==
      Skip(|r.padding|, Content(answer, r.kind, |r.content|, r.content + (r.padding + rest), st))
  {
    hide Content, Skip, Encode;
    HeadOf(r, rest);
  }

  lemma {:induction false} SkipKeepsEnd(padding: nat, t: Turn)
    requires !t.Next?
    ensures Skip(padding, t) == t
  {
  }

  lemma {:induction false} PaddingGoes(padding: bytes, rest: bytes, st: State)
    ensures Skip(|padding|, Next(padding + rest, st)) == Next(rest, st)
  {
    assert (padding + rest)[|padding|..] == rest;
  }

  lemma {:induction false} RelayedOn(answer: bytes -> Reply, s: bytes, st: State)
    requires |st.header| <= HEADER_ROOM && Record(answer, s, st).Next?
    ensures var t := Record(answer, s, st);
      |t.state.header| <= HEADER_ROOM && Relayed(answer, s, st) == Relayed(answer, t.input, t.state)
  {
    hide Record;
  }

  lemma {:induction false} RelayedDone(answer: bytes -> Reply, s: bytes, st: State)
    requires |st.header| <= HEADER_ROOM && Record(answer, s, st).Done?
    ensures Relayed(answer, s, st) == Some((Record(answer, s, st).out, Record(answer, s, st).unread))
  {
    hide Record;
  }

  lemma {:induction false} StreamRecord(answer: bytes -> Reply, r: Rec, rest: bytes, st: State)
    requires Proper(r) && |st.header| <= HEADER_ROOM && st.sent
    ensures var s := Encode(r) + rest;
      Record(answer, s, st) == Next(rest, if r.kind == STDOUT then st.(out := st.out + NonEmptyChunk(r.content)) else st)
  {
    HeadOf(r, rest);
    var st' := if r.kind == STDOUT then st.(out := st.out + NonEmptyChunk(r.content)) else st;
    PaddingIsSkipped(r.content, r.padding, rest, st');
    var s := r.content + (r.padding + rest);
    assert s[..|r.content|] == r.content && s[0..] == s;
    assert st.out + [] == st.out;
  }

  lemma {:induction false} SilentRecord(answer: bytes -> Reply, r: Rec, rest: bytes, st: State)
    requires Proper(r) && |st.header| <= HEADER_ROOM && !st.sent
    requires r.kind == STDERR || r.content == []
    ensures var s := Encode(r) + rest;
      Record(answer, s, st) == Next(rest, st)
  {
    HeadOf(r, rest);
    PaddingIsSkipped(r.content, r.padding, rest, st);
    var s := r.content + (r.padding + rest);
    assert s[0..] == s;
  }

  function End(requestId: nat, body: bytes, padding: bytes): bytes
    requires |body| == 8 && |padding| < 0x100
  {
    RecordHead(END_REQUEST, requestId, 8, |padding|) + body + padding
  }

  lemma {:induction false} EndRecord(answer: bytes -> Reply, requestId: nat, body: bytes, padding: bytes, after: bytes, st: State)
    requires |body| == 8 && |padding| < 0x100 && |st.header| <= HEADER_ROOM && st.sent
    ensures Record(answer, End(requestId, body, padding) + after, st) == Done(st.out + LAST_CHUNK, padding + after)
  {
    var s := End(requestId, body, padding) + after;
    assert s[1] == END_REQUEST && s[8..] == body + (padding + after) && s[8..][8..] == padding + after;
  }

  /** Every non-empty STDOUT record as a chunk of its own. */
  function Chunks(rs: seq<Rec>): bytes {
    if rs == [] then [] else (if rs[0].kind == STDOUT then NonEmptyChunk(rs[0].content) else []) + Chunks(rs[1..])
  }

  ghost predicate Decodes(code: bytes, body: bytes, after: bytes) {
    Dechunk(code) == Some((body, after))
  }

  lemma {:induction false} NonEmptyChunkDecodes(data: bytes, rest: bytes, body: bytes, after: bytes)
    requires Decodes(rest, body, after)
    ensures Decodes(NonEmptyChunk(data) + rest, data + body, after)
  {
    if data == [] {
      assert [] + rest == rest && [] + body == body;
    } else {
      DechunkChunk(data, rest);
    }
  }

  lemma {:induction false} PullsUnfold(data: bytes, rest: bytes, body: bytes)
    requires |data| > BODY_TEMP
    ensures Pulls(data) + rest == NonEmptyChunk(data[..BODY_TEMP]) + (Pulls(data[BODY_TEMP..]) + rest)
    ensures data[..BODY_TEMP] + (data[BODY_TEMP..] + body) == data + body
  {
  }

  lemma {:induction false} PullsDecode(data: bytes, rest: bytes, body: bytes, after: bytes)
    requires Decodes(rest, body, after)
    ensures Decodes(Pulls(data) + rest, data + body, after)
    decreases |data|
  {
    if |data| <= BODY_TEMP {
      NonEmptyChunkDecodes(data, rest, body, after);
    } else {
      PullsUnfold(data, rest, body);
      PullsDecode(data[BODY_TEMP..], rest, body, after);
      NonEmptyChunkDecodes(data[..BODY_TEMP], Pulls(data[BODY_TEMP..]) + rest, data[BODY_TEMP..] + body, after);
    }
  }

  lemma {:induction false} ChunksUnfold(rs: seq<Rec>, last: bytes, body: bytes)
    requires rs != []
    ensures var c := if rs[0].kind == STDOUT then rs[0].content else [];
      && Chunks(rs) + last == NonEmptyChunk(c) + (Chunks(rs[1..]) + last)
      && Stdout(rs) + body == c + (Stdout(rs[1..]) + body)
  {
    var c := if rs[0].kind == STDOUT then rs[0].content else [];
    assert Chunks(rs) == NonEmptyChunk(c) + Chunks(rs[1..]);
    ConcatAssociates(NonEmptyChunk(c), Chunks(rs[1..]), last);
    ConcatAssociates(c, Stdout(rs[1..]), body);
  }

  lemma {:induction false} ChunksDecode(rs: seq<Rec>, last: bytes, body: bytes, after: bytes)
    requires Decodes(last, body, after)
    ensures Decodes(Chunks(rs) + last, Stdout(rs) + body, after)
  {
    if rs == [] {
      assert [] + last == last && [] + body == body;
    } else {
      var c := if rs[0].kind == STDOUT then rs[0].content else [];
      ChunksDecode(rs[1..], last, body, after);
      ChunksUnfold(rs, last, body);
      NonEmptyChunkDecodes(c, Chunks(rs[1..]) + last, Stdout(rs[1..]) + body, after);
    }
  }

  /** `end` is a record that finishes the response and leaves `unread`. */
  ghost predicate Finishes(answer: bytes -> Reply, end: bytes, unread: bytes) {
    forall header, out | |header| <= HEADER_ROOM ::
      Record(answer, end, State(header, true, out)) == Done(out + LAST_CHUNK, unread)
  }

  lemma {:induction false} StreamStep(answer: bytes -> Reply, r: Rec, rest: bytes, st: State)
    requires Proper(r) && |st.header| <= HEADER_ROOM && st.sent
    ensures Relayed(answer, Encode(r) + rest, st) == Relayed(answer, rest,
      State(st.header, true, st.out + if r.kind == STDOUT then NonEmptyChunk(r.content) else []))
  {
    StreamRecord(answer, r, rest, st);
    assert st.out + [] == st.out;
  }

  /** Once the header is out, the rest of the output is the chunks and the last chunk. */
  lemma {:induction false} StreamPhase(answer: bytes -> Reply, rs: seq<Rec>, end: bytes, unread: bytes, header: bytes, out: bytes)
    requires forall r :: r in rs ==> Proper(r)
    requires |header| <= HEADER_ROOM && Finishes(answer, end, unread)
    ensures Relayed(answer, Wire(rs) + end, State(header, true, out)) == Some((out + Chunks(rs) + LAST_CHUNK, unread))
    decreases |rs|
  {
    if rs == [] {
      assert [] + end == end && out + [] == out;
      assert Record(answer, end, State(header, true, out)) == Done(out + LAST_CHUNK, unread);
    } else {
      var c := if rs[0].kind == STDOUT then NonEmptyChunk(rs[0].content) else [];
      assert Proper(rs[0]);
      assert Wire(rs) + end == Encode(rs[0]) + (Wire(rs[1..]) + end);
      StreamStep(answer, rs[0], Wire(rs[1..]) + end, State(header, true, out));
      StreamPhase(answer, rs[1..], end, unread, header, out + c);
      assert (out + c) + Chunks(rs[1..]) == out + Chunks(rs);
    }
  }

  /** The record does not complete the header: its content is kept. */
  lemma {:induction false} GatherMore(answer: bytes -> Reply, r: Rec, rest: bytes, header: bytes, out: bytes)
    requires Proper(r) && r.kind == STDOUT && |header| + |r.content| <= HEADER_ROOM
    requires Find(header + r.content, BLANK).None?
    ensures Relayed(answer, Encode(r) + rest, State(header, false, out)) ==
      Relayed(answer, rest, State(header + r.content, false, out))
  {
    var st := State(header, false, out);
    if r.content == [] {
      SilentRecord(answer, r, rest, st);
      assert header + [] == header;
    } else {
      HeadOf(r, rest);
      PaddingIsSkipped(r.content, r.padding, rest, State(header + r.content, false, out));
      assert (r.content + (r.padding + rest))[..|r.content|] == r.content;
    }
  }

  lemma {:induction false} Regroup(a: bytes, b: bytes, c: bytes, d: bytes, e: bytes)
    ensures a + b + c + d + e == a + (b + c + d + e)
    ensures a + (b + c + d + e) == a + (b + c + (d + e)) == a + b + c + (d + e)
  {
  }

  /** The record, `head` then `more`, completes the header with `head`. */
  lemma {:induction false} ContentBegins(answer: bytes -> Reply, head: bytes, more: bytes, rest: bytes, st: State)
    requires head != [] && |st.header| <= HEADER_ROOM && !st.sent
    requires |head| == Min(|head| + |more|, HEADER_ROOM - |st.header|) && Find(st.header + head, BLANK).Some?
    ensures var n, buf := |head| + |more|, st.header + head;
      Content(answer, STDOUT, n, head + (more + rest), st) ==
        Begin(answer, |more|, n - |buf|, more + rest, st.(header := buf), Find(buf, BLANK).value + 4)
  {
    hide Begin, Opening, Head;
    var n, s, st' := |head| + |more|, head + (more + rest), st.(header := st.header + head);
    var blank := Find(st'.header, BLANK);
    assert s[..|head|] == head && s[|head|..] == more + rest;
    assert Content(answer, STDOUT, n, s, st) == Gather(answer, n, s, st);
    assert Gather(answer, n, s, st) == Gathered(answer, |more|, n - |st'.header|, more + rest, st', blank);
    assert Gathered(answer, |more|, n - |st'.header|, more + rest, st', blank) ==
      Begin(answer, |more|, n - |st'.header|, more + rest, st', blank.value + 4);
  }

  lemma {:induction false} BeginContinues(answer: bytes -> Reply, drain: int, more: bytes, rest: bytes, st: State, k: nat)
    requires k <= |st.header| && !Redirect(answer(st.header).status)
    ensures Begin(answer, |more|, drain, more + rest, st, k) ==
      Next(rest, State(st.header, true, st.out + Opening(answer, st.header, k, more)))
  {
    assert (more + rest)[..|more|] == more && (more + rest)[|more|..] == rest;
  }

  lemma {:induction false} ContentLast(answer: bytes -> Reply, head: bytes, more: bytes, rest: bytes, st: State)
    requires head != [] && |st.header| <= HEADER_ROOM && !st.sent
    requires |head| == Min(|head| + |more|, HEADER_ROOM - |st.header|)
    requires Find(st.header + head, BLANK).Some? && !Redirect(answer(st.header + head).status)
    ensures var buf := st.header + head;
      Content(answer, STDOUT, |head| + |more|, head + (more + rest), st) ==
        Next(rest, State(buf, true, st.out + Opening(answer, buf, Find(buf, BLANK).value + 4, more)))
  {
    hide Relayed, Record, Content, Skip, Gather, Gathered, Begin, Opening, Head, Pulls, NonEmptyChunk, Encode, Wire, Stdout, Chunks;
    var buf := st.header + head;
    ContentBegins(answer, head, more, rest, st);
    BeginContinues(answer, |head| + |more| - |buf|, more, rest, st.(header := buf), Find(buf, BLANK).value + 4);
  }

  lemma {:induction false} HeadAndMore(c: bytes, take: nat, rest: bytes)
    requires take <= |c|
    ensures |c[..take]| + |c[take..]| == |c| && c + rest == c[..take] + (c[take..] + rest)
  {
  }

  lemma {:induction false} GatherLast(answer: bytes -> Reply, r: Rec, rest: bytes, header: bytes, out: bytes, buf: bytes, take: nat)
    requires Proper(r) && r.kind == STDOUT && r.content != [] && |header| <= HEADER_ROOM
    requires 0 < take == Min(|r.content|, HEADER_ROOM - |header|) && buf == header + r.content[..take]
    requires Find(buf, BLANK).Some? && !Redirect(answer(buf).status)
    ensures Relayed(answer, Encode(r) + rest, State(header, false, out)) ==
      Relayed(answer, rest, State(buf, true, out + Opening(answer, buf, Find(buf, BLANK).value + 4, r.content[take..])))
  {
    hide Relayed, Record, Content, Skip, Gather, Gathered, Begin, Opening, Head, Pulls, NonEmptyChunk, Encode, Wire, Stdout, Chunks;
    var k := Find(buf, BLANK).value + 4;
    var after := State(buf, true, out + Opening(answer, buf, k, r.content[take..]));
    RecordOf(answer, r, rest, State(header, false, out));
    HeadAndMore(r.content, take, r.padding + rest);
    ContentLast(answer, r.content[..take], r.content[take..], r.padding + rest, State(header, false, out));
    PaddingGoes(r.padding, rest, after);
    assert Record(answer, Encode(r) + rest, State(header, false, out)) == Next(rest, after);
    RelayedOn(answer, Encode(r) + rest, State(header, false, out));
  }

  /** The blank line ends within the first 8191 bytes of the STDOUT text, at `k`. */
  ghost predicate BlankAt(text: bytes, k: nat) {
    Find(text[..Min(|text|, HEADER_ROOM)], BLANK) == Some(k)
  }

  /** The first buffer that holds the blank line holds it where the whole text does, and
      one that does not is not yet full. */
  lemma {:induction false} BlankIsFound(header: bytes, c: bytes, after: bytes, k: nat)
    requires |header| <= HEADER_ROOM && BlankAt(header + c + after, k)
    ensures var buf := header + c[..Min(|c|, HEADER_ROOM - |header|)];
      if Find(buf, BLANK).Some? then Find(buf, BLANK) == Some(k) else |header| + |c| <= HEADER_ROOM
  {
    var text := header + c + after;
    var buf := header + c[..Min(|c|, HEADER_ROOM - |header|)];
    var whole := text[..Min(|text|, HEADER_ROOM)];
    assert whole == buf + whole[|buf|..];
    assert |header| + |c| > HEADER_ROOM ==> whole == buf;
    if Find(buf, BLANK).Some? {
      FindIsStable(buf, whole[|buf|..], BLANK);
    }
  }

  lemma {:induction false} BlankNeedsMore(header: bytes, k: nat)
    requires |header| <= HEADER_ROOM && Find(header, BLANK).None?
    ensures !BlankAt(header + [], k)
  {
    assert (header + [])[..Min(|header|, HEADER_ROOM)] == header;
  }

  lemma {:induction false} WireUnfolds(rs: seq<Rec>, header: bytes, end: bytes)
    requires rs != [] && (forall r :: r in rs ==> Proper(r)) && |header| <= HEADER_ROOM
    ensures Proper(rs[0]) && Wire(rs) + end == Encode(rs[0]) + (Wire(rs[1..]) + end)
    ensures var c := if rs[0].kind == STDOUT then rs[0].content else [];
      && header + Stdout(rs) == header + c + Stdout(rs[1..])
      && (c == [] ==> header + c == header)
      && (Find(header, BLANK).None? ==>
            HeadBuffer(rs, header) == HeadBuffer(rs[1..], header + c[..Min(|c|, HEADER_ROOM - |header|)]))
  {
    assert Proper(rs[0]);
    assert header + [] == header;
  }

  /** The record leaves the header incomplete, or adds nothing to it. */
  lemma {:induction false} GatherStep(answer: bytes -> Reply, r: Rec, rest: bytes, header: bytes, out: bytes)
    requires Proper(r)
    requires var c := if r.kind == STDOUT then r.content else [];
      |header| + |c| <= HEADER_ROOM && Find(header + c, BLANK).None?
    ensures var c := if r.kind == STDOUT then r.content else [];
      Relayed(answer, Encode(r) + rest, State(header, false, out)) == Relayed(answer, rest, State(header + c, false, out))
  {
    if r.kind == STDOUT {
      GatherMore(answer, r, rest, header, out);
    } else {
      SilentRecord(answer, r, rest, State(header, false, out));
      assert header + [] == header;
    }
  }

  lemma {:induction false} LastGatherWire(answer: bytes -> Reply, r: Rec, later: seq<Rec>, end: bytes, unread: bytes,
      header: bytes, out: bytes, buf: bytes, take: nat)
    requires Proper(r) && r.kind == STDOUT && r.content != [] && |header| <= HEADER_ROOM
    requires forall q :: q in later ==> Proper(q)
    requires 0 < take == Min(|r.content|, HEADER_ROOM - |header|) && buf == header + r.content[..take]
    requires Find(buf, BLANK).Some? && !Redirect(answer(buf).status) && Finishes(answer, end, unread)
    ensures var opening := Opening(answer, buf, Find(buf, BLANK).value + 4, r.content[take..]);
      Relayed(answer, Encode(r) + (Wire(later) + end), State(header, false, out))
        == Some((out + opening + Chunks(later) + LAST_CHUNK, unread))
  {
    hide Relayed, Record, Content, Skip, Gather, Gathered, Begin, Opening, Head, Pulls, NonEmptyChunk, Encode, Wire, Stdout, Chunks;
    var opening := Opening(answer, buf, Find(buf, BLANK).value + 4, r.content[take..]);
    GatherLast(answer, r, Wire(later) + end, header, out, buf, take);
    assert Relayed(answer, Encode(r) + (Wire(later) + end), State(header, false, out)) ==
      Relayed(answer, Wire(later) + end, State(buf, true, out + opening));
    StreamPhase(answer, later, end, unread, buf, out + opening);
  }

  lemma {:induction false} OpeningThenStream(answer: bytes -> Reply, buf: bytes, n: nat, more: bytes, out: bytes, chunks: bytes, last: bytes)
    requires n <= |buf|
    ensures out + Opening(answer, buf, n, more) + chunks + last
      == out + (answer(buf).first + buf[..n] + (NonEmptyChunk(buf[n..]) + (Pulls(more) + (chunks + last))))
  {
    var a, b, c, d := answer(buf).first, buf[..n], NonEmptyChunk(buf[n..]), Pulls(more);
    Regroup(out, a + b, c, d, chunks + last);
    assert out + (a + b + c + d) + chunks + last == out + (a + b + c + d) + (chunks + last);
    assert out + (a + b + c + d) + (chunks + last) == out + (a + b + c + d + (chunks + last));
    assert a + b + c + d + (chunks + last) == a + b + (c + (d + (chunks + last)));
  }

  lemma {:induction false} CodedDecodes(first: bytes, more: bytes, later: seq<Rec>)
    ensures Decodes(NonEmptyChunk(first) + (Pulls(more) + (Chunks(later) + LAST_CHUNK)), first + (more + Stdout(later)), [])
  {
    DechunkLast([]);
    assert LAST_CHUNK + [] == LAST_CHUNK && Stdout(later) + [] == Stdout(later);
    ChunksDecode(later, LAST_CHUNK, [], []);
    PullsDecode(more, Chunks(later) + LAST_CHUNK, Stdout(later), []);
    NonEmptyChunkDecodes(first, Pulls(more) + (Chunks(later) + LAST_CHUNK), more + Stdout(later), []);
  }

  lemma {:induction false} LastGather(answer: bytes -> Reply, r: Rec, later: seq<Rec>, end: bytes, unread: bytes,
      header: bytes, out: bytes, buf: bytes, take: nat, k: nat) returns (coded: bytes)
    requires Proper(r) && r.kind == STDOUT && r.content != [] && |header| <= HEADER_ROOM
    requires forall q :: q in later ==> Proper(q)
    requires 0 < take == Min(|r.content|, HEADER_ROOM - |header|) && buf == header + r.content[..take]
    requires Find(buf, BLANK) == Some(k) && !Redirect(answer(buf).status) && Finishes(answer, end, unread)
    ensures Relayed(answer, Encode(r) + (Wire(later) + end), State(header, false, out))
      == Some((out + (answer(buf).first + buf[..k + 4] + coded), unread))
    ensures Decodes(coded, buf[k + 4..] + (r.content[take..] + Stdout(later)), [])
  {
    hide Relayed, Record, Content, Skip, Gather, Gathered, Begin, Opening, Head, Pulls, NonEmptyChunk, Encode, Wire, Stdout, Chunks;
    var n, more := k + 4, r.content[take..];
    coded := NonEmptyChunk(buf[n..]) + (Pulls(more) + (Chunks(later) + LAST_CHUNK));
    LastGatherWire(answer, r, later, end, unread, header, out, buf, take);
    OpeningThenStream(answer, buf, n, more, out, Chunks(later), LAST_CHUNK);
    CodedDecodes(buf[n..], more, later);
  }

  /** The text from the buffer and what follows it. */
  lemma {:induction false} TextParts(header: bytes, c: bytes, take: nat, rest: bytes, n: nat)
    requires take <= |c| && n <= |header| + take
    ensures var text, buf := header + c + rest, header + c[..take];
      n <= |text| && text[..n] == buf[..n] && text[n..] == buf[n..] + (c[take..] + rest)
  {
    var buf := header + c[..take];
    assert header + c + rest == buf + (c[take..] + rest);
  }

  lemma {:induction false} GatherPhase(answer: bytes -> Reply, rs: seq<Rec>, end: bytes, unread: bytes,
      header: bytes, out: bytes, k: nat) returns (coded: bytes)
    requires forall r :: r in rs ==> Proper(r)
    requires |header| <= HEADER_ROOM && Finishes(answer, end, unread) && Find(header, BLANK).None?
    requires BlankAt(header + Stdout(rs), k) && !Redirect(answer(HeadBuffer(rs, header)).status)
    ensures var text := header + Stdout(rs);
      && k + 4 <= |text|
      && Relayed(answer, Wire(rs) + end, State(header, false, out))
        == Some((out + (answer(HeadBuffer(rs, header)).first + text[..k + 4] + coded), unread))
      && Decodes(coded, text[k + 4..], [])
    decreases |rs|
  {
    hide Relayed, Encode, Wire, Decodes;
    var text := header + Stdout(rs);
    BlankNeedsMore(header, k);
    if rs != [] {
      var r, later := rs[0], rs[1..];
      assert Proper(r);
      var c := if r.kind == STDOUT then r.content else [];
      WireUnfolds(rs, header, end);
      BlankIsFound(header, c, Stdout(later), k);
      var take: nat := Min(|c|, HEADER_ROOM - |header|);
      var buf := header + c[..take];
      assert take == 0 ==> buf == header;
      assert c == [] ==> buf == header + c;
      if Find(buf, BLANK).None? {
        assert buf == header + c;
        GatherStep(answer, r, Wire(later) + end, header, out);
        coded := GatherPhase(answer, later, end, unread, header + c, out, k);
      } else {
        coded := LastGather(answer, r, later, end, unread, header, out, buf, take, k);
        TextParts(header, c, take, Stdout(later), k + 4);
      }
    }
  }

  lemma {:induction false} AnyRelayPreservesBody(answer: bytes -> Reply, rs: seq<Rec>, endId: nat, endBody: bytes,
      padding: bytes, after: bytes, k: nat) returns (coded: bytes)
    requires forall r :: r in rs ==> Proper(r)
    requires |endBody| == 8 && |padding| < 0x100
    requires BlankAt(Stdout(rs), k) && !Redirect(answer(HeadBuffer(rs, [])).status)
    ensures var text := Stdout(rs);
      && k + 4 <= |text|
      && Relayed(answer, Wire(rs) + (End(endId, endBody, padding) + after), State([], false, []))
        == Some((answer(HeadBuffer(rs, [])).first + text[..k + 4] + coded, padding + after))
      && Dechunk(coded) == Some((text[k + 4..], []))
  {
    var end := End(endId, endBody, padding) + after;
    forall header, out | |header| <= HEADER_ROOM
      ensures Record(answer, end, State(header, true, out)) == Done(out + LAST_CHUNK, padding + after)
    {
      EndRecord(answer, endId, endBody, padding, after, State(header, true, out));
    }
    assert [] + Stdout(rs) == Stdout(rs);
    coded := GatherPhase(answer, rs, end, padding + after, [], [], k);
    var all := answer(HeadBuffer(rs, [])).first + Stdout(rs)[..k + 4] + coded;
    assert [] + all == all;
  }

  /** The relay preserves the body. Under any split of the backend's output into STDOUT
      records, with any padding and any STDERR records between them, the client gets the
      CGI header, and what follows it decodes to exactly the bytes after the blank line,
      ended once. What is left unread is the padding of END_REQUEST. */
  lemma {:induction false} RelayPreservesBody(line: Start -> bytes, rs: seq<Rec>, endId: nat, endBody: bytes,
      padding: bytes, after: bytes, k: nat) returns (coded: bytes)
    requires forall r :: r in rs ==> Proper(r)
    requires |endBody| == 8 && |padding| < 0x100
    requires BlankAt(Stdout(rs), k) && !Redirect(CgiStatus(HeadBuffer(rs, [])))
    ensures var text := Stdout(rs);
      && k + 4 <= |text|
      && Relayed(AnswerOf(line), Wire(rs) + (End(endId, endBody, padding) + after), State([], false, []))
        == Some((line(StartOf(HeadBuffer(rs, []))) + text[..k + 4] + coded, padding + after))
      && Dechunk(coded) == Some((text[k + 4..], []))
  {
    coded := AnyRelayPreservesBody(AnswerOf(line), rs, endId, endBody, padding, after, k);
  }

  // ----- The other responses

  lemma {:induction false} BeginRedirects(answer: bytes -> Reply, remain: nat, drain: int, s: bytes, st: State, k: nat)
      returns (unread: bytes)
    requires k <= |st.header| && Redirect(answer(st.header).status)
    ensures Begin(answer, remain, drain, s, st, k) == Done(st.out + Head(answer, st.header, k), unread)
    ensures 0 <= drain <= |s| ==> unread == s[drain..]
  {
    unread := Begin(answer, remain, drain, s, st, k).unread;
  }

  /** The record that completes the header of a redirect. */
  lemma {:induction false} RedirectRecord(answer: bytes -> Reply, r: Rec, rest: bytes, header: bytes, out: bytes, buf: bytes,
      take: nat) returns (unread: bytes)
    requires Proper(r) && r.kind == STDOUT && r.content != [] && |header| <= HEADER_ROOM
    requires 0 < take == Min(|r.content|, HEADER_ROOM - |header|) && buf == header + r.content[..take]
    requires Find(buf, BLANK).Some? && Redirect(answer(buf).status)
    ensures Record(answer, Encode(r) + rest, State(header, false, out)) ==
      Done(out + Head(answer, buf, Find(buf, BLANK).value + 4), unread)
    ensures header == [] ==> unread == r.padding + rest
  {
    hide Relayed, Record, Content, Skip, Gather, Gathered, Begin, Opening, Head, Pulls, NonEmptyChunk, Encode, Wire, Stdout, Chunks;
    var head, more, k := r.content[..take], r.content[take..], Find(buf, BLANK).value + 4;
    RecordOf(answer, r, rest, State(header, false, out));
    HeadAndMore(r.content, take, r.padding + rest);
    ContentBegins(answer, head, more, r.padding + rest, State(header, false, out));
    unread := BeginRedirects(answer, |more|, |r.content| - |buf|, more + (r.padding + rest), State(buf, false, out), k);
    SkipKeepsEnd(|r.padding|, Done(out + Head(answer, buf, k), unread));
    assert header == [] ==> (more + (r.padding + rest))[|more|..] == r.padding + rest;
  }

  lemma {:induction false} HeadOfText(answer: bytes -> Reply, header: bytes, c: bytes, take: nat, rest: bytes, n: nat)
    requires take <= |c| && n <= |header| + take
    ensures var text, buf := header + c + rest, header + c[..take];
      n <= |text| && Head(answer, buf, n) == answer(buf).first + text[..n]
  {
    TextParts(header, c, take, rest, n);
  }

  lemma {:induction false} RedirectPhase(answer: bytes -> Reply, rs: seq<Rec>, end: bytes, header: bytes, out: bytes, k: nat)
      returns (unread: bytes)
    requires forall r :: r in rs ==> Proper(r)
    requires |header| <= HEADER_ROOM && Find(header, BLANK).None?
    requires BlankAt(header + Stdout(rs), k) && Redirect(answer(HeadBuffer(rs, header)).status)
    ensures var text := header + Stdout(rs);
      && k + 4 <= |text|
      && Relayed(answer, Wire(rs) + end, State(header, false, out))
        == Some((out + (answer(HeadBuffer(rs, header)).first + text[..k + 4]), unread))
    decreases |rs|
  {
    hide Relayed, Encode, Wire, Record, Head;
    BlankNeedsMore(header, k);
    if rs != [] {
      var r, later := rs[0], rs[1..];
      assert Proper(r);
      var c := if r.kind == STDOUT then r.content else [];
      WireUnfolds(rs, header, end);
      BlankIsFound(header, c, Stdout(later), k);
      var take: nat := Min(|c|, HEADER_ROOM - |header|);
      var buf := header + c[..take];
      assert take == 0 ==> buf == header;
      assert c == [] ==> buf == header + c;
      if Find(buf, BLANK).None? {
        assert buf == header + c;
        GatherStep(answer, r, Wire(later) + end, header, out);
        unread := RedirectPhase(answer, later, end, header + c, out, k);
      } else {
        unread := RedirectRecord(answer, r, Wire(later) + end, header, out, buf, take);
        RelayedDone(answer, Encode(r) + (Wire(later) + end), State(header, false, out));
        HeadOfText(answer, header, c, take, Stdout(later), k + 4);
      }
    }
  }

  /** A redirect is answered with its header alone: whatever body there is, and even the end
      of the response, is not passed on. */
  lemma {:induction false} RedirectHasNoBody(line: Start -> bytes, rs: seq<Rec>, end: bytes, k: nat) returns (unread: bytes)
    requires forall r :: r in rs ==> Proper(r)
    requires BlankAt(Stdout(rs), k) && Redirect(CgiStatus(HeadBuffer(rs, [])))
    ensures k + 4 <= |Stdout(rs)|
    ensures Relayed(AnswerOf(line), Wire(rs) + end, State([], false, [])) ==
      Some((line(StartOf(HeadBuffer(rs, []))) + Stdout(rs)[..k + 4], unread))
  {
    assert [] + Stdout(rs) == Stdout(rs);
    unread := RedirectPhase(AnswerOf(line), rs, end, [], [], k);
    var all := line(StartOf(HeadBuffer(rs, []))) + Stdout(rs)[..k + 4];
    assert [] + all == all;
  }

  /** If its header comes whole in the first record, what is left unread is the padding of
      that record and all that follows it. */
  lemma {:induction false} RedirectDrainsItsRecord(line: Start -> bytes, r: Rec, rest: bytes)
    requires Proper(r) && r.kind == STDOUT && r.content != []
    requires var buf := r.content[..Min(|r.content|, HEADER_ROOM)];
      Find(buf, BLANK).Some? && Redirect(CgiStatus(buf))
    ensures var buf := r.content[..Min(|r.content|, HEADER_ROOM)];
      Relayed(AnswerOf(line), Encode(r) + rest, State([], false, [])) ==
        Some((line(StartOf(buf)) + r.content[..Find(buf, BLANK).value + 4], r.padding + rest))
  {
    hide Relayed, Record, Encode, CgiStatus, StartOf;
    var take: nat := Min(|r.content|, HEADER_ROOM);
    var buf := r.content[..take];
    var k := Find(buf, BLANK).value + 4;
    assert [] + buf == buf && [] + r.content == r.content;
    var unread := RedirectRecord(AnswerOf(line), r, rest, [], [], buf, take);
    RelayedDone(AnswerOf(line), Encode(r) + rest, State([], false, []));
    assert [] + (line(StartOf(buf)) + buf[..k]) == line(StartOf(buf)) + r.content[..k];
  }

  /** Records that fit the buffer and bring no blank line are kept there. */
  lemma {:induction false} GatherAll(answer: bytes -> Reply, rs: seq<Rec>, rest: bytes, header: bytes, out: bytes)
    requires forall r :: r in rs ==> Proper(r)
    requires |header + Stdout(rs)| <= HEADER_ROOM && Find(header + Stdout(rs), BLANK).None?
    ensures Relayed(answer, Wire(rs) + rest, State(header, false, out))
      == Relayed(answer, rest, State(header + Stdout(rs), false, out))
    decreases |rs|
  {
    if rs == [] {
      assert [] + rest == rest && header + [] == header;
    } else {
      var r, later := rs[0], rs[1..];
      assert Proper(r);
      var c := if r.kind == STDOUT then r.content else [];
      WireUnfolds(rs, header, rest);
      if Find(header + c, BLANK).Some? {
        FindIsStable(header + c, Stdout(later), BLANK);
      }
      GatherStep(answer, r, Wire(later) + rest, header, out);
      GatherAll(answer, later, rest, header + c, out);
    }
  }

  lemma {:induction false} SilentEnd(answer: bytes -> Reply, requestId: nat, body: bytes, padding: bytes, after: bytes, st: State)
    requires |body| == 8 && |padding| < 0x100 && |st.header| <= HEADER_ROOM && !st.sent
    ensures Record(answer, End(requestId, body, padding) + after, st) == Done(st.out, padding + after)
  {
    var s := End(requestId, body, padding) + after;
    assert s[1] == END_REQUEST && s[8..] == body + (padding + after) && s[8..][8..] == padding + after;
    assert st.out + [] == st.out;
  }

  /** Output without a blank line, if it fits the buffer, is lost without a trace: the relay
      succeeds and the client gets nothing. */
  lemma {:induction false} NoBlankLineNoResponse(line: Start -> bytes, rs: seq<Rec>, endId: nat, endBody: bytes, padding: bytes, after: bytes)
    requires forall r :: r in rs ==> Proper(r)
    requires |endBody| == 8 && |padding| < 0x100
    requires |Stdout(rs)| <= HEADER_ROOM && Find(Stdout(rs), BLANK).None?
    ensures Relayed(AnswerOf(line), Wire(rs) + (End(endId, endBody, padding) + after), State([], false, [])) == Some(([], padding + after))
  {
    hide Record, Wire, Stdout, End;
    var end := End(endId, endBody, padding) + after;
    assert [] + Stdout(rs) == Stdout(rs);
    GatherAll(AnswerOf(line), rs, end, [], []);
    SilentEnd(AnswerOf(line), endId, endBody, padding, after, State(Stdout(rs), false, []));
    RelayedDone(AnswerOf(line), end, State(Stdout(rs), false, []));
  }

  lemma {:induction false} ContentGathers(answer: bytes -> Reply, n: nat, s: bytes, st: State)
    requires n > 0 && |st.header| <= HEADER_ROOM && !st.sent
    ensures Content(answer, STDOUT, n, s, st) == Gather(answer, n, s, st)
  {
    hide Gather;
  }

  lemma {:induction false} GatherFills(answer: bytes -> Reply, n: nat, head: bytes, rest: bytes, st: State)
    requires |st.header| + |head| == HEADER_ROOM < |st.header| + n && Find(st.header + head, BLANK).None?
    ensures Gather(answer, n, head + rest, st) == Next(rest, st.(header := st.header + head))
  {
    assert (head + rest)[..|head|] == head && (head + rest)[|head|..] == rest;
  }

  lemma {:induction false} SkipTakes(padding: nat, s: bytes, st: State)
    requires padding <= |s|
    ensures Skip(padding, Next(s, st)) == Next(s[padding..], st)
  {
  }

  /** A record that overruns the buffer without a blank line: what did not fit is taken for
      the records that follow, less as many bytes as the record has padding. */
  lemma {:induction false} OverflowRecord(answer: bytes -> Reply, r: Rec, rest: bytes, header: bytes, out: bytes)
    requires Proper(r) && r.kind == STDOUT && |header| <= HEADER_ROOM < |header| + |r.content|
    requires Find(header + r.content[..HEADER_ROOM - |header|], BLANK).None?
    ensures var take := HEADER_ROOM - |header|;
      var unread := r.content[take..] + (r.padding + rest);
      Record(answer, Encode(r) + rest, State(header, false, out))
        == Next(unread[|r.padding|..], State(header + r.content[..take], false, out))
  {
    hide Relayed, Record, Content, Skip, Gather, Encode;
    var take := HEADER_ROOM - |header|;
    var st, n, s := State(header, false, out), |r.content|, r.content + (r.padding + rest);
    var buf := header + r.content[..take];
    RecordOf(answer, r, rest, st);
    assert Content(answer, STDOUT, n, s, st) == Gather(answer, n, s, st) by {
      ContentGathers(answer, n, s, st);
    }
    HeadAndMore(r.content, take, r.padding + rest);
    GatherFills(answer, n, r.content[..take], r.content[take..] + (r.padding + rest), st);
    SkipTakes(|r.padding|, r.content[take..] + (r.padding + rest), State(buf, false, out));
  }

  /** From then on nothing is ever sent, whatever follows is taken for. */
  lemma {:induction false} FullBufferSendsNothing(answer: bytes -> Reply, s: bytes, header: bytes, out: bytes)
    requires |header| == HEADER_ROOM && Find(header, BLANK).None?
    ensures match Relayed(answer, s, State(header, false, out))
      case None => true
      case Some((sent, _)) => sent == out
    decreases |s|
  {
    hide Begin, Opening;
    var st := State(header, false, out);
    assert out + [] == out && header + [] == header;
    if |s| >= 8 {
      assert s[8..][..0] == [] && s[8..][0..] == s[8..];
      var t := Record(answer, s, st);
      if t.Next? {
        assert t.state == st;
        FullBufferSendsNothing(answer, t.input, header, out);
      }
    }
  }

  /** Output that fills the buffer before a blank line: the record that fills it is read on
      in its middle, and the client gets nothing. */
  lemma {:induction false} OverflowIsReadAsRecords(line: Start -> bytes, rs: seq<Rec>, r: Rec, rest: bytes)
    requires (forall q :: q in rs ==> Proper(q)) && Proper(r) && r.kind == STDOUT
    requires var text := Stdout(rs) + r.content;
      |Stdout(rs)| <= HEADER_ROOM < |text| && Find(text[..HEADER_ROOM], BLANK).None?
    ensures var text := Stdout(rs) + r.content;
      var unread := text[HEADER_ROOM..] + (r.padding + rest);
      && Relayed(AnswerOf(line), Wire(rs) + (Encode(r) + rest), State([], false, []))
        == Relayed(AnswerOf(line), unread[|r.padding|..], State(text[..HEADER_ROOM], false, []))
      && (match Relayed(AnswerOf(line), Wire(rs) + (Encode(r) + rest), State([], false, []))
          case None => true
          case Some((sent, _)) => sent == [])
  {
    hide Record, Relayed, Wire, Encode, Stdout, AnswerOf, Find;
    var header, take := Stdout(rs), HEADER_ROOM - |Stdout(rs)|;
    var text := header + r.content;
    assert text[..HEADER_ROOM] == header + r.content[..take] && text[HEADER_ROOM..] == r.content[take..];
    assert [] + header == header;
    if Find(header, BLANK).Some? {
      FindIsStable(header, r.content[..take], BLANK);
    }
    GatherAll(AnswerOf(line), rs, Encode(r) + rest, [], []);
    OverflowRecord(AnswerOf(line), r, rest, header, []);
    RelayedOn(AnswerOf(line), Encode(r) + rest, State(header, false, []));
    FullBufferSendsNothing(AnswerOf(line), (r.content[take..] + (r.padding + rest))[|r.padding|..], text[..HEADER_ROOM], []);
  }
}
