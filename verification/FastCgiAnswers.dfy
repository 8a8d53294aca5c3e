/** What a header means for the client, in the header's own words: the status of the answer,
    and whether the page behind it is passed on. */
module FastCgiAnswers {
  import opened Bytes
  import opened Chunked
  import opened FastCgiRecords
  import opened FastCgiRelay
  import opened FastCgiStatus
  import opened Options

  predicate IsLetter(b: byte, c: char) {
    b == c as int || ('a' <= c <= 'z' && b == c as int - 32)
  }

  /** The text reads `name` at `k`, in letters of either case. */
  ghost predicate Reads(text: bytes, name: string, k: nat) {
    && k + |name| <= |text|
    && forall i :: 0 <= i < |name| ==> IsLetter(text[k + i], name[i])
  }

  /** As a C string it reads `name` at `k`: no NUL comes before it. */
  ghost predicate Names(text: bytes, name: string, k: nat) {
    Reads(text, name, k) && forall j :: 0 <= j < k ==> text[j] != 0
  }

  ghost predicate FirstNames(text: bytes, name: string, k: nat) {
    Names(text, name, k) && forall j: nat :: j < k ==> !Reads(text, name, j)
  }

  ghost predicate Spells(pattern: bytes, name: string) {
    && |pattern| == |name| > 0 && 0 !in pattern
    && forall i :: 0 <= i < |name| ==> pattern[i] == name[i] as int && !('A' <= name[i] <= 'Z')
  }

  // ----- The search, in these words

  lemma {:induction false} SameIsSpelled(text: bytes, pattern: bytes, name: string)
    requires |text| == |pattern| == |name|
    requires forall i :: 0 <= i < |name| ==> pattern[i] == name[i] as int && !('A' <= name[i] <= 'Z')
    ensures Same(text, pattern) <==> forall i :: 0 <= i < |name| ==> IsLetter(text[i], name[i])
  {
    if pattern != [] {
      SameIsSpelled(text[1..], pattern[1..], name[1..]);
      assert Lower(text[0]) == pattern[0] <==> IsLetter(text[0], name[0]);
      assert forall i :: 0 < i < |name| ==> text[i] == text[1..][i - 1] && name[i] == name[1..][i - 1];
    }
  }

  lemma {:induction false} MatchReads(text: bytes, pattern: bytes, name: string, k: nat)
    requires Spells(pattern, name)
    ensures MatchesAt(text, pattern, k) <==> Reads(text, name, k)
  {
    if k + |name| <= |text| {
      var window := text[k..k + |name|];
      SameIsSpelled(window, pattern, name);
      assert forall i :: 0 <= i < |name| ==> window[i] == text[k + i];
    }
  }

  /** The search finds the place that names it first, and nothing if there is none. */
  lemma {:induction false} FindReads(text: bytes, pattern: bytes, name: string)
    requires Spells(pattern, name)
    ensures match Find(text, pattern)
      case Some(k) => FirstNames(text, name, k)
      case None => forall k: nat :: !Names(text, name, k)
  {
    forall k: nat ensures MatchesAt(text, pattern, k) <==> Reads(text, name, k) {
      MatchReads(text, pattern, name, k);
    }
    match Find(text, pattern)
    case Some(k) => FindIsFirst(text, pattern);
    case None =>
      forall k: nat | Names(text, name, k) ensures false {
        assert IsLetter(text[k], name[0]) && pattern[0] in pattern;
        NoneMeansNoMatch(text, pattern, k);
      }
  }

  lemma {:induction false} FirstIsOnly(text: bytes, name: string, j: nat, k: nat)
    requires FirstNames(text, name, j) && FirstNames(text, name, k)
    ensures j == k
  {
  }

  lemma {:induction false} PatternsSpell()
    ensures Spells(STATUS, "status:") && Spells(LOCATION, "location:") && Spells(LENGTH, "content-length:")
    ensures Spells(BLANK, "\r\n\r\n")
  {
  }

  // ----- The status

  /** Neither a status nor a location is named: 200. */
  lemma {:induction false} PlainStatus(buf: bytes)
    requires forall k: nat :: !Names(buf, "status:", k) && !Names(buf, "location:", k)
    ensures CgiStatus(buf) == 200
  {
    PatternsSpell();
    FindReads(buf, STATUS, "status:");
    FindReads(buf, LOCATION, "location:");
  }

  /** A location without a status: 302. */
  lemma {:induction false} LocationStatus(buf: bytes, k: nat)
    requires (forall j: nat :: !Names(buf, "status:", j)) && Names(buf, "location:", k)
    ensures CgiStatus(buf) == 302
  {
    PatternsSpell();
    FindReads(buf, STATUS, "status:");
    FindReads(buf, LOCATION, "location:");
  }

  predicate DigitAt(text: bytes, k: nat, d: nat) {
    k < |text| && d < 10 && text[k] == 48 + d
  }

  /** From `k` on the text has the number `100 * a + 10 * b + c` and then no digit. */
  predicate NumberAt(text: bytes, k: nat, a: nat, b: nat, c: nat) {
    && DigitAt(text, k, a) && DigitAt(text, k + 1, b) && DigitAt(text, k + 2, c)
    && (k + 3 == |text| || !(48 <= text[k + 3] <= 57))
  }

  lemma {:induction false} ThreeDigits(s: bytes, a: nat, b: nat, c: nat)
    requires NumberAt(s, 0, a, b, c)
    ensures Atoi(s) == 100 * a + 10 * b + c
  {
    var t, u, v := s[1..], s[2..], s[3..];
    assert t[1..] == u && u[1..] == v && t[0] == s[1] && u[0] == s[2];
    assert v == [] || v[0] == s[3];
    assert Digits(v, 100 * a + 10 * b + c) == 100 * a + 10 * b + c;
    assert Digits(u, 10 * a + b) == Digits(v, 10 * (10 * a + b) + c);
    assert Digits(t, a) == Digits(u, 10 * a + b);
    assert Digits(s, 0) == Digits(t, a);
  }

  /** The first status named has a byte of any kind behind its name, then spaces, then its
      number from `m` on. */
  ghost predicate StatusAt(buf: bytes, k: nat, m: nat) {
    && FirstNames(buf, "status:", k) && k + 8 <= m <= |buf|
    && forall i :: k + 8 <= i < m ==> buf[i] == 32 || 9 <= buf[i] <= 13
  }

  /** A status with a three-digit number is that number. */
  lemma {:induction false} NumberedStatus(buf: bytes, k: nat, m: nat, a: nat, b: nat, c: nat)
    requires StatusAt(buf, k, m) && NumberAt(buf, m, a, b, c)
    ensures CgiStatus(buf) == 100 * a + 10 * b + c
  {
    PatternsSpell();
    FindReads(buf, STATUS, "status:");
    if Find(buf, STATUS).Some? {
      FirstIsOnly(buf, "status:", k, Find(buf, STATUS).value);
    }
    var spaces, s := buf[k + 8..m], buf[m..];
    assert buf[k + 8..] == spaces + s;
    SpacesAreSkipped(spaces, s);
    assert forall i :: 0 <= i < |s| ==> s[i] == buf[m + i];
    ThreeDigits(s, a, b, c);
  }

  // ----- What becomes of the page

  /** The header of the output ends at `k`, with its first blank line, and fits the buffer. */
  ghost predicate HeaderEndsAt(text: bytes, k: nat) {
    && k + 4 <= |text| && k + 4 <= 8191 && text[k..k + 4] == [13, 10, 13, 10]
    && (forall j :: 0 <= j < k ==> text[j] != 0 && text[j..j + 4] != [13, 10, 13, 10])
  }

  lemma {:induction false} BlankReads(text: bytes, k: nat)
    ensures Reads(text, "\r\n\r\n", k) <==> k + 4 <= |text| && text[k..k + 4] == [13, 10, 13, 10]
  {
    if k + 4 <= |text| {
      var w, name := text[k..k + 4], "\r\n\r\n";
      assert w == [text[k], text[k + 1], text[k + 2], text[k + 3]];
      assert name[0] == '\r' && name[1] == '\n' && name[2] == '\r' && name[3] == '\n';
      assert w == [13, 10, 13, 10] <==> text[k] == 13 && text[k + 1] == 10 && text[k + 2] == 13 && text[k + 3] == 10;
      if Reads(text, name, k) {
        assert IsLetter(text[k + 0], name[0]) && IsLetter(text[k + 1], name[1]);
        assert IsLetter(text[k + 2], name[2]) && IsLetter(text[k + 3], name[3]);
      }
    }
  }

  lemma {:induction false} HeaderIsFound(text: bytes, k: nat)
    requires HeaderEndsAt(text, k)
    ensures BlankAt(text, k)
  {
    var whole := text[..Min(|text|, HEADER_ROOM)];
    PatternsSpell();
    FindReads(whole, BLANK, "\r\n\r\n");
    forall j: nat | j <= k ensures Reads(whole, "\r\n\r\n", j) <==> text[j..j + 4] == [13, 10, 13, 10] {
      BlankReads(whole, j);
      assert j + 4 <= |whole| && whole[j..j + 4] == text[j..j + 4];
    }
    assert FirstNames(whole, "\r\n\r\n", k);
    if Find(whole, BLANK).Some? {
      FirstIsOnly(whole, "\r\n\r\n", k, Find(whole, BLANK).value);
    }
  }

  /** The output names none of it where the buffer can hold it. */
  ghost predicate Silent(text: bytes, name: string) {
    forall j: nat :: j + |name| <= 8191 ==> !Names(text, name, j)
  }

  /** What a text names it names still when it goes on. */
  lemma {:induction false} NamesLater(buf: bytes, text: bytes, name: string, j: nat)
    requires buf <= text && j + |name| <= |buf|
    ensures Reads(text, name, j) <==> Reads(buf, name, j)
    ensures Names(text, name, j) <==> Names(buf, name, j)
    ensures FirstNames(text, name, j) <==> FirstNames(buf, name, j)
  {
    assert forall i :: 0 <= i < |buf| ==> buf[i] == text[i];
    assert forall k: nat :: k <= j ==> (Reads(text, name, k) <==> Reads(buf, name, k));
  }

  lemma {:induction false} SilentPrefix(text: bytes, buf: bytes, name: string)
    requires buf <= text && |buf| <= 8191 && Silent(text, name)
    ensures forall j: nat :: !Names(buf, name, j)
  {
    forall j: nat | Names(buf, name, j) ensures false {
      NamesLater(buf, text, name, j);
    }
  }

  /** The status the relay gives this output, however it is split. */
  ghost predicate Answers(rs: seq<Rec>, n: int) {
    CgiStatus(HeadBuffer(rs, [])) == n
  }

  lemma {:induction false} NothingFound()
    ensures Find([], BLANK).None?
  {
  }

  lemma {:induction false} BufferIsPrefix(rs: seq<Rec>, k: nat) returns (buf: bytes)
    requires (forall r :: r in rs ==> Proper(r)) && HeaderEndsAt(Stdout(rs), k)
    ensures buf == HeadBuffer(rs, []) && buf <= Stdout(rs) && k + 4 <= |buf| <= 8191
  {
    hide Find, HeadBuffer;
    var head := Stdout(rs)[..k + 4];
    HeaderIsFound(Stdout(rs), k);
    OutputHasHeader(Stdout(rs), k);
    assert [] + Stdout(rs) == Stdout(rs);
    NothingFound();
    var body := BufferHoldsHeader(rs, [], head);
    buf := head + body;
  }

  lemma {:induction false} PlainOutput(rs: seq<Rec>, k: nat)
    requires (forall r :: r in rs ==> Proper(r)) && HeaderEndsAt(Stdout(rs), k)
    requires Silent(Stdout(rs), "status:") && Silent(Stdout(rs), "location:")
    ensures Answers(rs, 200)
  {
    var buf := BufferIsPrefix(rs, k);
    SilentPrefix(Stdout(rs), buf, "status:");
    SilentPrefix(Stdout(rs), buf, "location:");
    PlainStatus(buf);
  }

  lemma {:induction false} LocationOutput(rs: seq<Rec>, k: nat, j: nat)
    requires (forall r :: r in rs ==> Proper(r)) && HeaderEndsAt(Stdout(rs), k)
    requires Silent(Stdout(rs), "status:") && Names(Stdout(rs), "location:", j) && j + 9 <= k + 4
    ensures Answers(rs, 302)
  {
    var buf := BufferIsPrefix(rs, k);
    SilentPrefix(Stdout(rs), buf, "status:");
    NamesLater(buf, Stdout(rs), "location:", j);
    LocationStatus(buf, j);
  }

  lemma {:induction false} NumberedOutput(rs: seq<Rec>, k: nat, j: nat, m: nat, a: nat, b: nat, c: nat)
    requires (forall r :: r in rs ==> Proper(r)) && HeaderEndsAt(Stdout(rs), k)
    requires StatusAt(Stdout(rs), j, m) && NumberAt(Stdout(rs), m, a, b, c) && m + 3 < k + 4
    ensures Answers(rs, 100 * a + 10 * b + c)
  {
    var text := Stdout(rs);
    var buf := BufferIsPrefix(rs, k);
    NamesLater(buf, text, "status:", j);
    assert forall i :: 0 <= i < |buf| ==> buf[i] == text[i];
    NumberedStatus(buf, j, m, a, b, c);
  }

  /** What the client is told of the length. */
  lemma {:induction false} LengthIsNamed(buf: bytes)
    ensures StartOf(buf).hasLength <==> exists k: nat :: Names(buf, "content-length:", k)
  {
    PatternsSpell();
    FindReads(buf, LENGTH, "content-length:");
  }

  /** The client gets the first lines for that status, the CGI header, and a chunked body that
      decodes to all that comes behind the blank line. */
  ghost predicate PagePassedOn(line: Start -> bytes, rs: seq<Rec>, wire: bytes, k: nat, status: int, coded: bytes, unread: bytes) {
    var text, buf := Stdout(rs), HeadBuffer(rs, []);
    var named := exists j: nat :: Names(buf, "content-length:", j);
    && k + 4 <= |text|
    && Relayed(AnswerOf(line), wire, State([], false, [])) ==
      Some((line(Start(status, named)) + text[..k + 4] + coded, unread))
    && Dechunk(coded) == Some((text[k + 4..], []))
  }

  lemma {:induction false} PageOf(line: Start -> bytes, rs: seq<Rec>, endId: nat, endBody: bytes, padding: bytes,
      after: bytes, k: nat, status: int) returns (coded: bytes)
    requires (forall r :: r in rs ==> Proper(r)) && |endBody| == 8 && |padding| < 0x100
    requires HeaderEndsAt(Stdout(rs), k) && Answers(rs, status) && !(300 <= status < 400)
    ensures PagePassedOn(line, rs, Wire(rs) + (End(endId, endBody, padding) + after), k, status, coded, padding + after)
  {
    hide Relayed, CgiStatus, HeadBuffer, Stdout, Wire, End, Dechunk, BlankAt, Find;
    HeaderIsFound(Stdout(rs), k);
    coded := RelayPreservesBody(line, rs, endId, endBody, padding, after, k);
    LengthIsNamed(HeadBuffer(rs, []));
  }

  /** An ordinary page, which names neither a status nor a location in its first 8191 bytes:
      200, and all of the page. */
  lemma {:induction false} PlainPageIsPassedOn(line: Start -> bytes, rs: seq<Rec>, endId: nat, endBody: bytes, padding: bytes,
      after: bytes, k: nat) returns (coded: bytes)
    requires (forall r :: r in rs ==> Proper(r)) && |endBody| == 8 && |padding| < 0x100
    requires HeaderEndsAt(Stdout(rs), k) && Silent(Stdout(rs), "status:") && Silent(Stdout(rs), "location:")
    ensures PagePassedOn(line, rs, Wire(rs) + (End(endId, endBody, padding) + after), k, 200, coded, padding + after)
  {
    hide PagePassedOn, HeaderEndsAt, Silent, Answers;
    PlainOutput(rs, k);
    coded := PageOf(line, rs, endId, endBody, padding, after, k, 200);
  }

  /** A page with a three-digit status in its header, not of the 300s: that status, and all of
      the page. */
  lemma {:induction false} NumberedPageIsPassedOn(line: Start -> bytes, rs: seq<Rec>, endId: nat, endBody: bytes, padding: bytes,
      after: bytes, k: nat, j: nat, m: nat, a: nat, b: nat, c: nat) returns (coded: bytes)
    requires (forall r :: r in rs ==> Proper(r)) && |endBody| == 8 && |padding| < 0x100
    requires HeaderEndsAt(Stdout(rs), k) && StatusAt(Stdout(rs), j, m) && NumberAt(Stdout(rs), m, a, b, c)
    requires m + 3 < k + 4 && a != 3
    ensures PagePassedOn(line, rs, Wire(rs) + (End(endId, endBody, padding) + after), k, 100 * a + 10 * b + c, coded, padding + after)
  {
    hide PagePassedOn, HeaderEndsAt, StatusAt, Answers;
    NumberedOutput(rs, k, j, m, a, b, c);
    coded := PageOf(line, rs, endId, endBody, padding, after, k, 100 * a + 10 * b + c);
  }

  /** Only the first lines and the CGI header get to the client. */
  ghost predicate HeaderAlone(line: Start -> bytes, rs: seq<Rec>, wire: bytes, k: nat, status: int, unread: bytes) {
    var text, buf := Stdout(rs), HeadBuffer(rs, []);
    var named := exists j: nat :: Names(buf, "content-length:", j);
    && k + 4 <= |text|
    && Relayed(AnswerOf(line), wire, State([], false, [])) == Some((line(Start(status, named)) + text[..k + 4], unread))
  }

  lemma {:induction false} RedirectOf(line: Start -> bytes, rs: seq<Rec>, end: bytes, k: nat, status: int) returns (unread: bytes)
    requires (forall r :: r in rs ==> Proper(r)) && HeaderEndsAt(Stdout(rs), k)
    requires Answers(rs, status) && 300 <= status < 400
    ensures HeaderAlone(line, rs, Wire(rs) + end, k, status, unread)
  {
    hide Relayed, CgiStatus, HeadBuffer, Stdout, Wire, BlankAt, Find;
    HeaderIsFound(Stdout(rs), k);
    unread := RedirectHasNoBody(line, rs, end, k);
    LengthIsNamed(HeadBuffer(rs, []));
  }

  /** A location in the header and no status in the first 8191 bytes: 302, and no body. */
  lemma {:induction false} LocationIsRedirected(line: Start -> bytes, rs: seq<Rec>, end: bytes, k: nat, j: nat) returns (unread: bytes)
    requires (forall r :: r in rs ==> Proper(r)) && HeaderEndsAt(Stdout(rs), k)
    requires Silent(Stdout(rs), "status:") && Names(Stdout(rs), "location:", j) && j + 9 <= k + 4
    ensures HeaderAlone(line, rs, Wire(rs) + end, k, 302, unread)
  {
    hide HeaderAlone, HeaderEndsAt, Silent, Answers;
    LocationOutput(rs, k, j);
    unread := RedirectOf(line, rs, end, k, 302);
  }

  /** A status of the 300s: that status, and no body. */
  lemma {:induction false} NumberedIsRedirected(line: Start -> bytes, rs: seq<Rec>, end: bytes, k: nat, j: nat, m: nat,
      b: nat, c: nat) returns (unread: bytes)
    requires (forall r :: r in rs ==> Proper(r)) && HeaderEndsAt(Stdout(rs), k)
    requires StatusAt(Stdout(rs), j, m) && NumberAt(Stdout(rs), m, 3, b, c) && m + 3 < k + 4
    ensures HeaderAlone(line, rs, Wire(rs) + end, k, 300 + 10 * b + c, unread)
  {
    hide HeaderAlone, HeaderEndsAt, StatusAt, Answers;
    NumberedOutput(rs, k, j, m, 3, b, c);
    assert b < 10 && c < 10;
    unread := RedirectOf(line, rs, end, k, 300 + 10 * b + c);
  }
}
