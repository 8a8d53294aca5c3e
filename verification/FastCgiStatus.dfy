/** The status the relay reads out of its header buffer, which may hold the start of the body
    as well: when the split of the backend's output into records can change it. */
module FastCgiStatus {
  import opened Bytes
  import opened FastCgiRecords
  import opened FastCgiRelay
  import opened Options

  /** A header up to and with its blank line. */
  ghost predicate Header(head: bytes) {
    |head| >= 4 && Find(head, BLANK) == Some(|head| - 4)
  }

  // ----- The search

  /** A search that finds nothing has seen no match. */
  lemma {:induction false} NoneMeansNoMatch(text: bytes, pattern: bytes, j: nat)
    requires pattern != [] && Find(text, pattern).None? && forall i :: 0 <= i < j <= |text| ==> text[i] != 0
    requires j < |text| && text[j] != 0
    ensures !MatchesAt(text, pattern, j)
  {
    if j > 0 && |text| >= |pattern| {
      NoneMeansNoMatch(text[1..], pattern, j - 1);
      if j + |pattern| <= |text| {
        assert text[1..][j - 1..j - 1 + |pattern|] == text[j..j + |pattern|];
      }
    }
  }

  /** The search finds the first match if no NUL comes before it. */
  lemma {:induction false} FirstIsFound(text: bytes, pattern: bytes, k: nat)
    requires pattern != [] && 0 !in pattern && MatchesAt(text, pattern, k)
    requires forall j: nat :: j < k ==> text[j] != 0 && !MatchesAt(text, pattern, j)
    ensures Find(text, pattern) == Some(k)
    decreases k
  {
    if k == 0 {
      assert text[..|pattern|] == text[0..|pattern|];
    } else {
      assert text[..|pattern|] == text[0..0 + |pattern|];
      assert !MatchesAt(text, pattern, 0) && text[0] != 0;
      forall j: nat | j > 0 ensures MatchesAt(text, pattern, j) <==> MatchesAt(text[1..], pattern, j - 1) {
        if j + |pattern| <= |text| {
          assert text[1..][j - 1..j - 1 + |pattern|] == text[j..j + |pattern|];
        }
      }
      forall j: nat | j < k - 1 ensures text[1..][j] != 0 && !MatchesAt(text[1..], pattern, j) {
        assert text[1..][j] == text[j + 1];
        assert MatchesAt(text, pattern, j + 1) <==> MatchesAt(text[1..], pattern, j + 1 - 1);
      }
      assert MatchesAt(text[1..], pattern, k - 1);
      FirstIsFound(text[1..], pattern, k - 1);
    }
  }

  lemma {:induction false} SameAt(text: bytes, pattern: bytes, i: nat)
    requires |text| == |pattern| && Same(text, pattern) && i < |text|
    ensures Lower(text[i]) == pattern[i]
  {
    if i > 0 {
      SameAt(text[1..], pattern[1..], i - 1);
    }
  }

  lemma {:induction false} SameAsItself(pattern: bytes)
    requires forall b :: b in pattern ==> Lower(b) == b
    ensures Same(pattern, pattern)
  {
    if pattern != [] {
      SameAsItself(pattern[1..]);
    }
  }

  /** A header has no NUL in it and ends in a newline. */
  lemma {:induction false} HeaderIsText(head: bytes)
    requires Header(head)
    ensures head[|head| - 4..] == BLANK
    ensures forall i :: 0 <= i < |head| ==> head[i] != 0
  {
    FindIsFirst(head, BLANK);
    var tail := head[|head| - 4..];
    assert tail == head[|head| - 4..|head| - 4 + |BLANK|];
    forall i | 0 <= i < 4 ensures tail[i] == BLANK[i] {
      SameAt(tail, BLANK, i);
    }
    forall i | 0 <= i < |head| ensures head[i] != 0 {
      assert i >= |head| - 4 ==> head[i] == tail[i - (|head| - 4)];
    }
  }

  /** No match begins in a header and ends behind it. */
  lemma {:induction false} NoMatchAcross(head: bytes, body: bytes, pattern: bytes, j: nat)
    requires Header(head) && pattern != [] && 10 !in pattern && Find(head, pattern).None? && j < |head|
    ensures !MatchesAt(head + body, pattern, j)
  {
    HeaderIsText(head);
    NoneMeansNoMatch(head, pattern, j);
    var text := head + body;
    if j + |pattern| <= |head| {
      assert text[j..j + |pattern|] == head[j..j + |pattern|];
    } else if j + |pattern| <= |text| {
      var window, i := text[j..j + |pattern|], |head| - 1 - j;
      assert window[i] == head[|head| - 1] == head[|head| - 4..][3];
      assert pattern[i] in pattern;
      if Same(window, pattern) {
        SameAt(window, pattern, i);
      }
    }
  }

  /** A name that is not in the header is found where it stands right behind it, and not in
      anything shorter. */
  lemma {:induction false} FoundBehind(head: bytes, pattern: bytes)
    requires Header(head) && pattern != [] && Find(head, pattern).None?
    requires 10 !in pattern && 0 !in pattern && forall b :: b in pattern ==> Lower(b) == b
    ensures Find(head + pattern, pattern) == Some(|head|)
  {
    var text := head + pattern;
    HeaderIsText(head);
    SameAsItself(pattern);
    assert text[|head|..|head| + |pattern|] == pattern;
    forall j: nat | j < |head| ensures text[j] != 0 && !MatchesAt(text, pattern, j) {
      NoMatchAcross(head, pattern, pattern, j);
    }
    FirstIsFound(text, pattern, |head|);
  }

  lemma {:induction false} NotFoundInShorter(head: bytes, body: bytes, pattern: bytes)
    requires Header(head) && pattern != [] && |body| < |pattern| && 10 !in pattern
    ensures Find(head + body, pattern) == Find(head, pattern)
  {
    if Find(head, pattern).Some? {
      FindIsStable(head, body, pattern);
    } else if Find(head + body, pattern).Some? {
      FindIsFirst(head + body, pattern);
      NoMatchAcross(head, body, pattern, Find(head + body, pattern).value);
    }
  }

  /** The name of the status ends before the blank line. */
  lemma {:induction false} NameEndsInside(head: bytes)
    requires Header(head) && Find(head, STATUS).Some?
    ensures Find(head, STATUS).value + 10 < |head|
  {
    var k, n := Find(head, STATUS).value, |head|;
    HeaderIsText(head);
    FindIsFirst(head, STATUS);
    SameAt(head[k..k + 7], STATUS, 6);
    assert head[k + 6] == head[k..k + 7][6] == 58;
    forall i | n - 4 <= i < n ensures head[i] != 58 {
      assert head[i] == head[n - 4..][i - (n - 4)];
    }
  }

  // ----- The number

  lemma {:induction false} DigitsStop(s: bytes, more: bytes, value: nat)
    requires s != [] && s[|s| - 1] == 10
    ensures Digits(s + more, value) == Digits(s, value)
  {
    if 48 <= s[0] <= 57 {
      assert (s + more)[1..] == s[1..] + more;
      DigitsStop(s[1..], more, 10 * value + s[0] as int - 48);
    }
  }

  /** A number that begins before a newline is not changed by what follows the newline. */
  lemma {:induction false} NumberIsSettled(s: bytes, more: bytes, i: nat)
    requires i < |s| && !Space(s[i]) && s[|s| - 1] == 10
    ensures Atoi(s + more) == Atoi(s)
  {
    assert (s + more)[1..] == s[1..] + more;
    if Space(s[0]) {
      NumberIsSettled(s[1..], more, i - 1);
    } else {
      DigitsStop(s, more, 0);
      DigitsStop(s[1..], more, 0);
    }
  }

  lemma {:induction false} SpacesAreSkipped(s: bytes, more: bytes)
    requires forall i :: 0 <= i < |s| ==> Space(s[i])
    ensures Atoi(s + more) == Atoi(more)
  {
    if s == [] {
      assert [] + more == more;
    } else {
      assert (s + more)[1..] == s[1..] + more;
      SpacesAreSkipped(s[1..], more);
    }
  }

  // ----- What decides the status

  /** The header names a status, and more than space follows the name in it. */
  predicate Valued(head: bytes) {
    && Find(head, STATUS).Some?
    && exists i :: Find(head, STATUS).value + 8 <= i < |head| && !Space(head[i])
  }

  /** How much body it takes to change the status of a header without a valued one: a digit
      for a name without value, a name otherwise. */
  function Needed(head: bytes): (n: nat)
    ensures n > 0
  {
    if Find(head, STATUS).Some? then 1 else |STATUS|
  }

  lemma {:induction false} ValuedIsKept(head: bytes, body: bytes)
    requires Header(head) && Valued(head)
    ensures CgiStatus(head + body) == CgiStatus(head)
  {
    var k := Find(head, STATUS).value;
    FindIsStable(head, body, STATUS);
    NameEndsInside(head);
    HeaderIsText(head);
    var i :| k + 8 <= i < |head| && !Space(head[i]);
    var value := head[k + 8..];
    assert (head + body)[k + 8..] == value + body && value[i - (k + 8)] == head[i];
    assert head[|head| - 1] == head[|head| - 4..][3];
    NumberIsSettled(value, body, i - (k + 8));
  }

  lemma {:induction false} ShortBodyChangesNothing(head: bytes, body: bytes)
    requires Header(head) && |body| < Needed(head)
    ensures CgiStatus(head + body) == CgiStatus(head)
  {
    if body == [] {
      assert head + body == head;
    } else {
      NotFoundInShorter(head, body, STATUS);
      NotFoundInShorter(head, body, LOCATION);
    }
  }

  lemma {:induction false} FourIsRead()
    ensures Atoi([52]) == 4 && Atoi([]) == 0
  {
    assert Digits([52], 0) == Digits([], 4) == 4;
  }

  /** Without a valued status, body right behind the header changes the status. */
  lemma {:induction false} BodyIsTaken(head: bytes) returns (body: bytes)
    requires Header(head) && !Valued(head)
    ensures |body| == Needed(head) && CgiStatus(head + body) != CgiStatus(head)
  {
    if Find(head, STATUS).Some? {
      body := [52];
      var k := Find(head, STATUS).value;
      NameEndsInside(head);
      FindIsStable(head, body, STATUS);
      var value := head[k + 8..];
      assert (head + body)[k + 8..] == value + body && value + [] == value;
      forall i | 0 <= i < |value| ensures Space(value[i]) {
        assert value[i] == head[k + 8 + i];
      }
      SpacesAreSkipped(value, body);
      SpacesAreSkipped(value, []);
      FourIsRead();
    } else {
      body := STATUS;
      FoundBehind(head, STATUS);
    }
  }

  /** The header decides the status, whatever body follows it in the buffer, exactly if it
      names a status and gives it a value. */
  lemma {:induction false} HeaderDecidesStatus(head: bytes)
    requires Header(head)
    ensures (forall body :: CgiStatus(head + body) == CgiStatus(head)) <==> Valued(head)
  {
    if Valued(head) {
      forall body ensures CgiStatus(head + body) == CgiStatus(head) {
        ValuedIsKept(head, body);
      }
    } else {
      var body := BodyIsTaken(head);
      assert CgiStatus(head + body) != CgiStatus(head);
    }
  }

  /** The header of any output whose blank line fits the buffer. */
  lemma {:induction false} OutputHasHeader(text: bytes, k: nat)
    requires BlankAt(text, k)
    ensures k + 4 <= |text| && k + 4 <= HEADER_ROOM && Header(text[..k + 4])
  {
    var whole := text[..Min(|text|, HEADER_ROOM)];
    FindIsFirst(whole, BLANK);
    var head := text[..k + 4];
    assert head == whole[..k + 4];
    assert head[k..k + 4] == whole[k..k + 4];
    forall j: nat | j < k ensures head[j] != 0 && !MatchesAt(head, BLANK, j) {
      assert head[j] == whole[j] && head[j..j + 4] == whole[j..j + 4];
      assert !MatchesAt(whole, BLANK, j);
    }
    FirstIsFound(head, BLANK, k);
  }

  // ----- Two splits of one output

  ghost predicate Output(rs: seq<Rec>, head: bytes) {
    (forall r :: r in rs ==> Proper(r)) && head <= Stdout(rs)
  }

  /** Two splits of one output that begins with this header. */
  ghost predicate SameOutput(one: seq<Rec>, two: seq<Rec>, head: bytes) {
    Output(one, head) && Output(two, head) && Stdout(one) == Stdout(two)
  }

  lemma {:induction false} BlankIsKept(rs: seq<Rec>, header: bytes)
    requires |header| <= HEADER_ROOM && Find(header, BLANK).Some?
    ensures HeadBuffer(rs, header) == header
  {
  }

  /** What is in the buffer when the header is complete: the header, and some body. */
  lemma {:induction false} BufferHoldsHeader(rs: seq<Rec>, header: bytes, head: bytes) returns (body: bytes)
    requires (forall r :: r in rs ==> Proper(r)) && head <= header + Stdout(rs)
    requires Header(head) && |head| <= HEADER_ROOM && |header| <= HEADER_ROOM && Find(header, BLANK).None?
    ensures HeadBuffer(rs, header) == head + body && |head + body| <= HEADER_ROOM
    ensures head + body <= header + Stdout(rs)
  {
    hide Find, Wire;
    var k, text := |head| - 4, header + Stdout(rs);
    var whole := text[..Min(|text|, HEADER_ROOM)];
    assert whole == head + whole[|head|..];
    FindIsStable(head, whole[|head|..], BLANK);
    BlankNeedsMore(header, k);
    assert header + [] == header;
    if rs == [] {
      body := [];
    } else {
      var r, later := rs[0], rs[1..];
      var c := if r.kind == STDOUT then r.content else [];
      WireUnfolds(rs, header, []);
      BlankIsFound(header, c, Stdout(later), k);
      var buf := header + c[..Min(|c|, HEADER_ROOM - |header|)];
      if Find(buf, BLANK).None? {
        assert buf == header + c;
        body := BufferHoldsHeader(later, buf, head);
      } else {
        assert buf <= text && head <= text;
        body := buf[|head|..];
        assert buf == head + body;
        BlankIsKept(later, buf);
      }
    }
  }

  /** The first record completes the header: all of it is in the buffer. */
  lemma {:induction false} HeadIsFirstRecord(r: Rec, rs: seq<Rec>)
    requires r.kind == STDOUT && |r.content| <= HEADER_ROOM && Find(r.content, BLANK).Some?
    ensures HeadBuffer([r] + rs, []) == r.content
  {
    hide Find;
    var c := r.content;
    assert c[..|c|] == c && [] + c == c && ([r] + rs)[1..] == rs;
    assert Find([], BLANK).None?;
    BlankIsKept(rs, c);
  }

  lemma {:induction false} SameStdout(one: Rec, first: Rec, second: Rec)
    requires one.kind == first.kind == second.kind == STDOUT && one.content == first.content + second.content
    ensures Stdout([one]) == Stdout([first, second]) == one.content
  {
    assert [one][1..] == [] && [first, second][1..] == [second] && [second][1..] == [];
    assert Stdout([second]) == second.content + [];
  }

  /** The header decides the status, or leaves no room for anything that could change it. */
  predicate Settled(head: bytes) {
    Valued(head) || |head| + Needed(head) > HEADER_ROOM
  }

  /** If not, one output with this header has two splits that get two statuses: all of it in
      one record, and the header in a record of its own. */
  lemma {:induction false} StatusDependsOnSplit(head: bytes) returns (one: seq<Rec>, two: seq<Rec>)
    requires Header(head) && |head| <= HEADER_ROOM && !Settled(head)
    ensures SameOutput(one, two, head)
    ensures CgiStatus(HeadBuffer(one, [])) != CgiStatus(HeadBuffer(two, []))
  {
    hide Find, CgiStatus, HeadBuffer, Stdout;
    var body := BodyIsTaken(head);
    var whole, first, second := Rec(STDOUT, 1, head + body, []), Rec(STDOUT, 1, head, []), Rec(STDOUT, 1, body, []);
    one, two := [whole], [first, second];
    SameStdout(whole, first, second);
    FindIsStable(head, body, BLANK);
    HeadIsFirstRecord(whole, []);
    HeadIsFirstRecord(first, [second]);
    assert [whole] + [] == one && [first] + [second] == two;
  }

  lemma {:induction false} SettledSplit(rs: seq<Rec>, head: bytes)
    requires Header(head) && |head| <= HEADER_ROOM && Settled(head) && Output(rs, head)
    ensures CgiStatus(HeadBuffer(rs, [])) == CgiStatus(head)
  {
    hide CgiStatus, HeadBuffer, Stdout, Valued;
    assert [] + Stdout(rs) == Stdout(rs);
    var body := BufferHoldsHeader(rs, [], head);
    if Valued(head) {
      ValuedIsKept(head, body);
    } else {
      ShortBodyChangesNothing(head, body);
    }
  }

  /** Every two splits of every output with this header get the same status exactly if the
      header settles it. */
  lemma {:induction false} SplitsAgreeOnStatus(head: bytes)
    requires Header(head) && |head| <= HEADER_ROOM
    ensures (forall one, two :: SameOutput(one, two, head) ==>
        CgiStatus(HeadBuffer(one, [])) == CgiStatus(HeadBuffer(two, []))) <==> Settled(head)
  {
    hide Find, CgiStatus, HeadBuffer, Stdout, Valued;
    if Settled(head) {
      forall rs | Output(rs, head) ensures CgiStatus(HeadBuffer(rs, [])) == CgiStatus(head) {
        SettledSplit(rs, head);
      }
    } else {
      var one, two := StatusDependsOnSplit(head);
      assert SameOutput(one, two, head);
    }
  }
}
