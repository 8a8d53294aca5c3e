/** WebSocket frames from a client (sections 5.2, 5.3 and 5.5 of RFC 6455): a parser that
    sees all the bytes at once, and the encoder it inverts. */
module WsFrames {
  import opened Bytes

  const MAX_PAYLOAD := 10 * 1024 * 1024

  datatype Message = Message(opcode: nat, payload: bytes)

  /** The first two bytes, and the bytes of extended length they announce. */
  datatype Head = Head(fin: bool, opcode: nat, masked: bool, length: nat)

  function HeadOf(a: byte, b: byte): Head {
    Head(a >= 128, a % 16, b >= 128, b % 128)
  }

  function Extension(h: Head): nat {
    if h.length == 126 then 2 else if h.length == 127 then 8 else 0
  }

  /** One fragment per message, short control frames, and a mask. */
  predicate Acceptable(h: Head) {
    h.fin && (8 <= h.opcode <= 10 ==> h.length <= 125) && h.masked
  }

  function Length(h: Head, ext: bytes): nat
    requires |ext| == Extension(h)
  {
    if |ext| == 2 then U16(ext) else if |ext| == 8 then U64(ext) else h.length
  }

  function Mask(payload: bytes, key: bytes): (r: bytes)
    requires |key| == 4
    ensures |r| == |payload|
  {
    seq(|payload|, i requires 0 <= i < |payload| => Xor(payload[i], key[i % 4]))
  }

  lemma {:induction false} MaskTwice(payload: bytes, key: bytes)
    requires |key| == 4
    ensures Mask(Mask(payload, key), key) == payload
  {
    forall i | 0 <= i < |payload| ensures Mask(Mask(payload, key), key)[i] == payload[i] {
      XorTwice(payload[i], key[i % 4]);
    }
  }

  // ----- All the bytes at once

  datatype Parsed = More | Bad | Done(message: Message, size: nat)

  function ParsePayload(s: bytes, opcode: nat, at: nat, length: nat): (r: Parsed)
    requires 2 <= at <= |s|
    ensures r.Done? ==> 6 <= r.size <= |s|
  {
    if |s| < at + 4 + length then More
    else Done(Message(opcode, Mask(s[at + 4..at + 4 + length], s[at..at + 4])), at + 4 + length)
  }

  function ParseLength(s: bytes, h: Head): (r: Parsed)
    ensures r.Done? ==> 6 <= r.size <= |s|
  {
    var at := 2 + Extension(h);
    if |s| < at then More
    else if Extension(h) > 0 && Length(h, s[2..at]) > MAX_PAYLOAD then Bad
    else ParsePayload(s, h.opcode, at, Length(h, s[2..at]))
  }

  function Parse(s: bytes): (r: Parsed)
    ensures r.Done? ==> 6 <= r.size <= |s|
  {
    if |s| < 2 then More
    else
      var h := HeadOf(s[0], s[1]);
      if !Acceptable(h) then Bad else ParseLength(s, h)
  }

  lemma {:induction false} ParseIsStable(s: bytes, more: bytes)
    requires !Parse(s).More?
    ensures Parse(s + more) == Parse(s)
  {
    var h := HeadOf(s[0], s[1]);
    var at := 2 + Extension(h);
    if Acceptable(h) && |s| >= at {
      assert (s + more)[2..at] == s[2..at];
      var n := at + 4 + Length(h, s[2..at]);
      if |s| >= n {
        assert (s + more)[at..at + 4] == s[at..at + 4] && (s + more)[at + 4..n] == s[at + 4..n];
      }
    }
  }

  /** A frame is refused exactly for one of these: it is a fragment, it is not masked, it is a
      control frame of more than 125 bytes, or its extended length is over 10 MiB. */
  lemma {:induction false} RefusedExactly(s: bytes)
    ensures Parse(s).Bad? <==> (
      && |s| >= 2
      && (|| s[0] < 128 || s[1] < 128
          || (8 <= s[0] % 16 <= 10 && s[1] % 128 > 125)
          || (s[1] % 128 == 126 && |s| >= 4 && U16(s[2..4]) > 10485760)
          || (s[1] % 128 == 127 && |s| >= 10 && U64(s[2..10]) > 10485760)))
  {
  }

  /** It is whole exactly when its announced bytes are in: two, the extended length, four of
      the key, and the payload. */
  lemma {:induction false} WholeExactly(s: bytes)
    requires !Parse(s).Bad?
    ensures Parse(s).Done? <==> (
      && |s| >= 2
      && if s[1] % 128 == 126 then |s| >= 4 && |s| >= 8 + U16(s[2..4])
         else if s[1] % 128 == 127 then |s| >= 10 && |s| >= 14 + U64(s[2..10])
         else |s| >= 6 + s[1] % 128)
  {
  }

  /** The messages of a stream, what is left of it, and whether it goes on. */
  datatype Received = Received(messages: seq<Message>, rest: bytes, open: bool)

  function Then(ms: seq<Message>, r: Received): Received {
    r.(messages := ms + r.messages)
  }

  function ParseAll(s: bytes): Received
    decreases |s|
  {
    match Parse(s)
    case More => Received([], s, true)
    case Bad => Received([], s, false)
    case Done(m, n) => Then([m], ParseAll(s[n..]))
  }

  function Resumed(r: Received, more: bytes): Received {
    if r.open then Then(r.messages, ParseAll(r.rest + more)) else r.(rest := r.rest + more)
  }

  lemma {:induction false} ThenResumes(m: Message, r: Received, more: bytes)
    ensures Then([m], Resumed(r, more)) == Resumed(Then([m], r), more)
  {
    if r.open {
      var later := ParseAll(r.rest + more);
      assert [m] + (r.messages + later.messages) == ([m] + r.messages) + later.messages;
    }
  }

  /** Receiving in two parts is receiving at once. */
  lemma {:induction false} ParseAllResumes(s: bytes, more: bytes)
    ensures ParseAll(s + more) == Resumed(ParseAll(s), more)
    decreases |s|
  {
    match Parse(s)
    case More =>
      assert [] + ParseAll(s + more).messages == ParseAll(s + more).messages;
    case Bad => ParseIsStable(s, more);
    case Done(m, n) =>
      ParseIsStable(s, more);
      assert (s + more)[n..] == s[n..] + more;
      ParseAllResumes(s[n..], more);
      ThenResumes(m, ParseAll(s[n..]), more);
  }

  // ----- The encoder

  /** A frame as a client sends it; `form` is 0, 2 or 8 bytes of extended length. */
  datatype Frame = Frame(message: Message, key: bytes, form: nat)

  predicate Proper(f: Frame) {
    var n := |f.message.payload|;
    && |f.key| == 4 && f.message.opcode < 16 && n <= MAX_PAYLOAD
    && (f.form == 0 || f.form == 2 || f.form == 8)
    && (f.form == 0 ==> n <= 125) && (f.form == 2 ==> n < 0x1_0000)
    && (8 <= f.message.opcode <= 10 ==> f.form == 0)
  }

  function EncodeHead(f: Frame): bytes
    requires Proper(f)
  {
    var n := |f.message.payload|;
    [0x80 + f.message.opcode] +
      (if f.form == 0 then [0x80 + n] else if f.form == 2 then [0xFE] + Be16(n) else [0xFF] + Be64(n))
  }

  function Encode(f: Frame): bytes
    requires Proper(f)
  {
    EncodeHead(f) + f.key + Mask(f.message.payload, f.key)
  }

  lemma {:induction false} HeadFields(f: Frame, rest: bytes)
    requires Proper(f)
    ensures |EncodeHead(f)| == 2 + f.form
    ensures var s := EncodeHead(f) + rest;
      HeadOf(s[0], s[1]) == Head(true, f.message.opcode, true,
        if f.form == 0 then |f.message.payload| else if f.form == 2 then 126 else 127)
  {
    var s := EncodeHead(f) + rest;
    assert s[0] == 0x80 + f.message.opcode;
  }

  lemma {:induction false} HeadRoundTrip(f: Frame, rest: bytes)
    requires Proper(f)
    ensures var s, at := EncodeHead(f) + rest, 2 + f.form;
      |EncodeHead(f)| == at && |s| >= at &&
      var h := HeadOf(s[0], s[1]);
      Acceptable(h) && h.opcode == f.message.opcode && Extension(h) == f.form
      && Length(h, s[2..at]) == |f.message.payload|
  {
    var n := |f.message.payload|;
    var s, at := EncodeHead(f) + rest, 2 + f.form;
    HeadFields(f, rest);
    if f.form == 2 {
      assert s[2..at] == Be16(n);
      Be16RoundTrip(n);
    } else if f.form == 8 {
      assert s[2..at] == Be64(n);
      Be64RoundTrip(n);
    }
  }

  lemma {:induction false} EncodedParts(f: Frame, rest: bytes)
    requires Proper(f)
    ensures Encode(f) + rest == EncodeHead(f) + (f.key + Mask(f.message.payload, f.key) + rest)
  {
    hide EncodeHead, Mask;
  }

  lemma {:induction false} ParseInvertsEncode(f: Frame, rest: bytes)
    requires Proper(f)
    ensures Parse(Encode(f) + rest) == Done(f.message, |Encode(f)|)
  {
    var s, at, n := Encode(f) + rest, 2 + f.form, |f.message.payload|;
    var masked := Mask(f.message.payload, f.key);
    EncodedParts(f, rest);
    HeadRoundTrip(f, f.key + masked + rest);
    assert s[at..at + 4] == f.key && s[at + 4..at + 4 + n] == masked;
    MaskTwice(f.message.payload, f.key);
  }

  function EncodeAll(fs: seq<Frame>): bytes
    requires forall f :: f in fs ==> Proper(f)
  {
    if fs == [] then []
    else
      assert Proper(fs[0]);
      Encode(fs[0]) + EncodeAll(fs[1..])
  }

  function Messages(fs: seq<Frame>): seq<Message> {
    if fs == [] then [] else [fs[0].message] + Messages(fs[1..])
  }

  lemma {:induction false} ParseAllInvertsEncode(fs: seq<Frame>)
    requires forall f :: f in fs ==> Proper(f)
    ensures ParseAll(EncodeAll(fs)) == Received(Messages(fs), [], true)
  {
    if fs != [] {
      assert Proper(fs[0]);
      ParseInvertsEncode(fs[0], EncodeAll(fs[1..]));
      assert EncodeAll(fs)[|Encode(fs[0])|..] == EncodeAll(fs[1..]);
      ParseAllInvertsEncode(fs[1..]);
    }
  }
}
