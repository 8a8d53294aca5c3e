/** HPACK on values (RFC 7541): integers, strings, header fields and whole blocks as the
    request parser decodes them, and the encoder of the response. */
module HpackCodec {
  import opened Bytes
  import opened Huffman
  import opened Options

  datatype Header = Header(name: bytes, value: bytes)

  const NAME_MAX := 128
  const VALUE_MAX := 512
  const LONGEST := 10240

  /** What is decoded, and the bytes it takes. */
  datatype Number = Number(value: nat, size: nat)
  datatype Text = Text(found: bool, text: bytes, size: nat)

  // ----- Integers (section 5.1)

  /** The weight of the continuation byte number `k`. */
  function Weight(k: nat): nat {
    if k == 0 then 1 else 128 * Weight(k - 1)
  }

  /** Continuation bytes from `at`, at most five of them, modulo 2^32. */
  function Continued(s: bytes, at: nat, value: nat, k: nat): (r: Number)
    requires at <= |s|
    ensures at <= r.size <= |s|
    decreases |s| - at
  {
    if at == |s| then Number(value, at)
    else
      var sum := (value + s[at] % 128 * Weight(k)) % 0x1_0000_0000;
      if s[at] < 128 || k >= 4 then Number(sum, at + 1) else Continued(s, at + 1, sum, k + 1)
  }

  /** The integer at the start of `s` and the bytes it takes; `mask` is 2^n - 1. */
  function DecodedInt(s: bytes, mask: nat): (r: Number)
    ensures r.size <= |s| && (s != [] ==> r.size >= 1)
  {
    if s == [] then Number(0, 0)
    else
      var first := s[0] % (mask + 1);
      if first < mask then Number(first, 1) else Continued(s, 1, first, 0)
  }

  function EncodeRest(n: nat): bytes {
    if n >= 128 then [n % 128 + 128] + EncodeRest(n / 128) else [n]
  }

  /** `high` is what the bits above the prefix hold. */
  function EncodeInt(n: nat, mask: nat, high: nat): bytes
    requires high + mask < 256
  {
    if n < mask then [high + n] else [high + mask] + EncodeRest(n - mask)
  }

  lemma {:induction false} GroupFits(n: nat, k: nat)
    requires n >= 128 && k <= 4 && n * Weight(k) < 0x1_0000_0000
    ensures k < 4
  {
    assert Weight(1) == 128 && Weight(2) == 16384 && Weight(3) == 2097152 && Weight(4) == 268435456;
  }

  lemma {:induction false} GroupSplits(n: nat, w: nat)
    ensures n * w == n % 128 * w + n / 128 * (128 * w)
  {
    assert n == n % 128 + n / 128 * 128;
    assert (n % 128 + n / 128 * 128) * w == n % 128 * w + n / 128 * 128 * w;
    assert n / 128 * 128 * w == n / 128 * (128 * w);
  }

  /** One continuation byte with its top bit set. */
  lemma {:induction false} ContinuedStep(s: bytes, at: nat, value: nat, k: nat, low: nat)
    requires at < |s| && k < 4 && low < 128 && s[at] == low + 128
    requires value + low * Weight(k) < 0x1_0000_0000
    ensures Continued(s, at, value, k) == Continued(s, at + 1, value + low * Weight(k), k + 1)
  {
    assert s[at] % 128 == low;
  }

  lemma {:induction false} Regrouped(before: bytes, b: byte, rest: bytes, after: bytes)
    ensures before + [b] + rest + after == before + ([b] + rest) + after
  {
  }

  lemma {:induction false} ContinuedInverts(before: bytes, n: nat, after: bytes, value: nat, k: nat)
    requires k <= 4 && value + n * Weight(k) < 0x1_0000_0000
    ensures Continued(before + EncodeRest(n) + after, |before|, value, k)
      == Number(value + n * Weight(k), |before| + |EncodeRest(n)|)
    decreases n
  {
    var s := before + EncodeRest(n) + after;
    if n >= 128 {
      var group: byte := n % 128 + 128;
      GroupFits(n, k);
      GroupSplits(n, Weight(k));
      ContinuedStep(s, |before|, value, k, n % 128);
      ContinuedInverts(before + [group], n / 128, after, value + n % 128 * Weight(k), k + 1);
      Regrouped(before, group, EncodeRest(n / 128), after);
    } else {
      assert s[|before|] == n;
    }
  }

  /** The prefixes of the formats of section 6 and of strings. */
  predicate Prefix(mask: nat) {
    mask in {0x0F, 0x1F, 0x3F, 0x7F}
  }

  lemma {:induction false} Low4(high: nat, low: nat)
    requires high % 16 == 0 && low < 16
    ensures (high + low) % 16 == low
  {
  }

  lemma {:induction false} Low5(high: nat, low: nat)
    requires high % 32 == 0 && low < 32
    ensures (high + low) % 32 == low
  {
  }

  lemma {:induction false} Low6(high: nat, low: nat)
    requires high % 64 == 0 && low < 64
    ensures (high + low) % 64 == low
  {
  }

  lemma {:induction false} Low7(high: nat, low: nat)
    requires high % 128 == 0 && low < 128
    ensures (high + low) % 128 == low
  {
  }

  lemma {:induction false} LowBits(high: nat, low: nat, mask: nat)
    requires Prefix(mask) && high % (mask + 1) == 0 && low <= mask
    ensures (high + low) % (mask + 1) == low
  {
    if mask == 0x0F {
      Low4(high, low);
    } else if mask == 0x1F {
      Low5(high, low);
    } else if mask == 0x3F {
      Low6(high, low);
    } else {
      Low7(high, low);
    }
  }

  /** Every 32-bit integer survives, for every prefix. */
  lemma {:induction false} IntRoundTrip(n: nat, mask: nat, high: nat, after: bytes)
    requires n < 0x1_0000_0000 && Prefix(mask) && high + mask < 256 && high % (mask + 1) == 0
    ensures DecodedInt(EncodeInt(n, mask, high) + after, mask) == Number(n, |EncodeInt(n, mask, high)|)
  {
    var s := EncodeInt(n, mask, high) + after;
    if n < mask {
      assert s[0] == high + n;
      LowBits(high, n, mask);
    } else {
      assert s[0] == high + mask;
      LowBits(high, mask, mask);
      ContinuedInverts([high + mask], n - mask, after, mask, 0);
    }
  }

  // ----- Tables (section 2.3)

  function Ascii(s: string): (b: bytes)
    ensures |b| == |s|
  {
    seq(|s|, i requires 0 <= i < |s| => s[i] as int % 256)
  }

  /** The static table: names and values. */
  function StaticEntry(index: nat): (string, string) {
    match index
    case 1 => (":authority", "")
    case 2 => (":method", "GET")
    case 3 => (":method", "POST")
    case 4 => (":path", "/")
    case 5 => (":path", "/index.html")
    case 6 => (":scheme", "http")
    case 7 => (":scheme", "https")
    case 8 => (":status", "200")
    case 9 => (":status", "204")
    case 10 => (":status", "206")
    case 11 => (":status", "304")
    case 12 => (":status", "400")
    case 13 => (":status", "404")
    case 14 => (":status", "500")
    case 15 => ("accept-charset", "")
    case 16 => ("accept-encoding", "gzip, deflate")
    case 17 => ("accept-language", "")
    case 18 => ("accept-ranges", "")
    case 19 => ("accept", "")
    case 20 => ("access-control-allow-origin", "")
    case 21 => ("age", "")
    case 22 => ("allow", "")
    case 23 => ("authorization", "")
    case 24 => ("cache-control", "")
    case 25 => ("content-disposition", "")
    case 26 => ("content-encoding", "")
    case 27 => ("content-language", "")
    case 28 => ("content-length", "")
    case 29 => ("content-location", "")
    case 30 => ("content-range", "")
    case 31 => ("content-type", "")
    case 32 => ("cookie", "")
    case 33 => ("date", "")
    case 34 => ("etag", "")
    case 35 => ("expect", "")
    case 36 => ("expires", "")
    case 37 => ("from", "")
    case 38 => ("host", "")
    case 39 => ("if-match", "")
    case 40 => ("if-modified-since", "")
    case 41 => ("if-none-match", "")
    case 42 => ("if-range", "")
    case 43 => ("if-unmodified-since", "")
    case 44 => ("last-modified", "")
    case 45 => ("link", "")
    case 46 => ("location", "")
    case 47 => ("max-forwards", "")
    case 48 => ("proxy-authenticate", "")
    case 49 => ("proxy-authorization", "")
    case 50 => ("range", "")
    case 51 => ("referer", "")
    case 52 => ("refresh", "")
    case 53 => ("retry-after", "")
    case 54 => ("server", "")
    case 55 => ("set-cookie", "")
    case 56 => ("strict-transport-security", "")
    case 57 => ("transfer-encoding", "")
    case 58 => ("user-agent", "")
    case 59 => ("vary", "")
    case 60 => ("via", "")
    case 61 => ("www-authenticate", "")
    case _ => ("", "")
  }

  function StaticHeader(index: nat): Header {
    Header(Ascii(StaticEntry(index).0), Ascii(StaticEntry(index).1))
  }

  /** `dynamic` holds the dynamic table, newest entry first. The index below 62 wraps. */
  function Lookup(dynamic: seq<Header>, index: nat): Option<Header> {
    if 1 <= index <= 61 then Some(StaticHeader(index))
    else
      var i := (index - 62) % 0x1_0000_0000;
      if i < |dynamic| then Some(dynamic[i]) else None
  }

  /** A C string in a buffer: what comes before the first NUL. */
  function CString(b: bytes): (c: bytes)
    ensures |c| <= |b|
  {
    if b == [] || b[0] == 0 then [] else [b[0]] + CString(b[1..])
  }

  predicate NulFree(b: bytes) {
    0 !in b
  }

  lemma {:induction false} NulFreeIsCString(b: bytes)
    requires NulFree(b)
    ensures CString(b) == b
  {
    if b != [] {
      assert b[0] in b && (forall x :: x in b[1..] ==> x in b);
      NulFreeIsCString(b[1..]);
    }
  }

  /** snprintf("%s") into a buffer of `size`. */
  function Clip(text: bytes, size: nat): (c: bytes)
    requires size > 0
    ensures |c| < size && (|text| < size ==> c == text)
  {
    if |text| < size then text else text[..size - 1]
  }

  /** The dynamic table after an insertion: 128 entries at most. */
  function Inserted(dynamic: seq<Header>, h: Header): (d: seq<Header>)
    requires |dynamic| <= 128
    ensures |d| <= 128
  {
    [Header(Clip(h.name, NAME_MAX), Clip(h.value, VALUE_MAX))] + (if |dynamic| >= 128 then dynamic[..127] else dynamic)
  }

  // ----- Strings (section 5.2)

  /** What a buffer of `max` bytes holds of a string; nothing if a Huffman-coded one does
      not fit. */
  function Unpacked(root: Tree, coded: bool, raw: bytes, max: nat): (text: bytes)
    requires max > 0
    ensures |text| < max
  {
    if !coded then CString(Clip(raw, max))
    else if raw != [] && |Decoded(root, raw)| < max then CString(Decoded(root, raw))
    else []
  }

  /** Whether a string was there, the text a buffer of `max` bytes then holds, and the bytes
      taken from `s`. Every failure but that of an empty input takes them all. */
  function DecodedString(root: Tree, s: bytes, max: nat): (r: Text)
    requires max > 0
    ensures r.size <= |s| && |r.text| < max
  {
    if s == [] then Text(false, [], 0)
    else
      var length := DecodedInt(s, 127);
      if length.value > LONGEST || length.size + length.value > |s| then Text(false, [], |s|)
      else
        var size := length.size + length.value;
        Text(true, Unpacked(root, s[0] >= 128, s[length.size..size], max), size)
  }

  // ----- Fields (section 6)

  /** What a field does: nothing, hand a header over, or hand it over and keep it. */
  datatype Effect = Nothing | Emit(header: Header) | EmitAndKeep(header: Header)

  predicate Table(dynamic: seq<Header>) {
    |dynamic| <= 128
  }

  /** The name of a literal: by index, or in full if the index is 0. */
  function Name(root: Tree, dynamic: seq<Header>, s: bytes, index: Number): (r: Text)
    requires index.size <= |s|
    ensures index.size <= r.size <= |s|
  {
    if index.value == 0 then
      var name := DecodedString(root, s[index.size..], NAME_MAX);
      Text(name.found, name.text, index.size + name.size)
    else
      match Lookup(dynamic, index.value)
      case Some(h) => Text(true, CString(Clip(h.name, NAME_MAX)), index.size)
      case None => Text(false, [], index.size)
  }

  datatype Field = Field(effect: Effect, size: nat)

  /** Empty names and values are dropped. */
  function LiteralEffect(h: Header, keep: bool): Effect {
    if h.name == [] || h.value == [] then Nothing else if keep then EmitAndKeep(h) else Emit(h)
  }

  function Literal(root: Tree, dynamic: seq<Header>, s: bytes, mask: nat, keep: bool): (r: Field)
    requires s != []
    ensures 1 <= r.size <= |s|
  {
    var name := Name(root, dynamic, s, DecodedInt(s, mask));
    var value := DecodedString(root, s[name.size..], VALUE_MAX);
    Field(LiteralEffect(Header(name.text, value.text), keep), name.size + value.size)
  }

  function IndexedEffect(dynamic: seq<Header>, index: nat): Effect {
    if index > 0 && Lookup(dynamic, index).Some? then Emit(Lookup(dynamic, index).value) else Nothing
  }

  /** One field: it takes at least one byte and never more than there are. */
  function NextField(root: Tree, dynamic: seq<Header>, s: bytes): (r: Field)
    requires s != []
    ensures 1 <= r.size <= |s|
  {
    if s[0] >= 0x80 then
      var index := DecodedInt(s, 0x7F);
      Field(IndexedEffect(dynamic, index.value), index.size)
    else if s[0] >= 0x40 then Literal(root, dynamic, s, 0x3F, true)
    else if s[0] >= 0x20 then Field(Nothing, DecodedInt(s, 0x1F).size)
    else Literal(root, dynamic, s, 0x0F, false)
  }

  // ----- Blocks

  /** What a block gives: the headers handed over, the dynamic table, and the status of the
      handler, which stops the block unless it is 0. `judge` is the handler: its answer to
      a header may depend on all the headers before it. */
  datatype Outcome = Outcome(headers: seq<Header>, dynamic: seq<Header>, status: int)

  function Block(root: Tree, judge: seq<Header> -> int, s: bytes, dynamic: seq<Header>, seen: seq<Header>): Outcome
    requires Table(dynamic)
    decreases |s|, 0
  {
    if s == [] then Outcome(seen, dynamic, 0)
    else
      var field := NextField(root, dynamic, s);
      var rest := s[field.size..];
      match field.effect
      case Nothing => Block(root, judge, rest, dynamic, seen)
      case Emit(h) => Judged(root, judge, rest, dynamic, seen + [h])
      case EmitAndKeep(h) => Judged(root, judge, rest, Inserted(dynamic, h), seen + [h])
  }

  function Judged(root: Tree, judge: seq<Header> -> int, s: bytes, dynamic: seq<Header>, seen: seq<Header>): Outcome
    requires Table(dynamic)
    decreases |s|, 1
  {
    if judge(seen) != 0 then Outcome(seen, dynamic, judge(seen))
    else Block(root, judge, s, dynamic, seen)
  }

  // ----- The response encoder

  function EncodeString(text: bytes): bytes {
    EncodeInt(|text|, 127, 0) + text
  }

  /** Names of 127 bytes and more are cut to 127, and the continuation byte their length needs
      is not written. */
  function EncodeName(name: bytes): bytes {
    if |name| < 127 then [|name|] + name else [127] + name[..127]
  }

  /** A literal that is not kept. */
  function EncodeHeader(h: Header): bytes {
    [0] + EncodeName(h.name) + EncodeString(h.value)
  }

  function Digit(n: nat): byte {
    48 + n % 10
  }

  function Decimal(n: nat): bytes {
    if n < 10 then [Digit(n)] else Decimal(n / 10) + [Digit(n)]
  }

  function EncodeStatus(status: nat): bytes {
    if status == 200 then [0x88]
    else if status == 204 then [0x89]
    else if status == 304 then [0x8B]
    else if status == 400 then [0x8C]
    else if status == 404 then [0x8D]
    else if status == 500 then [0x8E]
    else
      var text := Decimal(status);
      [0x08, if |text| < 127 then |text| else 127] + text
  }

  function EncodeHeaders(hs: seq<Header>): bytes {
    if hs == [] then [] else EncodeHeader(hs[0]) + EncodeHeaders(hs[1..])
  }

  predicate Sendable(h: Header) {
    1 <= |h.name| < 127 && 1 <= |h.value| < VALUE_MAX && NulFree(h.name) && NulFree(h.value)
  }

  lemma {:induction false} StringRoundTrip(root: Tree, text: bytes, max: nat, after: bytes)
    requires |text| < max && |text| <= LONGEST && NulFree(text)
    ensures DecodedString(root, EncodeString(text) + after, max) == Text(true, text, |EncodeString(text)|)
  {
    var s := EncodeString(text) + after;
    var n := |EncodeInt(|text|, 127, 0)|;
    assert s == EncodeInt(|text|, 127, 0) + (text + after);
    IntRoundTrip(|text|, 127, 0, text + after);
    assert s[n..n + |text|] == text;
    NulFreeIsCString(text);
  }

  /** A literal with both strings in full. */
  lemma {:induction false} LiteralInFull(root: Tree, dynamic: seq<Header>, s: bytes, name: Text, value: Text)
    requires s != [] && s[0] == 0 && DecodedInt(s, 0x0F) == Number(0, 1)
    requires DecodedString(root, s[1..], NAME_MAX) == name
    requires DecodedString(root, s[1 + name.size..], VALUE_MAX) == value
    ensures NextField(root, dynamic, s) ==
      Field(LiteralEffect(Header(name.text, value.text), false), 1 + name.size + value.size)
  {
    hide DecodedString, DecodedInt, LiteralEffect;
    assert NextField(root, dynamic, s) == Literal(root, dynamic, s, 0x0F, false);
    assert Name(root, dynamic, s, Number(0, 1)) == Text(name.found, name.text, 1 + name.size);
  }

  lemma {:induction false} HeaderBytes(h: Header, after: bytes)
    ensures var s := EncodeHeader(h) + after;
      && s[0] == 0 && s[1..] == EncodeName(h.name) + (EncodeString(h.value) + after)
      && |EncodeHeader(h)| == 1 + |EncodeName(h.name)| + |EncodeString(h.value)|
      && |EncodeName(h.name)| == (if |h.name| < 127 then 1 + |h.name| else 128)
  {
    var s := EncodeHeader(h) + after;
    assert s == [0] + (EncodeName(h.name) + (EncodeString(h.value) + after));
  }

  lemma {:induction false} LiteralAsRead(root: Tree, dynamic: seq<Header>, s: bytes)
    requires s != [] && s[0] == 0
    ensures var name := DecodedString(root, s[1..], NAME_MAX);
      var value := DecodedString(root, s[1 + name.size..], VALUE_MAX);
      NextField(root, dynamic, s) == Field(LiteralEffect(Header(name.text, value.text), false), 1 + name.size + value.size)
  {
    hide DecodedString;
    assert DecodedInt(s, 0x0F) == Number(0, 1);
    var name := DecodedString(root, s[1..], NAME_MAX);
    LiteralInFull(root, dynamic, s, name, DecodedString(root, s[1 + name.size..], VALUE_MAX));
  }

  lemma {:induction false} HeaderRoundTrip(root: Tree, dynamic: seq<Header>, h: Header, after: bytes)
    requires Sendable(h)
    ensures NextField(root, dynamic, EncodeHeader(h) + after) == Field(Emit(h), |EncodeHeader(h)|)
  {
    assert EncodeName(h.name) == EncodeString(h.name);
    hide DecodedString, EncodeString, EncodeName, DecodedInt, NextField, EncodeHeader;
    var s, value := EncodeHeader(h) + after, EncodeString(h.value) + after;
    HeaderBytes(h, after);
    LiteralAsRead(root, dynamic, s);
    StringRoundTrip(root, h.name, NAME_MAX, value);
    StringRoundTrip(root, h.value, VALUE_MAX, after);
    assert s[1 + |EncodeString(h.name)|..] == value;
  }

  // ----- Names too long

  /** The length of a long name takes bytes of the name. */
  lemma {:induction false} LongNameLength(name: bytes, rest: bytes)
    requires |name| >= 127
    ensures var length := DecodedInt(EncodeName(name) + rest, 127);
      length.size >= 2 && (NulFree(name) && length.value >= 127 ==> length.size + length.value >= 130)
  {
    var t := EncodeName(name) + rest;
    assert t[0] == 127 && t[1] == name[0] && t[2] == name[1];
    assert name[0] in name;
    var sum: nat := (127 + t[1] % 128 * Weight(0)) % 0x1_0000_0000;
    assert Continued(t, 1, 127, 0) == if t[1] < 128 then Number(sum, 2) else Continued(t, 2, sum, 1);
    assert Continued(t, 2, sum, 1).size >= 3;
  }

  lemma {:induction false} CStringIsNulFree(b: bytes)
    ensures NulFree(CString(b))
  {
    if b != [] && b[0] != 0 {
      CStringIsNulFree(b[1..]);
    }
  }

  /** The decoder gets the name, and takes for it the bytes that were written, exactly if it
      is shorter than 127 bytes and holds no NUL; for a longer one it takes bytes of the name
      for its length. */
  lemma {:induction false} LongNameLosesItsLength(root: Tree, name: bytes, rest: bytes)
    ensures DecodedString(root, EncodeName(name) + rest, NAME_MAX) == Text(true, name, |EncodeName(name)|) <==>
      |name| < 127 && NulFree(name)
    ensures |name| >= 127 ==> DecodedInt(EncodeName(name) + rest, 127).size >= 2
  {
    var t := EncodeName(name) + rest;
    if |name| < 127 {
      assert EncodeName(name) == EncodeString(name);
      if NulFree(name) {
        StringRoundTrip(root, name, NAME_MAX, rest);
      } else {
        assert t[0] == |name| && t[1..1 + |name|] == name;
        CStringIsNulFree(name);
      }
    } else {
      LongNameLength(name, rest);
      assert t[0] == 127;
      var length := DecodedInt(t, 127);
      assert length.value < 127 || length.size + length.value > 128;
    }
  }

  /** The header is handed over, and exactly its bytes are taken. */
  ghost predicate Survives(root: Tree, dynamic: seq<Header>, h: Header, after: bytes) {
    NextField(root, dynamic, EncodeHeader(h) + after) == Field(Emit(h), |EncodeHeader(h)|)
  }

  lemma {:induction false} TextIsNulFree(root: Tree, s: bytes, max: nat)
    requires max > 0
    ensures NulFree(DecodedString(root, s, max).text)
  {
    if s != [] {
      var length := DecodedInt(s, 127);
      if length.value <= LONGEST && length.size + length.value <= |s| {
        var raw := s[length.size..length.size + length.value];
        CStringIsNulFree(Clip(raw, max));
        CStringIsNulFree(Decoded(root, raw));
      }
    }
  }

  lemma {:induction false} LengthOfLength(n: nat)
    requires n < VALUE_MAX
    ensures EncodeInt(n, 127, 0) ==
      if n < 127 then [n] else if n < 255 then [127, n - 127] else [127, (n - 127) % 128 + 128, (n - 127) / 128]
  {
    if n >= 255 {
      assert EncodeRest((n - 127) / 128) == [(n - 127) / 128];
    }
  }

  /** No byte of the value's length from the third on, and none of a plain value, has its top
      bit set. */
  lemma {:induction false} TopBitsClear(value: bytes, q: nat)
    requires |value| < VALUE_MAX && (forall b :: b in value ==> b < 128)
    requires 2 <= q < |EncodeString(value)|
    ensures EncodeString(value)[q] < 128
  {
    var length := EncodeInt(|value|, 127, 0);
    LengthOfLength(|value|);
    if q >= |length| {
      assert EncodeString(value)[q] == value[q - |length|] && value[q - |length|] in value;
    }
  }

  lemma {:induction false} EosDecodesNothing(at: Place, bits: Bits)
    requires at == At(Eos) || at == Dead
    ensures Walk(Eos, at, bits).1 == []
    decreases |bits|
  {
    if bits != [] {
      EosDecodesNothing(Turn(Eos, at, bits[0]).0, bits[1..]);
    }
  }

  /** A string that is not Huffman-coded is no longer than its bytes. */
  lemma {:induction false} PlainTextIsShort(root: Tree, t: bytes, max: nat)
    requires max > 0 && t != [] && t[0] < 128
    ensures var r := DecodedString(root, t, max);
      r.text == [] || (|r.text| + 1 <= r.size && (|r.text| >= 127 ==> |r.text| + 2 <= r.size))
  {
  }

  lemma {:induction false} CodedIsEmpty(t: bytes)
    requires t != [] && t[0] >= 128
    ensures DecodedString(Eos, t, VALUE_MAX).text == []
  {
    var length := DecodedInt(t, 127);
    if length.value <= LONGEST && length.size + length.value <= |t| {
      EosDecodesNothing(At(Eos), BitsOf(t[length.size..length.size + length.value]));
    }
  }

  /** The value that is read from within the encoding of `value`, two bytes or more in, and
      up to its end, is not `value`. */
  lemma {:induction false} NotReadFromInside(root: Tree, value: bytes, q: nat, after: bytes)
    requires 1 <= |value| < VALUE_MAX && 2 <= q <= |EncodeString(value)|
    requires (forall b :: b in value ==> b < 128) || root == Eos
    ensures var r := DecodedString(root, EncodeString(value)[q..] + after, VALUE_MAX);
      r.text != value || q + r.size != |EncodeString(value)|
  {
    var code := EncodeString(value);
    var t := code[q..] + after;
    LengthOfLength(|value|);
    if q < |code| {
      assert t[0] == code[q];
      if t[0] < 128 {
        PlainTextIsShort(root, t, VALUE_MAX);
      } else if root == Eos {
        CodedIsEmpty(t);
      } else {
        TopBitsClear(value, q);
      }
    }
  }

  /** If a long name is read as itself after all, the reader has run two bytes past it. */
  lemma {:induction false} LongNameRead(root: Tree, name: bytes, rest: bytes)
    requires |name| >= 127
    ensures var r := DecodedString(root, EncodeName(name) + rest, NAME_MAX);
      r.text == name ==> r.size >= 130
  {
    var t := EncodeName(name) + rest;
    LongNameLength(name, rest);
    TextIsNulFree(root, t, NAME_MAX);
    assert t[0] == 127;
  }

  /** A header with a long name is not read as what it is. */
  lemma {:induction false} LongNameIsLost(root: Tree, dynamic: seq<Header>, h: Header, after: bytes)
    requires |h.name| >= 127 && 1 <= |h.value| < VALUE_MAX
    requires (forall b :: b in h.value ==> b < 128) || root == Eos
    ensures !Survives(root, dynamic, h, after)
  {
    hide DecodedString, EncodeString, EncodeName, DecodedInt, Literal;
    var s, rest := EncodeHeader(h) + after, EncodeString(h.value) + after;
    var name := DecodedString(root, s[1..], NAME_MAX);
    HeaderBytes(h, after);
    LiteralAsRead(root, dynamic, s);
    LongNameRead(root, h.name, rest);
    if name.text == h.name && name.size <= 128 + |EncodeString(h.value)| {
      var q := name.size - 128;
      assert s[1 + name.size..] == EncodeString(h.value)[q..] + after;
      NotReadFromInside(root, h.value, q, after);
    }
  }

  /** What a literal hands over fits its buffers, and is neither empty nor cut by a NUL. */
  lemma {:induction false} OnlySendableIsRead(root: Tree, dynamic: seq<Header>, h: Header, after: bytes)
    requires Survives(root, dynamic, h, after)
    ensures h.name != [] && NulFree(h.name) && 1 <= |h.value| < VALUE_MAX && NulFree(h.value)
  {
    hide DecodedString, EncodeString, EncodeName, DecodedInt, Literal;
    var s := EncodeHeader(h) + after;
    HeaderBytes(h, after);
    LiteralAsRead(root, dynamic, s);
    var name := DecodedString(root, s[1..], NAME_MAX);
    TextIsNulFree(root, s[1..], NAME_MAX);
    TextIsNulFree(root, s[1 + name.size..], VALUE_MAX);
  }

  /** A header with a plain value survives, with any tree, any dynamic table and whatever
      follows, exactly if its name has 1 to 126 bytes, its value 1 to 511, and neither a NUL. */
  lemma {:induction false} PlainHeaderSurvives(root: Tree, dynamic: seq<Header>, h: Header, after: bytes)
    requires forall b :: b in h.value ==> b < 128
    ensures Survives(root, dynamic, h, after) <==> Sendable(h)
  {
    hide NextField, EncodeHeader;
    if Sendable(h) {
      HeaderRoundTrip(root, dynamic, h, after);
    } else if Survives(root, dynamic, h, after) {
      OnlySendableIsRead(root, dynamic, h, after);
      LongNameIsLost(root, dynamic, h, after);
    }
  }

  /** With any value, a header survives everywhere exactly if it is such a header. */
  lemma {:induction false} HeaderSurvives(h: Header)
    ensures (forall root, dynamic, after :: Survives(root, dynamic, h, after)) <==> Sendable(h)
  {
    hide NextField, EncodeHeader;
    if Sendable(h) {
      forall root, dynamic, after ensures Survives(root, dynamic, h, after) {
        HeaderRoundTrip(root, dynamic, h, after);
      }
    } else if Survives(Eos, [], h, []) {
      OnlySendableIsRead(Eos, [], h, []);
      LongNameIsLost(Eos, [], h, []);
    }
  }

  // ----- The status and the block

  function StatusHeader(status: nat): Header {
    Header(Ascii(":status"), Decimal(status))
  }

  lemma {:induction false} StatusText(status: nat)
    requires 100 <= status < 1000
    ensures Decimal(status) == [Digit(status / 100), Digit(status / 10), Digit(status)]
    ensures NulFree(Decimal(status))
  {
    assert Decimal(status / 100) == [Digit(status / 100)];
    assert Decimal(status / 10) == Decimal(status / 10 / 10) + [Digit(status / 10)];
  }

  /** The status codes that are sent by index. */
  predicate Indexed(index: nat, status: nat) {
    match index
    case 8 => status == 200
    case 9 => status == 204
    case 11 => status == 304
    case 12 => status == 400
    case 13 => status == 404
    case 14 => status == 500
    case _ => false
  }

  lemma {:induction false} StatusDigits(text: string, status: nat)
    requires 100 <= status < 1000 && |text| == 3
    requires text[0] as int == Digit(status / 100) && text[1] as int == Digit(status / 10) && text[2] as int == Digit(status)
    ensures Ascii(text) == Decimal(status)
  {
    StatusText(status);
  }

  lemma {:induction false} IndexedStatus(index: nat, status: nat)
    requires Indexed(index, status)
    ensures StaticHeader(index) == StatusHeader(status)
  {
    hide Ascii, Decimal;
    StatusDigits(StaticEntry(index).1, status);
  }

  lemma {:induction false} IndexedRoundTrip(root: Tree, dynamic: seq<Header>, index: nat, status: nat, after: bytes)
    requires Indexed(index, status)
    ensures NextField(root, dynamic, [0x80 + index] + after) == Field(Emit(StatusHeader(status)), 1)
  {
    IndexedStatus(index, status);
    assert DecodedInt([0x80 + index] + after, 0x7F) == Number(index, 1);
  }

  /** A literal whose name is an index that fits the prefix. */
  lemma {:induction false} LiteralByIndex(root: Tree, dynamic: seq<Header>, s: bytes, index: nat, value: Text)
    requires s != [] && s[0] == index && 0 < index < 0x0F && Lookup(dynamic, index).Some?
    requires DecodedString(root, s[1..], VALUE_MAX) == value
    ensures var name := CString(Clip(Lookup(dynamic, index).value.name, NAME_MAX));
      NextField(root, dynamic, s) == Field(LiteralEffect(Header(name, value.text), false), 1 + value.size)
  {
    assert DecodedInt(s, 0x0F) == Number(index, 1);
    assert Name(root, dynamic, s, Number(index, 1)).size == 1;
  }

  lemma {:induction false} NameOfStatus(dynamic: seq<Header>)
    ensures Lookup(dynamic, 8).Some?
    ensures CString(Clip(Lookup(dynamic, 8).value.name, NAME_MAX)) == Ascii(":status") != []
  {
    assert StaticEntry(8).0 == ":status";
    var name := Ascii(":status");
    forall i | 0 <= i < |name| ensures name[i] != 0 {
      assert name[i] == ":status"[i] as int % 256;
    }
    NulFreeIsCString(name);
  }

  lemma {:induction false} LiteralStatus(root: Tree, dynamic: seq<Header>, status: nat, after: bytes)
    requires 100 <= status < 1000
    ensures |Decimal(status)| == 3
    ensures NextField(root, dynamic, [0x08, 3] + Decimal(status) + after) == Field(Emit(StatusHeader(status)), 5)
  {
    StatusText(status);
    var text := Decimal(status);
    var s := [0x08, 3] + text + after;
    assert EncodeString(text) == [3] + text;
    assert s[1..] == EncodeString(text) + after;
    StringRoundTrip(root, text, VALUE_MAX, after);
    NameOfStatus(dynamic);
    LiteralByIndex(root, dynamic, s, 8, Text(true, text, 4));
  }

  lemma {:induction false} StatusRoundTrip(root: Tree, dynamic: seq<Header>, status: nat, after: bytes)
    requires 100 <= status < 1000
    ensures NextField(root, dynamic, EncodeStatus(status) + after) == Field(Emit(StatusHeader(status)), |EncodeStatus(status)|)
  {
    var code := EncodeStatus(status);
    if |code| == 1 {
      IndexedRoundTrip(root, dynamic, code[0] - 0x80, status, after);
      assert code == [code[0]];
    } else {
      StatusText(status);
      LiteralStatus(root, dynamic, status, after);
      assert code == [0x08, 3] + Decimal(status);
    }
  }

  /** The headers up to and including the first one the handler refuses. */
  function Heard(judge: seq<Header> -> int, hs: seq<Header>, dynamic: seq<Header>, seen: seq<Header>): Outcome {
    if hs == [] then Outcome(seen, dynamic, 0)
    else
      var now := seen + [hs[0]];
      if judge(now) != 0 then Outcome(now, dynamic, judge(now)) else Heard(judge, hs[1..], dynamic, now)
  }

  /** What the handler hears of `hs`, and then, unless it has refused one, of `rest`. */
  function HeardThen(root: Tree, judge: seq<Header> -> int, hs: seq<Header>, rest: bytes, dynamic: seq<Header>, seen: seq<Header>): Outcome
    requires Table(dynamic)
  {
    var heard := Heard(judge, hs, dynamic, seen);
    if heard.status != 0 then heard else Block(root, judge, rest, dynamic, seen + hs)
  }

  lemma {:induction false} HeadersRoundTrip(root: Tree, judge: seq<Header> -> int, hs: seq<Header>, rest: bytes,
      dynamic: seq<Header>, seen: seq<Header>)
    requires Table(dynamic) && forall h :: h in hs ==> Sendable(h)
    ensures Block(root, judge, EncodeHeaders(hs) + rest, dynamic, seen) == HeardThen(root, judge, hs, rest, dynamic, seen)
    decreases |hs|
  {
    hide NextField, EncodeHeader;
    if hs == [] {
      assert [] + rest == rest && seen + [] == seen;
    } else {
      assert Sendable(hs[0]);
      var s, later := EncodeHeaders(hs) + rest, EncodeHeaders(hs[1..]) + rest;
      assert s == EncodeHeader(hs[0]) + later;
      HeaderRoundTrip(root, dynamic, hs[0], later);
      assert s[|EncodeHeader(hs[0])|..] == later;
      HeadersRoundTrip(root, judge, hs[1..], rest, dynamic, seen + [hs[0]]);
      assert seen + [hs[0]] + hs[1..] == seen + hs;
    }
  }

  /** The block of a response up to some header: the status and the headers before it are
      heard, with any dynamic table and any handler, whatever the rest of the block is read
      as. So a header that does not survive costs none of those before it. */
  lemma {:induction false} BlockUpTo(root: Tree, judge: seq<Header> -> int, status: nat, hs: seq<Header>, rest: bytes, dynamic: seq<Header>)
    requires 100 <= status < 1000 && Table(dynamic) && forall h :: h in hs ==> Sendable(h)
    ensures Block(root, judge, EncodeStatus(status) + (EncodeHeaders(hs) + rest), dynamic, []) ==
      HeardThen(root, judge, [StatusHeader(status)] + hs, rest, dynamic, [])
  {
    hide NextField, EncodeStatus;
    var later := EncodeHeaders(hs) + rest;
    var s := EncodeStatus(status) + later;
    StatusRoundTrip(root, dynamic, status, later);
    assert s[|EncodeStatus(status)|..] == later && [] + [StatusHeader(status)] == [StatusHeader(status)];
    assert ([StatusHeader(status)] + hs)[1..] == hs;
    HeadersRoundTrip(root, judge, hs, rest, dynamic, [StatusHeader(status)]);
    assert [] + ([StatusHeader(status)] + hs) == [StatusHeader(status)] + hs;
  }

  lemma {:induction false} HeardAll(judge: seq<Header> -> int, hs: seq<Header>, dynamic: seq<Header>, seen: seq<Header>)
    ensures var heard := Heard(judge, hs, dynamic, seen);
      heard.status == 0 ==> heard == Outcome(seen + hs, dynamic, 0)
    decreases |hs|
  {
    if hs == [] {
      assert seen + [] == seen;
    } else {
      HeardAll(judge, hs[1..], dynamic, seen + [hs[0]]);
      assert seen + [hs[0]] + hs[1..] == seen + hs;
    }
  }

  /** The block of a response with a three-digit status decodes, with any dynamic table and
      any handler, to the status and the headers in order, as far as the handler lets it. */
  lemma {:induction false} BlockRoundTrip(root: Tree, judge: seq<Header> -> int, status: nat, hs: seq<Header>, dynamic: seq<Header>)
    requires 100 <= status < 1000 && Table(dynamic) && forall h :: h in hs ==> Sendable(h)
    ensures Block(root, judge, EncodeStatus(status) + EncodeHeaders(hs), dynamic, []) ==
      Heard(judge, [StatusHeader(status)] + hs, dynamic, [])
  {
    hide EncodeStatus, EncodeHeaders, Heard;
    assert EncodeHeaders(hs) + [] == EncodeHeaders(hs);
    BlockUpTo(root, judge, status, hs, [], dynamic);
    HeardAll(judge, [StatusHeader(status)] + hs, dynamic, []);
  }

  // ----- The dynamic table over a run of insertions

  function Clipped(h: Header): Header {
    Header(Clip(h.name, NAME_MAX), Clip(h.value, VALUE_MAX))
  }

  /** The table after inserting `hs` one by one into an empty one. */
  function Filled(hs: seq<Header>): (d: seq<Header>)
    ensures Table(d)
  {
    if hs == [] then [] else Inserted(Filled(hs[..|hs| - 1]), hs[|hs| - 1])
  }

  /** After any run the table holds the last 128 insertions, newest first. */
  lemma {:induction false} FilledHoldsTheLast(hs: seq<Header>)
    ensures var d, n := Filled(hs), |hs|;
      && |d| == (if n < 128 then n else 128)
      && forall k :: 0 <= k < |d| ==> d[k] == Clipped(hs[n - 1 - k])
  {
    if hs != [] {
      var n := |hs|;
      var before := hs[..n - 1];
      FilledHoldsTheLast(before);
      var d := Filled(hs);
      assert d[0] == Clipped(hs[n - 1]);
      forall k | 1 <= k < |d| ensures d[k] == Clipped(hs[n - 1 - k]) {
        assert d[k] == Filled(before)[k - 1];
        assert before[n - 1 - 1 - (k - 1)] == hs[n - 1 - k];
      }
    }
  }

  /** Index 62 + k is the k-th most recent insertion; every other index above 61, and 0,
      is not there. */
  lemma {:induction false} DynamicIndex(hs: seq<Header>, index: nat)
    requires index < 0x1_0000_0000 && (index == 0 || index > 61)
    ensures var n := |hs|;
      Lookup(Filled(hs), index) ==
        if 62 <= index < 62 + n && index < 62 + 128 then Some(Clipped(hs[n - 1 - (index - 62)])) else None
  {
    FilledHoldsTheLast(hs);
    if index > 61 {
      assert (index - 62) % 0x1_0000_0000 == index - 62;
    }
  }
}
