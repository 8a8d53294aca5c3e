/** Blocks of any peer: every representation of section 6 of RFC 7541, by index or in full,
    kept or not, plain or Huffman-coded, and what the block parser makes of it. */
module HpackRequests {
  import opened Bytes
  import opened HpackCodec
  import opened Huffman
  import opened Options

  // ----- Strings

  /** A string literal; `coded` is its H bit. */
  function Spell(code: byte -> Bits, text: bytes, coded: bool): bytes {
    if coded then EncodeInt(|EncodeText(code, text)|, 127, 128) + EncodeText(code, text)
    else EncodeInt(|text|, 127, 0) + text
  }

  /** The text fits a buffer of `max` bytes as a C string, and its code is not too long. */
  ghost predicate Fits(code: byte -> Bits, text: bytes, coded: bool, max: nat) {
    && |text| < max && 0 !in text
    && (if coded then |EncodeText(code, text)| else |text|) <= 10240
  }

  /** The code of a tree, with an end-of-string word of eight or more one-bits. */
  ghost predicate CodeOf(root: Tree, code: byte -> Bits) {
    root.Node? && Codes(code, root) && exists eos :: eos >= 8 && Reaches(root, Ones(eos), Eos)
  }

  lemma {:induction false} CodedText(root: Tree, code: byte -> Bits, text: bytes, max: nat)
    requires CodeOf(root, code) && Fits(code, text, true, max)
    ensures Unpacked(root, true, EncodeText(code, text), max) == text
  {
    var eos :| eos >= 8 && Reaches(root, Ones(eos), Eos);
    DecodedInvertsEncode(root, code, text, eos);
    NulFreeIsCString(text);
  }

  lemma {:induction false} RawString(root: Tree, raw: bytes, high: nat, max: nat, after: bytes)
    requires |raw| <= 10240 && max > 0 && (high == 0 || high == 128)
    ensures DecodedString(root, EncodeInt(|raw|, 127, high) + raw + after, max) ==
      Text(true, Unpacked(root, high == 128, raw, max), |EncodeInt(|raw|, 127, high)| + |raw|)
  {
    hide Unpacked;
    var length := EncodeInt(|raw|, 127, high);
    var s, n := length + raw + after, |length|;
    assert s == length + (raw + after);
    IntRoundTrip(|raw|, 127, high, raw + after);
    assert s[n..n + |raw|] == raw;
    assert s[0] == length[0] && (length[0] >= 128 <==> high == 128);
  }

  /** Every string that fits comes back, plain or Huffman-coded, and just its bytes are taken. */
  lemma {:induction false} SpelledRoundTrip(root: Tree, code: byte -> Bits, text: bytes, coded: bool, max: nat, after: bytes)
    requires CodeOf(root, code) && Fits(code, text, coded, max)
    ensures DecodedString(root, Spell(code, text, coded) + after, max) == Text(true, text, |Spell(code, text, coded)|)
  {
    if coded {
      RawString(root, EncodeText(code, text), 128, max, after);
      CodedText(root, code, text, max);
    } else {
      RawString(root, text, 0, max, after);
      NulFreeIsCString(text);
    }
  }

  // ----- Fields

  datatype Name = NameAt(index: nat) | NameIs(text: bytes, coded: bool)

  datatype Keeping = Kept | NotKept | NeverKept

  datatype Representation =
    | Indexed(index: nat)
    | Literal(keeping: Keeping, name: Name, value: bytes, coded: bool)
    | Resize(size: nat)

  function EncodeName(code: byte -> Bits, keeping: Keeping, name: Name): bytes {
    var index := if name.NameAt? then name.index else 0;
    var start := (match keeping
                  case Kept => EncodeInt(index, 0x3F, 0x40)
                  case NotKept => EncodeInt(index, 0x0F, 0)
                  case NeverKept => EncodeInt(index, 0x0F, 0x10));
    start + if name.NameIs? then Spell(code, name.text, name.coded) else []
  }

  function EncodeField(code: byte -> Bits, f: Representation): bytes {
    match f
    case Indexed(index) => EncodeInt(index, 0x7F, 0x80)
    case Literal(keeping, name, value, coded) => EncodeName(code, keeping, name) + Spell(code, value, coded)
    case Resize(size) => EncodeInt(size, 0x1F, 0x20)
  }

  /** Indices and sizes are 32-bit, a name by index is not index 0, and strings fit. */
  ghost predicate Proper(code: byte -> Bits, f: Representation) {
    match f
    case Indexed(index) => index < 0x1_0000_0000
    case Resize(size) => size < 0x1_0000_0000
    case Literal(_, name, value, coded) =>
      && Fits(code, value, coded, 512)
      && (if name.NameAt? then 0 < name.index < 0x1_0000_0000 else Fits(code, name.text, name.coded, 128))
  }

  /** The entry of an index: the static table, then the dynamic one, newest first. */
  function EntryAt(dynamic: seq<Header>, index: nat): Option<Header> {
    if 1 <= index <= 61 then Some(StaticHeader(index))
    else if 62 <= index < 62 + |dynamic| then Some(dynamic[index - 62])
    else None
  }

  /** A name by index is taken as a C string of at most 127 bytes. */
  function NameMeant(dynamic: seq<Header>, name: Name): bytes {
    match name
    case NameIs(text, _) => text
    case NameAt(index) =>
      if EntryAt(dynamic, index).Some? then CString(Clip(EntryAt(dynamic, index).value.name, 128)) else []
  }

  /** What a field means: the header of the index, or the header spelt, which is kept if so
      marked; nothing if there is no such index, or if name or value is empty. */
  function Meaning(dynamic: seq<Header>, f: Representation): Effect {
    match f
    case Indexed(index) => if EntryAt(dynamic, index).Some? then Emit(EntryAt(dynamic, index).value) else Nothing
    case Resize(_) => Nothing
    case Literal(keeping, name, value, _) =>
      var h := Header(NameMeant(dynamic, name), value);
      if h.name == [] || value == [] then Nothing else if keeping == Kept then EmitAndKeep(h) else Emit(h)
  }

  // ----- Every field is understood

  lemma {:induction false} EntryIsFound(dynamic: seq<Header>, index: nat)
    requires index < 0x1_0000_0000 && |dynamic| <= 128
    ensures index > 0 ==> Lookup(dynamic, index) == EntryAt(dynamic, index)
    ensures IndexedEffect(dynamic, index) == Meaning(dynamic, Indexed(index))
  {
    hide StaticHeader;
    if index > 61 {
      assert (index - 62) % 0x1_0000_0000 == index - 62;
    }
  }

  lemma {:induction false} FirstByte(n: nat, mask: nat, high: nat)
    requires high + mask < 256
    ensures EncodeInt(n, mask, high) != [] && high <= EncodeInt(n, mask, high)[0] <= high + mask
  {
  }

  predicate Mode(keeping: Keeping, mask: nat, high: nat) {
    match keeping
    case Kept => mask == 0x3F && high == 0x40
    case NotKept => mask == 0x0F && high == 0
    case NeverKept => mask == 0x0F && high == 0x10
  }

  lemma {:induction false} NameByIndex(root: Tree, dynamic: seq<Header>, s: bytes, index: nat, size: nat)
    requires 0 < index < 0x1_0000_0000 && Table(dynamic) && size <= |s|
    ensures var r := HpackCodec.Name(root, dynamic, s, Number(index, size));
      r.text == NameMeant(dynamic, NameAt(index)) && r.size == size
  {
    hide StaticHeader;
    EntryIsFound(dynamic, index);
  }

  lemma {:induction false} NameInFull(root: Tree, code: byte -> Bits, dynamic: seq<Header>, start: bytes, text: bytes, coded: bool, rest: bytes)
    requires CodeOf(root, code) && Fits(code, text, coded, 128)
    ensures var s := start + Spell(code, text, coded) + rest;
      HpackCodec.Name(root, dynamic, s, Number(0, |start|)) == Text(true, text, |start| + |Spell(code, text, coded)|)
  {
    hide DecodedString, Spell;
    var s := start + Spell(code, text, coded) + rest;
    SpelledRoundTrip(root, code, text, coded, NAME_MAX, rest);
    assert s[|start|..] == Spell(code, text, coded) + rest;
  }

  lemma {:induction false} NameRoundTrip(root: Tree, code: byte -> Bits, dynamic: seq<Header>, keeping: Keeping, name: Name, rest: bytes,
      mask: nat, high: nat)
    requires CodeOf(root, code) && Table(dynamic) && Mode(keeping, mask, high)
    requires if name.NameAt? then 0 < name.index < 0x1_0000_0000 else Fits(code, name.text, name.coded, 128)
    ensures var s := EncodeName(code, keeping, name) + rest;
      && s != [] && high <= s[0] <= high + mask
      && var r := HpackCodec.Name(root, dynamic, s, DecodedInt(s, mask));
         r.text == NameMeant(dynamic, name) && r.size == |EncodeName(code, keeping, name)|
  {
    hide HpackCodec.Name, EntryAt, Spell;
    var index := if name.NameAt? then name.index else 0;
    var start := EncodeInt(index, mask, high);
    var spelt := if name.NameIs? then Spell(code, name.text, name.coded) else [];
    var s := EncodeName(code, keeping, name) + rest;
    assert EncodeName(code, keeping, name) == start + spelt;
    assert s == start + (spelt + rest);
    FirstByte(index, mask, high);
    IntRoundTrip(index, mask, high, spelt + rest);
    if name.NameAt? {
      NameByIndex(root, dynamic, s, index, |start|);
    } else {
      NameInFull(root, code, dynamic, start, name.text, name.coded, rest);
      assert s == start + spelt + rest;
    }
  }

  lemma {:induction false} LiteralRead(root: Tree, dynamic: seq<Header>, s: bytes, mask: nat, keep: bool, name: bytes, n: nat, value: Text)
    requires s != [] && n <= |s|
    requires var r := HpackCodec.Name(root, dynamic, s, DecodedInt(s, mask));
      r.text == name && r.size == n
    requires DecodedString(root, s[n..], VALUE_MAX) == value
    ensures HpackCodec.Literal(root, dynamic, s, mask, keep) == Field(LiteralEffect(Header(name, value.text), keep), n + value.size)
  {
  }

  lemma {:induction false} LiteralRoundTrip(root: Tree, code: byte -> Bits, dynamic: seq<Header>, f: Representation, after: bytes,
      mask: nat, high: nat)
    requires CodeOf(root, code) && Table(dynamic) && f.Literal? && Proper(code, f) && Mode(f.keeping, mask, high)
    ensures var s := EncodeField(code, f) + after;
      && s != [] && high <= s[0] <= high + mask
      && HpackCodec.Literal(root, dynamic, s, mask, f.keeping == Kept) == Field(Meaning(dynamic, f), |EncodeField(code, f)|)
  {
    hide HpackCodec.Literal, HpackCodec.Name, DecodedString, EntryAt, Spell, EncodeName, NameMeant, DecodedInt, Fits, CodeOf;
    var name, value := EncodeName(code, f.keeping, f.name), Spell(code, f.value, f.coded);
    var s := EncodeField(code, f) + after;
    assert s == name + (value + after);
    NameRoundTrip(root, code, dynamic, f.keeping, f.name, value + after, mask, high);
    SpelledRoundTrip(root, code, f.value, f.coded, VALUE_MAX, after);
    assert s[|name|..] == value + after;
    LiteralRead(root, dynamic, s, mask, f.keeping == Kept, NameMeant(dynamic, f.name), |name|, Text(true, f.value, |value|));
  }

  lemma {:induction false} MeansNothing(dynamic: seq<Header>, size: nat)
    ensures Meaning(dynamic, Resize(size)) == Nothing
  {
  }

  /** Any field of any peer has its meaning, and takes just its bytes: with either string
      plain or Huffman-coded, whatever follows, for every tree and every code of it. */
  lemma {:induction false} FieldRoundTrip(root: Tree, code: byte -> Bits, dynamic: seq<Header>, f: Representation, after: bytes)
    requires CodeOf(root, code) && Table(dynamic) && Proper(code, f)
    ensures EncodeField(code, f) != []
    ensures NextField(root, dynamic, EncodeField(code, f) + after) == Field(Meaning(dynamic, f), |EncodeField(code, f)|)
  {
    hide HpackCodec.Literal, Meaning, IndexedEffect, EntryAt, CodeOf, Fits, EncodeName;
    var s := EncodeField(code, f) + after;
    match f
    case Indexed(index) =>
      FirstByte(index, 0x7F, 0x80);
      IntRoundTrip(index, 0x7F, 0x80, after);
      EntryIsFound(dynamic, index);
    case Resize(size) =>
      FirstByte(size, 0x1F, 0x20);
      IntRoundTrip(size, 0x1F, 0x20, after);
      MeansNothing(dynamic, size);
    case Literal(keeping, name, value, coded) =>
      var (mask, high) := if keeping == Kept then (0x3F, 0x40) else if keeping == NotKept then (0x0F, 0) else (0x0F, 0x10);
      LiteralRoundTrip(root, code, dynamic, f, after, mask, high);
  }

  // ----- Blocks

  function EncodeFields(code: byte -> Bits, fs: seq<Representation>): bytes {
    if fs == [] then [] else EncodeField(code, fs[0]) + EncodeFields(code, fs[1..])
  }

  /** The table with `h` in front, 128 entries at most. */
  function Remembered(dynamic: seq<Header>, h: Header): seq<Header> {
    var all := [h] + dynamic;
    if |all| <= 128 then all else all[..128]
  }

  /** What a sequence of fields tells the handler, and the table it leaves. */
  function Told(judge: seq<Header> -> int, fs: seq<Representation>, dynamic: seq<Header>, seen: seq<Header>): Outcome
    decreases |fs|, 0
  {
    if fs == [] then Outcome(seen, dynamic, 0)
    else
      match Meaning(dynamic, fs[0])
      case Nothing => Told(judge, fs[1..], dynamic, seen)
      case Emit(h) => Heard(judge, fs[1..], dynamic, seen + [h])
      case EmitAndKeep(h) => Heard(judge, fs[1..], Remembered(dynamic, h), seen + [h])
  }

  /** The handler may stop the block. */
  function Heard(judge: seq<Header> -> int, fs: seq<Representation>, dynamic: seq<Header>, seen: seq<Header>): Outcome
    decreases |fs|, 1
  {
    if judge(seen) != 0 then Outcome(seen, dynamic, judge(seen)) else Told(judge, fs, dynamic, seen)
  }

  lemma {:induction false} KeptIsRemembered(code: byte -> Bits, dynamic: seq<Header>, f: Representation)
    requires Table(dynamic) && Proper(code, f) && Meaning(dynamic, f).EmitAndKeep?
    ensures var h := Meaning(dynamic, f).header;
      Inserted(dynamic, h) == Remembered(dynamic, h) && Table(Remembered(dynamic, h))
  {
    hide EntryAt;
    var h := Meaning(dynamic, f).header;
    assert |h.name| < 128 && |h.value| < 512;
    assert Inserted(dynamic, h)[0] == h;
  }

  /** A block of any fields tells the handler what they mean, in order, and leaves the table
      they make, as far as the handler lets it: whichever strings are Huffman-coded. */
  lemma {:induction false} BlockOfFields(root: Tree, code: byte -> Bits, judge: seq<Header> -> int, fs: seq<Representation>,
      dynamic: seq<Header>, seen: seq<Header>)
    requires CodeOf(root, code) && Table(dynamic) && forall i :: 0 <= i < |fs| ==> Proper(code, fs[i])
    ensures Block(root, judge, EncodeFields(code, fs), dynamic, seen) == Told(judge, fs, dynamic, seen)
    decreases |fs|
  {
    hide CodeOf, Proper, NextField, EncodeField, Meaning, EntryAt, Inserted, Remembered;
    if fs != [] {
      var f, rest := fs[0], EncodeFields(code, fs[1..]);
      var s := EncodeField(code, f) + rest;
      FieldRoundTrip(root, code, dynamic, f, rest);
      assert s[|EncodeField(code, f)|..] == rest;
      match Meaning(dynamic, f)
      case Nothing => BlockOfFields(root, code, judge, fs[1..], dynamic, seen);
      case Emit(h) => BlockOfFields(root, code, judge, fs[1..], dynamic, seen + [h]);
      case EmitAndKeep(h) =>
        KeptIsRemembered(code, dynamic, f);
        BlockOfFields(root, code, judge, fs[1..], Remembered(dynamic, h), seen + [h]);
    }
  }

  // ----- The first request of appendix C.3 of RFC 7541

  function Line(name: string, value: string): Header {
    Header(Ascii(name), Ascii(value))
  }

  const HOST: string := "www.example.com"

  lemma {:induction false} AsciiHasNoNul(s: string)
    requires forall i :: 0 <= i < |s| ==> 0 < s[i] as int < 128
    ensures 0 !in Ascii(s)
  {
  }

  lemma {:induction false} IndexedIsTold(judge: seq<Header> -> int, i: nat, fs: seq<Representation>, dynamic: seq<Header>, seen: seq<Header>)
    requires 1 <= i <= 61 && judge(seen + [StaticHeader(i)]) == 0
    ensures Told(judge, [Indexed(i)] + fs, dynamic, seen) == Told(judge, fs, dynamic, seen + [StaticHeader(i)])
  {
    hide StaticHeader;
    assert ([Indexed(i)] + fs)[1..] == fs;
  }

  lemma {:induction false} FirstStatics()
    ensures StaticHeader(2) == Line(":method", "GET") && StaticHeader(6) == Line(":scheme", "http")
    ensures StaticHeader(4) == Line(":path", "/") && StaticHeader(1).name == Ascii(":authority")
  {
    hide Ascii;
  }

  lemma {:induction false} AuthorityIsKept()
    ensures Meaning([], Literal(Kept, NameAt(1), Ascii(HOST), false)) == EmitAndKeep(Line(":authority", HOST))
  {
    var name := Ascii(":authority");
    AsciiHasNoNul(":authority");
    NulFreeIsCString(name);
    assert |name| == 10 && |Ascii(HOST)| == 15;
    hide StaticHeader, Ascii, CString;
    FirstStatics();
    assert Clip(name, 128) == name;
  }

  lemma {:induction false} FirstRequestIsTold(judge: seq<Header> -> int)
    requires forall seen :: judge(seen) == 0
    ensures var authority := Line(":authority", HOST);
      Told(judge, [Indexed(2), Indexed(6), Indexed(4), Literal(Kept, NameAt(1), Ascii(HOST), false)], [], []) ==
        Outcome([Line(":method", "GET"), Line(":scheme", "http"), Line(":path", "/"), authority], [authority], 0)
  {
    hide StaticHeader, Ascii, Meaning, HOST;
    var last := Literal(Kept, NameAt(1), Ascii(HOST), false);
    var authority := Line(":authority", HOST);
    FirstStatics();
    AuthorityIsKept();
    assert [Indexed(2)] + [Indexed(6), Indexed(4), last] == [Indexed(2), Indexed(6), Indexed(4), last];
    IndexedIsTold(judge, 2, [Indexed(6), Indexed(4), last], [], []);
    assert [Indexed(6)] + [Indexed(4), last] == [Indexed(6), Indexed(4), last];
    IndexedIsTold(judge, 6, [Indexed(4), last], [], [] + [StaticHeader(2)]);
    assert [Indexed(4)] + [last] == [Indexed(4), last];
    IndexedIsTold(judge, 4, [last], [], [] + [StaticHeader(2)] + [StaticHeader(6)]);
    var seen := [] + [StaticHeader(2)] + [StaticHeader(6)] + [StaticHeader(4)];
    assert [last][1..] == [] && [last][0] == last;
    assert Told(judge, [last], [], seen) == Heard(judge, [], Remembered([], authority), seen + [authority]);
    assert Remembered([], authority) == [authority];
  }

  lemma {:induction false} FirstRequestBytes(code: byte -> Bits)
    ensures EncodeFields(code, [Indexed(2), Indexed(6), Indexed(4), Literal(Kept, NameAt(1), Ascii(HOST), false)]) ==
      [0x82, 0x86, 0x84, 0x41, 0x0F] + Ascii(HOST)
  {
    var host := Ascii(HOST);
    assert |host| == 15;
    hide Ascii;
    var last := Literal(Kept, NameAt(1), host, false);
    assert EncodeField(code, last) == [0x41, 0x0F] + host;
    var a, b, c := [last], [Indexed(4), last], [Indexed(6), Indexed(4), last];
    assert a[1..] == [] && b[1..] == a && c[1..] == b && ([Indexed(2)] + c)[1..] == c;
    assert a[0] == last && b[0] == Indexed(4) && c[0] == Indexed(6) && ([Indexed(2)] + c)[0] == Indexed(2);
    assert EncodeField(code, Indexed(2)) == [0x82] && EncodeField(code, Indexed(6)) == [0x86];
    assert EncodeField(code, Indexed(4)) == [0x84];
    hide EncodeField;
    assert EncodeFields(code, []) == [];
    assert EncodeFields(code, a) == [0x41, 0x0F] + host + [];
    assert EncodeFields(code, b) == [0x84] + EncodeFields(code, a);
    assert EncodeFields(code, c) == [0x86] + EncodeFields(code, b);
    assert [Indexed(2)] + c == [Indexed(2), Indexed(6), Indexed(4), last];
    assert EncodeFields(code, [Indexed(2)] + c) == [0x82] + EncodeFields(code, c);
  }

  /** 82 86 84 41 0f and the host name: the four lines of the request, and one entry kept. */
  lemma {:induction false} FirstRequest(root: Tree, code: byte -> Bits, judge: seq<Header> -> int)
    requires CodeOf(root, code) && forall seen :: judge(seen) == 0
    ensures var authority := Line(":authority", HOST);
      Block(root, judge, [0x82, 0x86, 0x84, 0x41, 0x0F] + Ascii(HOST), [], []) ==
        Outcome([Line(":method", "GET"), Line(":scheme", "http"), Line(":path", "/"), authority], [authority], 0)
  {
    var fs := [Indexed(2), Indexed(6), Indexed(4), Literal(Kept, NameAt(1), Ascii(HOST), false)];
    AsciiHasNoNul(HOST);
    assert |Ascii(HOST)| == 15;
    hide Ascii, Told, EncodeFields, Block, CodeOf;
    FirstRequestBytes(code);
    FirstRequestIsTold(judge);
    BlockOfFields(root, code, judge, fs, [], []);
  }
}
