/** The HPACK decoder and the header block of a response as the code runs them: a cursor
    over the block, buffers, the dynamic table shifted in place. */
module Hpack {
  import opened Bytes
  import opened HpackCodec
  import opened Huffman
  import opened Options

  lemma {:induction false} ContinuedUnfolds(s: bytes, at: nat, value: nat, k: nat)
    requires at < |s|
    ensures var sum := (value + s[at] % 128 * Weight(k)) % 0x1_0000_0000;
      Continued(s, at, value, k) ==
        if s[at] < 128 || k >= 4 then Number(sum, at + 1) else Continued(s, at + 1, sum, k + 1)
  {
  }

  /** http2_hpack_decode_int: `s[pos..]` is what is left. */
  method DecodeInt(s: bytes, pos: nat, mask: nat) returns (res: nat, next: nat)
    requires pos <= |s| && mask < 256
    ensures pos <= next <= |s| && (pos < |s| ==> pos < next) && res < 0x1_0000_0000
    ensures Number(res, next - pos) == DecodedInt(s[pos..], mask)
  {
    if pos >= |s| {
      return 0, pos;
    }
    ghost var rest := s[pos..];
    next := pos;
    res := s[next] % (mask + 1);
    next := next + 1;
    if res < mask {
      return;
    }
    var shift: nat, weight: nat := 0, 1;
    ghost var k: nat := 0;
    while next < |s|
      invariant pos < next <= |s| && shift == 7 * k <= 28 && weight == Weight(k)
      invariant res < 0x1_0000_0000 && rest == s[pos..]
      invariant DecodedInt(rest, mask) == Continued(rest, next - pos, res, k)
    {
      var b: nat := s[next];
      ContinuedUnfolds(rest, next - pos, res, k);
      next := next + 1;
      res := (res + b % 128 * weight) % 0x1_0000_0000;
      if b < 128 {
        return;
      }
      shift := shift + 7;
      weight := weight * 128;
      k := k + 1;
      if shift > 28 {
        return;
      }
    }
  }

  class DynamicTable {
    const entries: array<Header>
    var count: nat

    ghost predicate Valid()
      reads this
    {
      entries.Length == 128 && count <= 128
    }

    /** Newest first. */
    ghost function Contents(): (d: seq<Header>)
      reads this, entries
      requires Valid()
      ensures Table(d)
    {
      entries[..count]
    }

    constructor ()
      ensures Valid() && Contents() == [] && fresh(entries)
    {
      entries := new Header[128](_ => Header([], []));
      count := 0;
    }

    /** Moves the first `n` entries up by one. */
    method Shift(n: nat)
      requires Valid() && n < 128
      modifies entries
      ensures entries[1..n + 1] == old(entries[..n])
    {
      ghost var before := entries[..];
      var i := n;
      while i > 0
        invariant 0 <= i <= n
        invariant forall k :: 0 <= k <= i ==> entries[k] == before[k]
        invariant forall k :: i < k <= n ==> entries[k] == before[k - 1]
      {
        entries[i] := entries[i - 1];
        i := i - 1;
      }
    }

    /** Puts an entry in front of the others. */
    method PutFirst(h: Header)
      requires Valid() && count < 128
      modifies this, entries
      ensures Valid() && Contents() == [h] + old(Contents())
    {
      ghost var kept := Contents();
      Shift(count);
      assert entries[1..count + 1] == kept;
      entries[0] := h;
      forall k | 1 <= k < count + 1 ensures entries[k] == kept[k - 1] {
        assert entries[1..count + 1][k - 1] == entries[k];
      }
      count := count + 1;
    }

    method Add(name: bytes, value: bytes)
      requires Valid()
      modifies this, entries
      ensures Valid() && Contents() == Inserted(old(Contents()), Header(name, value))
    {
      ghost var dynamic := Contents();
      if count >= 128 {
        count := 127;
      }
      assert Contents() == if |dynamic| >= 128 then dynamic[..127] else dynamic;
      PutFirst(Header(Clip(name, NAME_MAX), Clip(value, VALUE_MAX)));
    }

    method GetHeader(index: nat) returns (h: Option<Header>)
      requires Valid() && index < 0x1_0000_0000
      ensures h == Lookup(Contents(), index)
    {
      if 1 <= index <= 61 {
        return Some(StaticHeader(index));
      }
      if count > 0 {
        var i := (index - 62) % 0x1_0000_0000;
        if i < count {
          return Some(entries[i]);
        }
      }
      return None;
    }
  }

  lemma {:induction false} SliceOfRest(s: bytes, pos: nat, from: nat, to: nat)
    requires pos <= from <= to <= |s|
    ensures |s[pos..]| == |s| - pos && s[pos..][from - pos..to - pos] == s[from..to]
  {
  }

  lemma {:induction false} RestOfRest(s: bytes, pos: nat, next: nat)
    requires pos <= next <= |s|
    ensures s[pos..][next - pos..] == s[next..]
  {
  }

  lemma {:induction false} StopsAtNul(text: bytes, rest: bytes)
    ensures CString(text + [0] + rest) == CString(text)
  {
    if text == [] {
      assert text + [0] + rest == [0] + rest;
    } else {
      assert (text + [0] + rest)[1..] == text[1..] + [0] + rest;
      StopsAtNul(text[1..], rest);
    }
  }

  /** The decoder's tables. */
  class Coding {
    const table: seq<seq<Entry>>
    ghost const places: seq<Place>
    ghost const root: Tree

    constructor (table: seq<seq<Entry>>, ghost places: seq<Place>, ghost root: Tree)
      requires Realizes(table, places, root) && LongWords(root)
      ensures this.root == root && Valid()
    {
      this.table, this.places, this.root := table, places, root;
    }

    ghost predicate Valid() {
      Realizes(table, places, root) && LongWords(root)
    }

    /** Fills a buffer of `max` bytes that holds an empty string. */
    method Unpack(coded: bool, raw: bytes, max: nat) returns (text: bytes)
      requires Valid() && max > 0
      ensures text == Unpacked(root, coded, raw, max)
    {
      var buf := new byte[max](_ => 0);
      if coded {
        var ok := Decode(table, raw, buf, places, root);
        if !ok {
          buf[0] := 0;
          assert buf[..] == [] + [0] + buf[1..];
          StopsAtNul([], buf[1..]);
        } else {
          ghost var n := |Decoded(root, raw)|;
          assert buf[..] == Decoded(root, raw) + [0] + buf[n + 1..];
          StopsAtNul(Decoded(root, raw), buf[n + 1..]);
        }
      } else {
        var n := if |raw| < max - 1 then |raw| else max - 1;
        forall i | 0 <= i < n {
          buf[i] := raw[i];
        }
        buf[n] := 0;
        assert buf[..] == Clip(raw, max) + [0] + buf[n + 1..];
        StopsAtNul(Clip(raw, max), buf[n + 1..]);
      }
      return CString(buf[..]);
    }

    /** http2_hpack_decode_string_buf. */
    method DecodeString(s: bytes, pos: nat, max: nat) returns (ok: bool, text: bytes, next: nat)
      requires Valid() && pos <= |s| && max > 0
      ensures pos <= next <= |s|
      ensures Text(ok, text, next - pos) == DecodedString(root, s[pos..], max)
    {
      hide Unpacked, DecodedInt, Realizes, LongWords;
      if pos >= |s| {
        return false, [], pos;
      }
      var isHuffman := s[pos] >= 128;
      var length;
      length, next := DecodeInt(s, pos, 0x7F);
      if length > LONGEST || next + length > |s| {
        return false, [], |s|;
      }
      SliceOfRest(s, pos, next, next + length);
      text := Unpack(isHuffman, s[next..next + length], max);
      return true, text, next + length;
    }
  }

  class Parser {
    const coding: Coding
    const dynamic: DynamicTable
    const judge: seq<Header> -> int
    var headers: seq<Header>        // handed to the handler, in order

    ghost predicate Valid()
      reads this, dynamic
    {
      coding.Valid() && dynamic.Valid()
    }

    constructor (coding: Coding, dynamic: DynamicTable, judge: seq<Header> -> int)
      requires coding.Valid() && dynamic.Valid()
      ensures Valid() && this.coding == coding && this.dynamic == dynamic && this.judge == judge && headers == []
    {
      this.coding, this.dynamic, this.judge := coding, dynamic, judge;
      headers := [];
    }

    /** http2_hpack_literal_header_with_name: 0 to go on. */
    method Handle(h: Header) returns (status: int)
      modifies this
      ensures headers == old(headers) + [h] && status == judge(headers)
    {
      headers := headers + [h];
      status := judge(headers);
    }

    /** The name of the literal that starts at `pos`; its index ends at `at`. */
    method ReadName(s: bytes, pos: nat, at: nat, index: nat) returns (name: bytes, next: nat)
      requires Valid() && pos <= at <= |s| && index < 0x1_0000_0000
      ensures var r := Name(coding.root, dynamic.Contents(), s[pos..], Number(index, at - pos));
        name == r.text && next == pos + r.size
    {
      if index == 0 {
        RestOfRest(s, pos, at);
        var ok;
        ok, name, next := coding.DecodeString(s, at, NAME_MAX);
        return;
      }
      var h := dynamic.GetHeader(index);
      return if h.Some? then CString(Clip(h.value.name, NAME_MAX)) else [], at;
    }

    method ReadLiteral(s: bytes, pos: nat, mask: nat, ghost keep: bool) returns (h: Header, next: nat)
      requires Valid() && pos < |s| && mask < 256
      ensures pos < next <= |s|
      ensures Field(LiteralEffect(h, keep), next - pos) == Literal(coding.root, dynamic.Contents(), s[pos..], mask, keep)
    {
      var index, at := DecodeInt(s, pos, mask);
      var name, after := ReadName(s, pos, at, index);
      RestOfRest(s, pos, after);
      var ok, value;
      ok, value, next := coding.DecodeString(s, after, VALUE_MAX);
      h := Header(name, value);
    }

    /** What the handler and the dynamic table have become is what the effect says. */
    ghost predicate Did(effect: Effect, seen: seq<Header>, kept: seq<Header>, status: int)
      reads this, dynamic, dynamic.entries
    {
      && Valid() && Table(kept)
      && match effect
         case Nothing => headers == seen && dynamic.Contents() == kept && status == 0
         case Emit(h) => headers == seen + [h] && dynamic.Contents() == kept && status == judge(headers)
         case EmitAndKeep(h) =>
           headers == seen + [h] && dynamic.Contents() == Inserted(kept, h) && status == judge(headers)
    }

    method ReadField(s: bytes, pos: nat) returns (status: int, next: nat)
      requires Valid() && pos < |s|
      modifies this, dynamic, dynamic.entries
      ensures pos < next <= |s|
      ensures var f := NextField(coding.root, old(dynamic.Contents()), s[pos..]);
        next == pos + f.size && Did(f.effect, old(headers), old(dynamic.Contents()), status)
    {
      var b := s[pos];
      status := 0;
      if b >= 0x80 {
        var index;
        index, next := DecodeInt(s, pos, 0x7F);
        if index > 0 {
          var h := dynamic.GetHeader(index);
          if h.Some? {
            status := Handle(h.value);
          }
        }
        return;
      }
      if b >= 0x40 {
        var h;
        h, next := ReadLiteral(s, pos, 0x3F, true);
        if h.name != [] && h.value != [] {
          status := Handle(h);
          dynamic.Add(h.name, h.value);
        }
        return;
      }
      if b >= 0x20 {
        var size;
        size, next := DecodeInt(s, pos, 0x1F);
        return;
      }
      var h;
      h, next := ReadLiteral(s, pos, 0x0F, false);
      if h.name != [] && h.value != [] {
        status := Handle(h);
      }
    }

    /** parse_header, without the request fields and the routing: it stops at the first
        header refused, and otherwise has taken the whole block. */
    method ParseHeader(payload: bytes) returns (ok: bool, errorCode: int)
      requires Valid() && headers == []
      modifies this, dynamic, dynamic.entries
      ensures Valid() && (ok <==> payload != [] && errorCode == 0)
      ensures Outcome(headers, dynamic.Contents(), errorCode)
        == Block(coding.root, judge, payload, old(dynamic.Contents()), [])
    {
      hide NextField, Realizes, LongWords, Inserted;
      if |payload| == 0 {
        return false, 0;
      }
      var pos := 0;
      ghost var goal := Block(coding.root, judge, payload, dynamic.Contents(), []);
      assert payload[0..] == payload;
      while pos < |payload|
        invariant Valid() && pos <= |payload|
        invariant Block(coding.root, judge, payload[pos..], dynamic.Contents(), headers) == goal
      {
        ghost var was := pos;
        var status;
        status, pos := ReadField(payload, pos);
        RestOfRest(payload, was, pos);
        if status != 0 {
          return false, status;
        }
      }
      assert payload[pos..] == [];
      return true, 0;
    }
  }

  // ----- The header block of a response

  predicate IsStatus(name: bytes) {
    name == Ascii("status")
  }

  /** The code of a header line; the status has been sent already. */
  function LineCode(h: Header): bytes {
    if IsStatus(h.name) then [] else EncodeHeader(h)
  }

  // ----- Room for a header line

  /** The capacity after making room: one doubling, however much is missing. */
  function Doubled(capacity: nat, pos: nat, room: nat): (c: nat)
    ensures c >= capacity
  {
    if pos + room > capacity then capacity * 2 else capacity
  }

  function RoomFor(h: Header): nat {
    |h.name| + |h.value| + 16
  }

  /** The line fits the buffer that has been made room in for it. */
  predicate Fits(capacity: nat, pos: nat, h: Header) {
    pos + |EncodeHeader(h)| <= Doubled(capacity, pos, RoomFor(h))
  }

  /** So do all header lines, one after the other; the status has been sent already. */
  predicate AllFit(hs: seq<Header>, capacity: nat, pos: nat) {
    hs == [] ||
    if IsStatus(hs[0].name) then AllFit(hs[1..], capacity, pos)
    else
      && Fits(capacity, pos, hs[0])
      && AllFit(hs[1..], Doubled(capacity, pos, RoomFor(hs[0])), pos + |EncodeHeader(hs[0])|)
  }

  /** 128 to the `k`. */
  function Groups(k: nat): (g: nat)
    ensures g > 0
  {
    if k == 0 then 1 else 128 * Groups(k - 1)
  }

  lemma {:induction false} RestIsShort(n: nat, k: nat)
    requires n < Groups(k) && k > 0
    ensures |EncodeRest(n)| <= k
  {
    if n >= 128 {
      assert n / 128 < Groups(k - 1);
      RestIsShort(n / 128, k - 1);
    }
  }

  /** The code of a line takes no more than the room that is asked for it. */
  lemma {:induction false} CodeFitsRoom(h: Header)
    requires |h.value| < 0x1_0000_0000_0000_0000
    ensures |EncodeHeader(h)| <= RoomFor(h)
  {
    assert Groups(2) == 0x4000;
    assert Groups(4) == 0x4000 * Groups(2);
    assert Groups(6) == 0x4000 * Groups(4);
    assert Groups(8) == 0x4000 * Groups(6);
    assert Groups(10) == 0x4000 * Groups(8);
    if |h.value| >= 127 {
      RestIsShort(|h.value| - 127, 10);
    }
  }

  /** One doubling is enough for a line, as long as a size can be, exactly if its code fits
      twice the capacity. */
  lemma {:induction false} OneDoublingIsEnough(capacity: nat, pos: nat, h: Header)
    requires pos <= capacity && |h.value| < 0x1_0000_0000_0000_0000
    ensures Fits(capacity, pos, h) <==> pos + |EncodeHeader(h)| <= capacity * 2
  {
    CodeFitsRoom(h);
  }

  /** It is for all lines of at most 16368 bytes. */
  lemma {:induction false} ShortLinesFit(hs: seq<Header>, capacity: nat, pos: nat)
    requires pos <= capacity && capacity >= 16384 && forall h :: h in hs ==> RoomFor(h) <= 16384
    ensures AllFit(hs, capacity, pos)
    decreases |hs|
  {
    if hs != [] {
      assert hs[0] in hs && forall h :: h in hs[1..] ==> h in hs;
      if IsStatus(hs[0].name) {
        ShortLinesFit(hs[1..], capacity, pos);
      } else {
        CodeFitsRoom(hs[0]);
        ShortLinesFit(hs[1..], Doubled(capacity, pos, RoomFor(hs[0])), pos + |EncodeHeader(hs[0])|);
      }
    }
  }

  lemma {:induction false} DecimalIsShort(n: nat)
    requires n < 1000
    ensures |Decimal(n)| <= 3
  {
    assert |Decimal(n / 100)| == 1;
  }

  lemma {:induction false} HeaderParts(before: bytes, h: Header)
    ensures var name := if |h.name| < 127 then h.name else h.name[..127];
      && before + [0] + [|name|] + name + EncodeInt(|h.value|, 127, 0) + h.value == before + EncodeHeader(h)
      && |EncodeHeader(h)| == 2 + |name| + |EncodeInt(|h.value|, 127, 0)| + |h.value|
  {
  }

  /** The block buffer: it doubles when little room is left. */
  class BlockBuffer {
    var buf: array<byte>
    var pos: nat

    ghost predicate Valid()
      reads this
    {
      16384 <= buf.Length && pos <= buf.Length
    }

    ghost function Written(): bytes
      reads this, buf
      requires Valid()
    {
      buf[..pos]
    }

    constructor ()
      ensures Valid() && Written() == [] && fresh(buf) && buf.Length == 16384
    {
      buf := new byte[16384](_ => 0);
      pos := 0;
    }

    method Grow(room: nat)
      requires Valid()
      modifies this
      ensures Valid() && pos == old(pos) && Written() == old(Written())
      ensures buf.Length == Doubled(old(buf.Length), pos, room)
      ensures buf == old(buf) || fresh(buf)
    {
      if pos + room > buf.Length {
        var bigger := new byte[buf.Length * 2](_ => 0);
        forall i | 0 <= i < pos {
          bigger[i] := buf[i];
        }
        buf := bigger;
      }
    }

    method Push(b: byte)
      requires Valid() && pos < buf.Length
      modifies this`pos, buf
      ensures Valid() && pos == old(pos) + 1 && Written() == old(Written()) + [b]
    {
      buf[pos] := b;
      pos := pos + 1;
    }

    method Copy(data: bytes)
      requires Valid() && pos + |data| <= buf.Length
      modifies this`pos, buf
      ensures Valid() && pos == old(pos) + |data| && Written() == old(Written()) + data
    {
      forall i | 0 <= i < |data| {
        buf[pos + i] := data[i];
      }
      pos := pos + |data|;
    }

    /** The length of a value: the multi-byte form from 127 on. */
    method PushLength(n: nat)
      requires Valid() && pos + |EncodeInt(n, 127, 0)| <= buf.Length
      modifies this`pos, buf
      ensures Valid() && pos == old(pos) + |EncodeInt(n, 127, 0)| && Written() == old(Written()) + EncodeInt(n, 127, 0)
    {
      if n < 127 {
        Push(n);
        return;
      }
      ghost var before := Written();
      Push(0x7F);
      var rem: nat := n - 127;
      ghost var goal := Written() + EncodeRest(rem);
      while rem >= 128
        invariant Valid() && Written() + EncodeRest(rem) == goal && |goal| <= buf.Length
      {
        var group: byte := rem % 128 + 128;
        ConcatAssociates(Written(), [group], EncodeRest(rem / 128));
        Push(group);
        rem := rem / 128;
      }
      Push(rem);
      ConcatAssociates(before, [0x7F], EncodeRest(n - 127));
    }

    method AppendStatus(status: nat)
      requires Valid() && status < 1000 && pos == 0
      modifies this`pos, buf
      ensures Valid() && Written() == EncodeStatus(status)
    {
      match status {
        case 200 => Push(0x88);
        case 204 => Push(0x89);
        case 304 => Push(0x8B);
        case 400 => Push(0x8C);
        case 404 => Push(0x8D);
        case 500 => Push(0x8E);
        case _ =>
          var text := Decimal(status);
          DecimalIsShort(status);
          Push(0x08);
          Push(if |text| < 127 then |text| else 0x7F);
          Copy(text);
      }
    }

    method AppendHeader(h: Header)
      requires Valid() && Fits(buf.Length, pos, h)
      modifies this, buf
      ensures Valid() && pos == old(pos) + |EncodeHeader(h)| && Written() == old(Written()) + EncodeHeader(h)
      ensures buf.Length == Doubled(old(buf.Length), old(pos), RoomFor(h))
      ensures buf == old(buf) || fresh(buf)
    {
      ghost var before := Written();
      Grow(|h.name| + |h.value| + 16);
      Push(0x00);
      var name := h.name;
      if |name| < 127 {
        Push(|name|);
      } else {
        name := name[..127];
        Push(0x7F);
      }
      Copy(name);
      PushLength(|h.value|);
      Copy(h.value);
      HeaderParts(before, h);
    }
  }

  /** The header lines that are sent. */
  function WithoutStatus(hs: seq<Header>): seq<Header> {
    if hs == [] then [] else (if IsStatus(hs[0].name) then [] else [hs[0]]) + WithoutStatus(hs[1..])
  }

  lemma {:induction false} HeadersUnfold(before: bytes, hs: seq<Header>, i: nat)
    requires i < |hs|
    ensures before + EncodeHeaders(WithoutStatus(hs[i..])) ==
      before + LineCode(hs[i]) + EncodeHeaders(WithoutStatus(hs[i + 1..]))
  {
    var later := WithoutStatus(hs[i + 1..]);
    assert hs[i..][1..] == hs[i + 1..];
    if IsStatus(hs[i].name) {
      assert [] + later == later && before + [] == before;
    } else {
      assert ([hs[i]] + later)[1..] == later;
      ConcatAssociates(before, EncodeHeader(hs[i]), EncodeHeaders(later));
    }
  }

  lemma {:induction false} NoHeaders()
    ensures EncodeHeaders(WithoutStatus([])) == []
  {
  }

  lemma {:induction false} FitsUnfold(hs: seq<Header>, i: nat, capacity: nat, pos: nat)
    requires i < |hs|
    ensures AllFit(hs[i..], capacity, pos) <==>
      if IsStatus(hs[i].name) then AllFit(hs[i + 1..], capacity, pos)
      else
        && Fits(capacity, pos, hs[i])
        && AllFit(hs[i + 1..], Doubled(capacity, pos, RoomFor(hs[i])), pos + |EncodeHeader(hs[i])|)
  {
    hide Fits, Doubled, EncodeHeader, IsStatus;
    assert hs[i..][0] == hs[i] && hs[i..][1..] == hs[i + 1..];
  }

  /** http2_response_send_complex_header, from the status and the header lines. */
  method BuildBlock(status: nat, hs: seq<Header>) returns (block: bytes)
    requires status < 1000 && AllFit(hs, 16384, |EncodeStatus(status)|)
    ensures block == EncodeStatus(status) + EncodeHeaders(WithoutStatus(hs))
  {
    hide AllFit, Fits, Doubled, EncodeHeader, EncodeHeaders, EncodeStatus, WithoutStatus, IsStatus, Ascii;
    var b := new BlockBuffer();
    b.AppendStatus(status);
    ghost var goal := EncodeStatus(status) + EncodeHeaders(WithoutStatus(hs));
    assert hs[0..] == hs && b.pos == |b.Written()|;
    for i := 0 to |hs|
      invariant b.Valid() && fresh(b) && fresh(b.buf) && AllFit(hs[i..], b.buf.Length, b.pos)
      invariant b.Written() + EncodeHeaders(WithoutStatus(hs[i..])) == goal
    {
      HeadersUnfold(b.Written(), hs, i);
      FitsUnfold(hs, i, b.buf.Length, b.pos);
      if IsStatus(hs[i].name) {
        assert b.Written() + [] == b.Written();
      } else {
        b.AppendHeader(hs[i]);
      }
    }
    assert hs[|hs|..] == [] && b.Written() + [] == b.Written();
    NoHeaders();
    return b.buf[..b.pos];
  }
}
