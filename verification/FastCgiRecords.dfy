/** FastCGI records and name-value pairs (sections 3.3 and 3.4 of the FastCGI
    Specification): how they are laid out, and an independent decoder of each. */
module FastCgiRecords {
  import opened Bytes
  import opened Options

  const END_REQUEST: byte := 3
  const PARAMS: byte := 4
  const STDIN: byte := 5
  const STDOUT: byte := 6
  const STDERR: byte := 7

  datatype Rec = Rec(kind: byte, requestId: nat, content: bytes, padding: bytes)

  predicate Fits(r: Rec) {
    r.requestId < 0x1_0000 && |r.content| < 0x1_0000 && |r.padding| < 0x100
  }

  function RecordHead(kind: byte, requestId: nat, length: nat, padding: nat): bytes
    requires padding < 0x100
  {
    [1, kind] + Be16(requestId) + Be16(length) + [padding, 0]
  }

  function Encode(r: Rec): bytes
    requires Fits(r)
  {
    RecordHead(r.kind, r.requestId, |r.content|, |r.padding|) + r.content + r.padding
  }

  function EncodeAll(rs: seq<Rec>): bytes
    requires forall r :: r in rs ==> Fits(r)
  {
    if rs == [] then []
    else
      assert Fits(rs[0]);
      Encode(rs[0]) + EncodeAll(rs[1..])
  }

  // ----- Decoding records

  /** The first record of `s` and what follows it. */
  function Parse(s: bytes): (r: Option<(Rec, bytes)>)
    ensures r.Some? ==> |r.value.1| + 8 <= |s|
  {
    if |s| < 8 then None
    else
      var length, padding := U16(s[4..6]), s[6] as int;
      if |s| < 8 + length + padding then None
      else Some((Rec(s[1], U16(s[2..4]), s[8..8 + length], s[8 + length..8 + length + padding]), s[8 + length + padding..]))
  }

  function ParseAll(s: bytes): Option<seq<Rec>>
    decreases |s|
  {
    if s == [] then Some([])
    else
      match Parse(s)
      case None => None
      case Some((r, rest)) =>
        match ParseAll(rest)
        case None => None
        case Some(rs) => Some([r] + rs)
  }

  lemma {:induction false} HeadOf(r: Rec, rest: bytes)
    requires Fits(r)
    ensures var s := Encode(r) + rest;
      && |s| >= 8 && s[1] == r.kind && s[6] as int == |r.padding| && U16(s[4..6]) == |r.content|
      && U16(s[2..4]) == r.requestId && s[8..] == r.content + (r.padding + rest)
  {
    var s := Encode(r) + rest;
    assert s[4..6] == Be16(|r.content|) && s[2..4] == Be16(r.requestId);
    Be16RoundTrip(|r.content|);
    Be16RoundTrip(r.requestId);
  }

  lemma {:induction false} ParseInvertsEncode(r: Rec, rest: bytes)
    requires Fits(r)
    ensures Parse(Encode(r) + rest) == Some((r, rest))
  {
    HeadOf(r, rest);
    var s, n := Encode(r) + rest, 8 + |r.content|;
    assert s[8..n] == r.content && s[n..n + |r.padding|] == r.padding && s[n + |r.padding|..] == rest;
  }

  lemma {:induction false} ParseAllInvertsEncodeAll(rs: seq<Rec>)
    requires forall r :: r in rs ==> Fits(r)
    ensures ParseAll(EncodeAll(rs)) == Some(rs)
  {
    if rs != [] {
      assert Fits(rs[0]);
      ParseInvertsEncode(rs[0], EncodeAll(rs[1..]));
      ParseAllInvertsEncodeAll(rs[1..]);
      assert EncodeAll(rs) == Encode(rs[0]) + EncodeAll(rs[1..]);
      assert [rs[0]] + rs[1..] == rs;
    }
  }

  // ----- Name-value pairs

  /** Strings whose length an int can hold. */
  type Text = s: bytes | |s| < 0x8000_0000

  datatype Pair = Pair(name: Text, value: Text)

  /** One byte up to 127, else four with the top bit set. */
  function EncodeLength(n: nat): bytes
    requires n < 0x8000_0000
  {
    if n > 127 then [n / 0x100_0000 + 0x80] + Be24(n) else [n]
  }

  function EncodePair(p: Pair): bytes
  {
    EncodeLength(|p.name|) + EncodeLength(|p.value|) + p.name + p.value
  }

  function EncodePairs(ps: seq<Pair>): bytes
  {
    if ps == [] then [] else EncodePair(ps[0]) + EncodePairs(ps[1..])
  }

  /** A length and how many bytes it takes. */
  function DecodeLength(s: bytes): (r: Option<(nat, nat)>)
    ensures r.Some? ==> 1 <= r.value.1 <= |s|
  {
    if s == [] then None
    else if s[0] < 0x80 then Some((s[0], 1))
    else if |s| < 4 then None
    else Some(((s[0] - 0x80) * 0x100_0000 + U24(s[1..4]), 4))
  }

  function DecodePair(s: bytes): (r: Option<(Pair, nat)>)
    ensures r.Some? ==> 1 <= r.value.1 <= |s|
  {
    match DecodeLength(s)
    case None => None
    case Some((n, i)) =>
      match DecodeLength(s[i..])
      case None => None
      case Some((v, j)) =>
        var at := i + j;
        if |s| < at + n + v || n >= 0x8000_0000 || v >= 0x8000_0000 then None
        else Some((Pair(s[at..at + n], s[at + n..at + n + v]), at + n + v))
  }

  function DecodePairs(s: bytes): Option<seq<Pair>>
    decreases |s|
  {
    if s == [] then Some([])
    else
      match DecodePair(s)
      case None => None
      case Some((p, n)) =>
        match DecodePairs(s[n..])
        case None => None
        case Some(ps) => Some([p] + ps)
  }

  lemma {:induction false} LengthRoundTrip(n: nat, rest: bytes)
    requires n < 0x8000_0000
    ensures DecodeLength(EncodeLength(n) + rest) == Some((n, |EncodeLength(n)|))
  {
    var s := EncodeLength(n) + rest;
    if n > 127 {
      Be32RoundTrip(n);
      assert s[1..4] == Be24(n);
      assert s[0] - 0x80 == n / 0x100_0000 % 0x100;
    }
  }

  lemma {:induction false} PairLayout(a: bytes, b: bytes, n: bytes, v: bytes, rest: bytes)
    ensures var s, at := a + b + n + v + rest, |a| + |b|;
      && s == a + (b + (n + v + rest)) && s[|a|..] == b + (n + v + rest)
      && s[at..at + |n|] == n && s[at + |n|..at + |n| + |v|] == v
  {
  }

  lemma {:induction false} PairRoundTrip(p: Pair, rest: bytes)
    ensures DecodePair(EncodePair(p) + rest) == Some((p, |EncodePair(p)|))
  {
    var a, b := EncodeLength(|p.name|), EncodeLength(|p.value|);
    PairLayout(a, b, p.name, p.value, rest);
    LengthRoundTrip(|p.name|, b + (p.name + p.value + rest));
    LengthRoundTrip(|p.value|, p.name + p.value + rest);
  }

  lemma {:induction false} PairsRoundTrip(ps: seq<Pair>)
    ensures DecodePairs(EncodePairs(ps)) == Some(ps)
  {
    if ps != [] {
      PairRoundTrip(ps[0], EncodePairs(ps[1..]));
      PairsRoundTrip(ps[1..]);
      assert EncodePairs(ps) == EncodePair(ps[0]) + EncodePairs(ps[1..]);
      assert [ps[0]] + ps[1..] == ps;
      assert EncodePairs(ps)[|EncodePair(ps[0])|..] == EncodePairs(ps[1..]);
    }
  }
}
