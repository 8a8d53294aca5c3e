/** The chunked transfer coding (section 4.1 of RFC 7230): the encoder the relay uses and
    an independent decoder. */
module Chunked {
  import opened Bytes
  import opened Options

  const CRLF: bytes := [13, 10]
  const LAST_CHUNK: bytes := [48, 13, 10, 13, 10]

  function HexDigit(d: nat): byte
    requires d < 16
  {
    if d < 10 then 48 + d else 55 + d
  }

  /** %X: upper-case hexadecimal without leading zeros. */
  function Hex(n: nat): bytes {
    if n < 16 then [HexDigit(n)] else Hex(n / 16) + [HexDigit(n % 16)]
  }

  function Chunk(data: bytes): bytes {
    Hex(|data|) + CRLF + data + CRLF
  }

  // ----- The decoder

  function HexValue(b: byte): Option<nat> {
    if 48 <= b <= 57 then Some(b - 48)
    else if 65 <= b <= 70 then Some(b - 55)
    else if 97 <= b <= 102 then Some(b - 87)
    else None
  }

  /** The number the leading hexadecimal digits spell, and how many there are. */
  function HexPrefix(s: bytes, value: nat): (r: (nat, nat))
    ensures r.1 <= |s|
  {
    if s == [] || HexValue(s[0]).None? then (value, 0)
    else
      var (v, n) := HexPrefix(s[1..], value * 16 + HexValue(s[0]).value);
      (v, n + 1)
  }

  /** The body of a chunked message without trailers, and what follows it. */
  function Dechunk(s: bytes): Option<(bytes, bytes)>
    decreases |s|
  {
    var (size, n) := HexPrefix(s, 0);
    if n == 0 || |s| < n + 2 || s[n..n + 2] != CRLF then None
    else
      var t := s[n + 2..];
      if |t| < size + 2 || t[size..size + 2] != CRLF then None
      else if size == 0 then Some(([], t[2..]))
      else
        match Dechunk(t[size + 2..])
        case None => None
        case Some((body, after)) => Some((t[..size] + body, after))
  }

  // ----- Decoding inverts encoding

  /** 16 to the number of hexadecimal digits of n. */
  function Pow16(n: nat): nat {
    if n < 16 then 16 else 16 * Pow16(n / 16)
  }

  lemma {:induction false} DigitStep(value: nat, q: nat, n: nat)
    ensures (value * q + n / 16) * 16 + n % 16 == value * (16 * q) + n
  {
    assert value * q * 16 == value * (16 * q);
  }

  lemma {:induction false} HexPrefixTakesDigit(d: nat, after: bytes, value: nat)
    requires d < 16
    ensures HexPrefix([HexDigit(d)] + after, value) ==
      (HexPrefix(after, value * 16 + d).0, HexPrefix(after, value * 16 + d).1 + 1)
  {
    assert ([HexDigit(d)] + after)[1..] == after;
  }

  /** Digits after digits: `n` is appended to the value so far. */
  lemma {:induction false} HexDigitsFold(n: nat, after: bytes, value: nat)
    ensures HexPrefix(Hex(n) + after, value) ==
      (HexPrefix(after, value * Pow16(n) + n).0, HexPrefix(after, value * Pow16(n) + n).1 + |Hex(n)|)
  {
    hide HexPrefix;
    if n < 16 {
      HexPrefixTakesDigit(n, after, value);
    } else {
      var rest := [HexDigit(n % 16)] + after;
      assert Hex(n) + after == Hex(n / 16) + rest;
      HexDigitsFold(n / 16, rest, value);
      HexPrefixTakesDigit(n % 16, after, value * Pow16(n / 16) + n / 16);
      DigitStep(value, Pow16(n / 16), n);
    }
  }

  lemma {:induction false} HexPrefixInvertsHex(n: nat, after: bytes)
    requires after == [] || HexValue(after[0]).None?
    ensures HexPrefix(Hex(n) + after, 0) == (n, |Hex(n)|)
  {
    HexDigitsFold(n, after, 0);
  }

  lemma {:induction false} Split(a: bytes, b: bytes, c: bytes)
    ensures var s := a + (b + c);
      s[..|a|] == a && s[|a|..|a| + |b|] == b && s[|a| + |b|..] == c
  {
  }

  lemma {:induction false} HexIsNotEmpty(n: nat)
    ensures |Hex(n)| > 0
  {
  }

  /** One chunk, its parts known. */
  lemma {:induction false} DechunkStep(s: bytes, n: nat, t: bytes, data: bytes, rest: bytes)
    requires HexPrefix(s, 0) == (|data|, n) && 0 < n && n + 2 <= |s| && s[n..n + 2] == CRLF && s[n + 2..] == t
    requires data != [] && |data| + 2 <= |t| && t[..|data|] == data && t[|data|..|data| + 2] == CRLF && t[|data| + 2..] == rest
    requires Dechunk(rest).Some?
    ensures Dechunk(s) == Some((data + Dechunk(rest).value.0, Dechunk(rest).value.1))
  {
    hide HexPrefix;
  }

  /** A non-empty chunk in front adds its data to the front of the body. */
  lemma {:induction false} DechunkChunk(data: bytes, rest: bytes)
    requires data != [] && Dechunk(rest).Some?
    ensures Dechunk(Chunk(data) + rest) == Some((data + Dechunk(rest).value.0, Dechunk(rest).value.1))
  {
    hide HexPrefix, Hex, Dechunk;
    var s := Chunk(data) + rest;
    var h := Hex(|data|);
    var t := data + (CRLF + rest);
    HexIsNotEmpty(|data|);
    HexPrefixInvertsHex(|data|, CRLF + t);
    assert s == h + (CRLF + t);
    Split(h, CRLF, t);
    Split(data, CRLF, rest);
    DechunkStep(s, |h|, t, data, rest);
  }

  lemma {:induction false} DechunkLast(after: bytes)
    ensures Dechunk(LAST_CHUNK + after) == Some(([], after))
  {
    var s := LAST_CHUNK + after;
    assert s[1..][0] == 13 && HexPrefix(s[1..], 0) == (0, 0);
    assert s[0] == 48 && HexPrefix(s, 0) == (0, 1);
    assert s[1..3] == CRLF && s[3..][..2] == CRLF && s[3..][2..] == after;
  }
}
