/** Bytes and the network byte order the protocols share. */
module Bytes {

  type byte = x: int | 0 <= x < 256

  type bytes = seq<byte>

  lemma {:induction false} ConcatAssociates(a: bytes, b: bytes, c: bytes)
    ensures a + (b + c) == (a + b) + c
  {
  }

  function Be16(n: nat): bytes {
    [n / 0x100 % 0x100, n % 0x100]
  }

  function Be24(n: nat): bytes {
    [n / 0x1_0000 % 0x100, n / 0x100 % 0x100, n % 0x100]
  }

  function Be32(n: nat): bytes {
    [n / 0x100_0000 % 0x100, n / 0x1_0000 % 0x100, n / 0x100 % 0x100, n % 0x100]
  }

  function Be64(n: nat): bytes {
    Be32(n / 0x1_0000_0000) + Be32(n % 0x1_0000_0000)
  }

  function U16(s: bytes): nat
    requires |s| == 2
  {
    (s[0] as int) * 0x100 + s[1] as int
  }

  function U24(s: bytes): nat
    requires |s| == 3
  {
    (s[0] as int) * 0x1_0000 + (s[1] as int) * 0x100 + s[2] as int
  }

  function U32(s: bytes): nat
    requires |s| == 4
  {
    (s[0] as int) * 0x100_0000 + (s[1] as int) * 0x1_0000 + (s[2] as int) * 0x100 + s[3] as int
  }

  function U64(s: bytes): nat
    requires |s| == 8
  {
    U32(s[..4]) * 0x1_0000_0000 + U32(s[4..])
  }

  lemma {:induction false} Be16RoundTrip(n: nat)
    requires n < 0x1_0000
    ensures U16(Be16(n)) == n
  {
  }

  lemma {:induction false} Be24RoundTrip(n: nat)
    requires n < 0x100_0000
    ensures U24(Be24(n)) == n
  {
    assert n / 0x1_0000 == n / 0x100 / 0x100;
  }

  lemma {:induction false} Be32RoundTrip(n: nat)
    requires n < 0x1_0000_0000
    ensures U32(Be32(n)) == n
  {
    assert n / 0x1_0000 == n / 0x100 / 0x100;
    assert n / 0x100_0000 == n / 0x1_0000 / 0x100;
  }

  lemma {:induction false} Be64RoundTrip(n: nat)
    requires n < 0x1_0000_0000_0000_0000
    ensures U64(Be64(n)) == n
  {
    var hi, lo := n / 0x1_0000_0000, n % 0x1_0000_0000;
    Be32RoundTrip(hi);
    Be32RoundTrip(lo);
    assert Be64(n)[..4] == Be32(hi) && Be64(n)[4..] == Be32(lo);
  }

  /** Bitwise exclusive or of the low `bits` bits. */
  function XorBits(a: nat, b: nat, bits: nat): nat {
    if bits == 0 then 0 else (if a % 2 == b % 2 then 0 else 1) + 2 * XorBits(a / 2, b / 2, bits - 1)
  }

  function Pow2(bits: nat): nat {
    if bits == 0 then 1 else 2 * Pow2(bits - 1)
  }

  lemma {:induction false} XorBitsTwice(a: nat, b: nat, bits: nat)
    requires a < Pow2(bits)
    ensures XorBits(XorBits(a, b, bits), b, bits) == a && XorBits(a, b, bits) < Pow2(bits)
  {
    if bits > 0 {
      XorBitsTwice(a / 2, b / 2, bits - 1);
      var x, rest := XorBits(a, b, bits), XorBits(a / 2, b / 2, bits - 1);
      assert x / 2 == rest && x % 2 == if a % 2 == b % 2 then 0 else 1;
      assert XorBits(x, b, bits) == (if x % 2 == b % 2 then 0 else 1) + 2 * (a / 2);
    }
  }

  lemma {:induction false} XorBitsFits(a: nat, b: nat, bits: nat)
    ensures XorBits(a, b, bits) < Pow2(bits)
  {
    if bits > 0 {
      XorBitsFits(a / 2, b / 2, bits - 1);
    }
  }

  function Xor(a: byte, b: byte): byte {
    XorBitsFits(a, b, 8);
    assert Pow2(8) == 256;
    XorBits(a, b, 8)
  }

  lemma {:induction false} XorTwice(a: byte, b: byte)
    ensures Xor(Xor(a, b), b) == a
  {
    assert Pow2(8) == 256;
    XorBitsTwice(a, b, 8);
  }
}
