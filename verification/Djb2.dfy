/** The string hash of the rate limiter and the registry: djb2 over signed characters, in
    64 bits. */
module Djb2 {
  import opened Bytes

  function Signed(b: byte): int {
    if b < 128 then b else b - 256
  }

  function Hash64(s: bytes, hash: nat): nat {
    if s == [] then hash
    else Hash64(s[1..], (hash * 33 + Signed(s[0])) % 0x1_0000_0000_0000_0000)
  }

  /** The hash of a string into a table of that size. */
  function Slot(s: bytes, size: nat): (i: nat)
    requires size > 0
    ensures i < size
  {
    Hash64(s, 5381) % size
  }
}
