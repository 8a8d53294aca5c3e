/** Non-blocking sockets: any amount may be taken or refused at any call. Callers are
    proved for every schedule these methods allow. The ghost counters record what a caller
    may blame the socket for: calls that did less than was asked, and calls that failed. */
module Sockets {
  import opened Bytes

  const AGAIN: int := -1   // EAGAIN, EWOULDBLOCK, WANT_READ, WANT_WRITE
  const FAILED: int := -2  // any other error

  function One(b: bool): nat {
    if b then 1 else 0
  }

  class Outgoing {
    var wire: bytes          // what the peer has been given so far
    ghost var short: nat     // writes that took only part of the data, or nothing, or AGAIN
    ghost var failed: nat    // writes that failed, or took nothing

    constructor ()
      ensures wire == [] && short == failed == 0
    {
      wire := [];
      short, failed := 0, 0;
    }

    method Write(data: bytes) returns (n: int)
      modifies this
      ensures FAILED <= n <= |data|
      ensures wire == old(wire) + (if n > 0 then data[..n] else [])
      ensures short == old(short) + One(n == AGAIN || 0 <= n < |data|)
      ensures failed == old(failed) + One(n == FAILED || (n == 0 && data != []))
    {
      n :| FAILED <= n <= |data|;
      if n > 0 {
        wire := wire + data[..n];
      }
      short := short + One(n == AGAIN || 0 <= n < |data|);
      failed := failed + One(n == FAILED || (n == 0 && data != []));
    }
  }

  class Incoming {
    const stream: bytes      // everything the peer ever sends
    var pos: nat             // how much of it has been read
    ghost var short: nat     // reads that gave only part of what was asked for, or AGAIN
    ghost var failed: nat    // reads that failed, or found the end of the stream

    ghost predicate Valid()
      reads this
    {
      pos <= |stream|
    }

    constructor (stream: bytes)
      ensures Valid() && this.stream == stream && pos == 0 && short == failed == 0
    {
      this.stream := stream;
      pos := 0;
      short, failed := 0, 0;
    }

    /** Reads up to `max` bytes to `buf[at..]`; 0 is the end of the stream. */
    method Read(buf: array<byte>, at: nat, max: nat) returns (n: int)
      requires Valid() && at + max <= buf.Length && max > 0
      modifies this, buf
      ensures Valid() && FAILED <= n <= max
      ensures n <= 0 ==> pos == old(pos) && buf[..] == old(buf[..])
      ensures n == 0 ==> pos == |stream|
      ensures n > 0 ==> pos == old(pos) + n
      ensures n > 0 ==> buf[..] == old(buf[..at]) + stream[old(pos)..pos] + old(buf[at + n..])
      ensures short == old(short) + One(n == AGAIN || 0 < n < max)
      ensures failed == old(failed) + One(n == FAILED || n == 0)
    {
      var left := |stream| - pos;
      n :| FAILED <= n <= max && n <= left && (n == 0 ==> left == 0);
      if n > 0 {
        forall i | 0 <= i < n {
          buf[at + i] := stream[pos + i];
        }
        pos := pos + n;
      }
      short := short + One(n == AGAIN || 0 < n < max);
      failed := failed + One(n == FAILED || n == 0);
    }
  }
}
