/** The bytes on the wire as their standards number them: HTTP/2 frame heads (section 4.1 of
    RFC 7540), FastCGI records (section 3.3 of the FastCGI Specification), and WebSocket
    frames (section 5.2 of RFC 6455). */
module WireLayouts {
  import opened Bytes
  import FastCgiRecords
  import Http2Framing
  import WsFrames
  import WsTunnel

  lemma {:induction false} Be16Places(n: nat)
    requires n < 0x1_0000
    ensures |Be16(n)| == 2 && 256 * (Be16(n)[0] as int) + Be16(n)[1] == n
  {
    Be16RoundTrip(n);
  }

  lemma {:induction false} Be24Places(n: nat)
    requires n < 0x100_0000
    ensures |Be24(n)| == 3 && 65536 * (Be24(n)[0] as int) + 256 * (Be24(n)[1] as int) + Be24(n)[2] == n
  {
    Be24RoundTrip(n);
  }

  lemma {:induction false} Be32Places(n: nat)
    requires n < 0x1_0000_0000
    ensures |Be32(n)| == 4 && 16777216 * (Be32(n)[0] as int) + 65536 * (Be32(n)[1] as int) + 256 * (Be32(n)[2] as int) + Be32(n)[3] == n
  {
    Be32RoundTrip(n);
  }

  /** Three bytes of length, the kind, the flags, and four bytes of stream identifier with the
      top bit clear, each most significant byte first. */
  lemma {:induction false} FrameLayout(f: Http2Framing.Frame)
    requires |f.payload| < 0x100_0000
    ensures var e := Http2Framing.Encode(f);
      && |e| == 9 + |f.payload| && 65536 * (e[0] as int) + 256 * (e[1] as int) + e[2] == |f.payload|
      && e[3] == f.kind && e[4] == f.flags
      && e[5] < 128 && 16777216 * (e[5] as int) + 65536 * (e[6] as int) + 256 * (e[7] as int) + e[8] == f.streamId && e[9..] == f.payload
  {
    Be24Places(|f.payload|);
    Be32Places(f.streamId);
  }

  /** Version 1, the kind, two bytes of request identifier, two of content length, one of
      padding length, a reserved zero, the content, the padding. */
  lemma {:induction false} RecordLayout(r: FastCgiRecords.Rec)
    requires FastCgiRecords.Fits(r)
    ensures var e, n := FastCgiRecords.Encode(r), |r.content|;
      && |e| == 8 + n + |r.padding| && e[0] == 1 && e[1] == r.kind && 256 * (e[2] as int) + e[3] == r.requestId
      && 256 * (e[4] as int) + e[5] == n && e[6] == |r.padding| && e[7] == 0
      && e[8..8 + n] == r.content && e[8 + n..] == r.padding
      && (r.kind == FastCgiRecords.END_REQUEST <==> e[1] == 3) && (r.kind == FastCgiRecords.PARAMS <==> e[1] == 4)
      && (r.kind == FastCgiRecords.STDIN <==> e[1] == 5) && (r.kind == FastCgiRecords.STDOUT <==> e[1] == 6)
      && (r.kind == FastCgiRecords.STDERR <==> e[1] == 7)
  {
    Be16Places(r.requestId);
    Be16Places(|r.content|);
  }

  // ----- WebSocket

  function Bit(n: nat, k: nat): bool {
    if k == 0 then n % 2 == 1 else Bit(n / 2, k - 1)
  }

  lemma {:induction false} XorBitsAreBitwise(a: nat, b: nat, bits: nat, k: nat)
    requires k < bits
    ensures Bit(XorBits(a, b, bits), k) <==> Bit(a, k) != Bit(b, k)
  {
    var rest := XorBits(a / 2, b / 2, bits - 1);
    assert XorBits(a, b, bits) / 2 == rest;
    if k > 0 {
      XorBitsAreBitwise(a / 2, b / 2, bits - 1, k - 1);
    }
  }

  /** Each of the eight bits is set exactly if it is in one operand alone. */
  lemma {:induction false} XorIsBitwise(a: byte, b: byte, k: nat)
    requires k < 8
    ensures Bit(Xor(a, b), k) <==> Bit(a, k) != Bit(b, k)
  {
    XorBitsAreBitwise(a, b, 8, k);
  }

  /** A frame read has the opcode of its first four low bits, and its payload is what follows
      the key, byte by byte against the key in turn. */
  lemma {:induction false} FrameIsUnmasked(s: bytes)
    requires WsFrames.Parse(s).Done?
    ensures var at, m := (if s[1] % 128 == 126 then 4 else if s[1] % 128 == 127 then 10 else 2), WsFrames.Parse(s).message;
      && m.opcode == s[0] % 16 && WsFrames.Parse(s).size == at + 4 + |m.payload| <= |s|
      && |m.payload| == (if at == 4 then U16(s[2..4]) else if at == 10 then U64(s[2..10]) else s[1] % 128)
      && forall i :: 0 <= i < |m.payload| ==> m.payload[i] == Xor(s[at + 4 + i], s[at + i % 4])
  {
  }

  /** The shortest of the three length forms is sent, without a mask. */
  lemma {:induction false} TextFrameLayout(text: bytes)
    requires |text| < 0x1_0000_0000_0000_0000
    ensures var e, n := WsTunnel.TextFrame(text), |text|;
      && |e| >= 2 && e[0] == 0x81
      && if n <= 125 then e[1] == n && e[2..] == text
         else if n < 65536 then e[1] == 126 && |e| >= 4 && U16(e[2..4]) == n && e[4..] == text
         else e[1] == 127 && |e| >= 10 && U64(e[2..10]) == n && e[10..] == text
  {
    var e, n := WsTunnel.TextFrame(text), |text|;
    if 125 < n < 65536 {
      assert e[2..4] == Be16(n);
      Be16RoundTrip(n);
    } else if n >= 65536 {
      assert e[2..10] == Be64(n);
      Be64RoundTrip(n);
    }
  }
}
