/** WebSocket inside HTTP/2 DATA frames: the sender of text, and the parser of the payload
    a client sends through the tunnel. */
module WsTunnel {
  import opened Bytes
  import H2 = Http2Framing
  import opened Options
  import opened Sockets
  import opened WsFrames

  const TEXT := 1
  const WORD := 0x1_0000_0000_0000_0000      // 2^64
  const LARGEST := 0x7fff_ffff_ffff_ffff     // no allocation is larger

  // ----- The sender

  /** An unmasked text frame, in the shortest of the three length forms. */
  function TextFrame(text: bytes): bytes
    requires |text| < WORD
  {
    var n := |text|;
    [0x81] + (if n <= 125 then [n] else if n <= 65535 then [126] + Be16(n) else [127] + Be64(n)) + text
  }

  function TunnelFrame(streamId: nat, text: bytes): bytes
    requires |text| < WORD
  {
    H2.EncodeHead(|TextFrame(text)|, 0, 0, streamId % 0x8000_0000) + TextFrame(text)
  }

  /** A frame on its way out: what has been sent of it is before the offset. */
  class OutgoingFrame {
    const data: bytes
    var offset: nat

    ghost predicate Valid()
      reads this
    {
      offset <= |data|
    }

    constructor (data: bytes)
      ensures Valid() && this.data == data && offset == 0
    {
      this.data := data;
      offset := 0;
    }

    /** 0: all of it is out; -2: call again; -1: the connection failed. */
    method LowLevelSend(sock: Outgoing) returns (status: int)
      requires Valid() && offset < |data|
      modifies this, sock
      ensures Valid() && status in {0, -1, -2}
      ensures sock.wire + data[offset..] == old(sock.wire) + data[old(offset)..]
      ensures status == 0 <==> offset == |data|
      ensures status == -1 ==> offset == old(offset) && sock.failed > old(sock.failed)
      ensures status == -2 ==> sock.short > old(sock.short)
    {
      var rest := data[offset..];
      var n := sock.Write(rest);
      if n <= 0 {
        return if n == AGAIN then -2 else -1;
      }
      assert rest == rest[..n] + data[offset + n..];
      offset := offset + n;
      return if offset < |data| then -2 else 0;
    }
  }

  /** ws_system_send_text_h2: the frame, and its first attempt at the wire. */
  method SendText(sock: Outgoing, streamId: nat, text: bytes) returns (status: int, frame: OutgoingFrame)
    requires |text| < WORD
    modifies sock
    ensures fresh(frame) && frame.Valid() && frame.data == TunnelFrame(streamId, text)
    ensures sock.wire + frame.data[frame.offset..] == old(sock.wire) + frame.data
    ensures status in {0, -1, -2} && (status == 0 <==> frame.offset == |frame.data|)
    ensures (status == -1 ==> sock.failed > old(sock.failed)) && (status == -2 ==> sock.short > old(sock.short))
  {
    var n := |text|;
    var header: bytes;
    if n <= 125 {
      header := [0x81, n];
    } else if n <= 65535 {
      header := [0x81, 126] + Be16(n);
    } else {
      header := [0x81, 127] + Be64(n);
    }
    assert header + text == TextFrame(text);
    var total := |header| + n;
    var sid := streamId % 0x8000_0000;
    var head := [total / 0x1_0000 % 0x100, total / 0x100 % 0x100, total % 0x100, 0, 0]
      + [sid / 0x100_0000 % 0x100, sid / 0x1_0000 % 0x100, sid / 0x100 % 0x100, sid % 0x100];
    assert head == H2.EncodeHead(total, 0, 0, sid);
    frame := new OutgoingFrame(head + (header + text));
    assert frame.data[0..] == frame.data;
    status := frame.LowLevelSend(sock);
  }

  // ----- The parser

  /** How many bytes come before the payload, mask included, and how many are announced. */
  datatype Layout = Layout(offset: nat, length: nat, masked: bool)

  lemma {:induction false} LengthFits(h: Head, ext: bytes)
    requires |ext| == Extension(h) && h.length < 128
    ensures Length(h, ext) < WORD
  {
  }

  function LayoutOf(p: bytes): (r: Option<Layout>)
    ensures r.Some? ==> 2 <= r.value.offset <= |p| && r.value.length < WORD && (r.value.masked ==> r.value.offset >= 6)
  {
    if |p| < 2 then None
    else
      var h := HeadOf(p[0], p[1]);
      var at := 2 + Extension(h);
      var end := at + (if h.masked then 4 else 0);
      if |p| < end then None
      else
        LengthFits(h, p[2..at]);
        Some(Layout(end, Length(h, p[2..at]), h.masked))
  }

  function Clear(p: bytes, l: Layout): bytes
    requires l.offset + l.length <= |p| && (l.masked ==> l.offset >= 4)
  {
    var raw := p[l.offset..l.offset + l.length];
    if l.masked then Mask(raw, p[l.offset - 4..l.offset]) else raw
  }

  /** The text a DATA payload hands over. The announced length is checked in 64 bits, where
      the sum may wrap; a length that large cannot be allocated. */
  function Tunnelled(p: bytes): Option<bytes> {
    match LayoutOf(p)
    case None => None
    case Some(l) =>
      if (l.offset + l.length) % WORD > |p| || l.length >= LARGEST then None
      else if l.offset + l.length > |p| || p[0] % 16 != TEXT then None
      else Some(Clear(p, l))
  }

  /** When the announced payload is inside, it is what is handed over. */
  lemma {:induction false} TunnelledInside(p: bytes, l: Layout)
    requires LayoutOf(p) == Some(l) && l.offset + l.length <= |p| < 0x100_0000 && p[0] % 16 == TEXT
    ensures Tunnelled(p) == Some(Clear(p, l))
  {
    assert (l.offset + l.length) % WORD == l.offset + l.length;
  }

  /** For every payload a frame can carry, what passes the checks lies inside it: the wrap of
      the sum lets nothing through that the allocation does not stop. */
  lemma {:induction false} ChecksKeepInside(p: bytes, l: Layout)
    requires |p| < 0x100_0000 && LayoutOf(p) == Some(l)
    ensures (l.offset + l.length) % WORD <= |p| && l.length < LARGEST <==> l.offset + l.length <= |p|
  {
    assert l.offset <= 14;
    if l.length < LARGEST {
      assert (l.offset + l.length) % WORD == l.offset + l.length;
    }
  }

  method UnmaskInPlace(clear: array<byte>, raw: bytes, key: bytes)
    requires |key| == 4 && clear.Length == |raw| + 1 && forall i :: 0 <= i < |raw| ==> clear[i] == raw[i]
    modifies clear
    ensures clear[..|raw|] == Mask(raw, key)
  {
    for i := 0 to |raw|
      invariant forall k :: 0 <= k < i ==> clear[k] == Xor(raw[k], key[k % 4])
      invariant forall k :: i <= k < |raw| ==> clear[k] == raw[k]
    {
      clear[i] := Xor(clear[i], key[i % 4]);
    }
  }

  /** handle_websocket_data_payload, as far as the text it hands over. */
  method HandlePayload(p: bytes) returns (text: Option<bytes>)
    requires |p| < 0x100_0000
    ensures text == Tunnelled(p)
  {
    if |p| < 2 {
      return None;
    }
    var opcode: nat := p[0] % 16;
    var masked := p[1] >= 128;
    var length: nat := p[1] % 128;
    var offset := 2;
    if length == 126 {
      if |p| < 4 {
        return None;
      }
      length := U16(p[2..4]);
      offset := 4;
    } else if length == 127 {
      if |p| < 10 {
        return None;
      }
      length := U64(p[2..10]);
      offset := 10;
    }
    var key: bytes := [0, 0, 0, 0];
    if masked {
      if |p| < offset + 4 {
        return None;
      }
      key := p[offset..offset + 4];
      offset := offset + 4;
    }
    assert LayoutOf(p) == Some(Layout(offset, length, masked));
    if (offset + length) % WORD > |p| || length == WORD - 1 || length >= LARGEST {
      return None;
    }
    ChecksKeepInside(p, Layout(offset, length, masked));
    var raw := p[offset..offset + length];
    var clear := new byte[length + 1](_ => 0);
    forall i | 0 <= i < length {
      clear[i] := raw[i];
    }
    if masked {
      UnmaskInPlace(clear, raw, key);
    } else {
      assert clear[..length] == raw;
    }
    if opcode == TEXT {
      return Some(clear[..length]);
    }
    return None;
  }

  // ----- Round trips

  lemma {:induction false} TextLayout(text: bytes)
    requires |text| < 0x100_0000
    ensures var p := TextFrame(text);
      LayoutOf(p) == Some(Layout(|p| - |text|, |text|, false)) && p[|p| - |text|..] == text && p[0] % 16 == TEXT
  {
    var p, n := TextFrame(text), |text|;
    if n <= 125 {
      assert p[2..2] == [];
    } else if n <= 65535 {
      assert p[2..4] == Be16(n);
      Be16RoundTrip(n);
    } else {
      assert p[2..10] == Be64(n);
      Be64RoundTrip(n);
    }
  }

  /** Sent, taken apart by the HTTP/2 header parser and then by the tunnel parser, every
      text comes back, in all three length forms. */
  lemma {:induction false} TextRoundTrip(streamId: nat, text: bytes)
    requires |text| < 0x100_0000 && |TextFrame(text)| < 0x100_0000
    ensures var f := TunnelFrame(streamId, text);
      && |f| >= 9
      && H2.ParseHead(f[..9]) == H2.FrameHead(|f| - 9, 0, 0, streamId % 0x8000_0000)
      && Tunnelled(f[9..]) == Some(text)
  {
    var p := TextFrame(text);
    var head := H2.EncodeHead(|p|, 0, 0, streamId % 0x8000_0000);
    H2.HeadRoundTrip(|p|, 0, 0, streamId % 0x8000_0000);
    assert (head + p)[..9] == head && (head + p)[9..] == p;
    TextLayout(text);
    TunnelledInside(p, Layout(|p| - |text|, |text|, false));
    assert p[|p| - |text|..|p|] == p[|p| - |text|..];
  }

  /** The tunnel parser undoes the mask of any client frame, whatever the key and whichever
      of the length forms is used, and takes no notice of what follows the frame. */
  lemma {:induction false} MaskedRoundTrip(f: Frame, rest: bytes)
    requires Proper(f) && f.message.opcode == TEXT && |Encode(f) + rest| < 0x100_0000
    ensures Tunnelled(Encode(f) + rest) == Some(f.message.payload)
  {
    var n, at := |f.message.payload|, 2 + f.form;
    var masked := Mask(f.message.payload, f.key);
    var p := Encode(f) + rest;
    hide Mask;
    EncodedParts(f, rest);
    HeadRoundTrip(f, f.key + masked + rest);
    assert p[at..at + 4] == f.key && p[at + 4..at + 4 + n] == masked;
    assert LayoutOf(p) == Some(Layout(at + 4, n, true));
    assert p[0] % 16 == TEXT;
    TunnelledInside(p, Layout(at + 4, n, true));
    MaskTwice(f.message.payload, f.key);
  }
}
