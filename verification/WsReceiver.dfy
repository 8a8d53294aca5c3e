/** The resumable WebSocket receiver: one frame, however the socket cuts it up. */
module WsReceiver {
  import opened Bytes
  import opened Resources
  import opened Sockets
  import opened WsFrames

  datatype Phase = AtHeader | AtLength | AtMask | AtPayload | Complete

  /** Why a connection is dropped. */
  datatype Cause = ByFrame | BySocket | ByMemory

  datatype Step = GoOn | Again | Fatal(cause: Cause)

  lemma {:induction false} Absorb(body: bytes, messages: seq<Message>, held: bytes, got: bytes)
    requires ParseAll(body) == Then(messages, ParseAll(held)) && Parse(held).More?
    ensures ParseAll(body + got) == Then(messages, ParseAll(held + got))
  {
    ParseAllResumes(body, got);
    assert messages + [] == messages;
  }

  /** The header and the length are in. */
  ghost predicate Sized(header: bytes, ext: bytes, head: Head, length: nat) {
    && |header| == 2 && head == HeadOf(header[0], header[1]) && Acceptable(head)
    && |ext| == Extension(head) && length == Length(head, ext)
    && (Extension(head) > 0 ==> length <= MAX_PAYLOAD)
  }

  /** What the buffers of each phase hold, and how full they are. */
  ghost predicate Shape(phase: Phase, header: bytes, ext: bytes, key: bytes, read: nat, head: Head, length: nat) {
    match phase
    case AtHeader => |header| < 2 && ext == [] && key == [] && read == 0
    case AtLength =>
      && |header| == 2 && head == HeadOf(header[0], header[1]) && Acceptable(head)
      && |ext| < Extension(head) && key == [] && read == 0
    case AtMask => Sized(header, ext, head, length) && |key| < 4 && read == 0
    case AtPayload => Sized(header, ext, head, length) && |key| == 4 && read < length
    case Complete => Sized(header, ext, head, length) && |key| == 4 && read == length
  }

  /** Until a frame is complete, the bytes of it that are in say nothing yet. */
  lemma {:induction false} IncompleteIsMore(phase: Phase, header: bytes, ext: bytes, key: bytes, payload: bytes, head: Head, length: nat)
    requires Shape(phase, header, ext, key, |payload|, head, length) && phase != Complete
    ensures Parse(header + ext + key + payload).More?
  {
    var s := header + ext + key + payload;
    if phase != AtHeader {
      assert s[0] == header[0] && s[1] == header[1];
      if phase != AtLength {
        assert s[2..2 + |ext|] == ext;
      }
    }
  }

  lemma {:induction false} CompleteIsDone(header: bytes, ext: bytes, key: bytes, payload: bytes, head: Head, length: nat)
    requires Shape(Complete, header, ext, key, |payload|, head, length)
    ensures var s := header + ext + key + payload;
      Parse(s) == Done(Message(head.opcode, Mask(payload, key)), |s|)
  {
    var s := header + ext + key + payload;
    var at := 2 + |ext|;
    assert s[0] == header[0] && s[1] == header[1] && s[2..at] == ext;
    assert s[at..at + 4] == key && s[at + 4..at + 4 + length] == payload;
  }

  datatype Result = OK(message: Message) | TryAgain | Dropped(cause: Cause)

  lemma {:induction false} LastMessage(body: bytes, messages: seq<Message>, held: bytes, m: Message)
    requires ParseAll(body) == Then(messages, ParseAll(held)) && Parse(held) == Done(m, |held|)
    ensures ParseAll(body) == Received(messages + [m], [], true)
  {
    assert held[|held|..] == [] && ParseAll([]) == Received([], [], true);
    assert [m] + [] == [m];
  }

  class Receiver {
    const sock: Incoming
    const heap: Memory
    var phase: Phase
    const headerBuf: array<byte>
    var headerRead: nat
    const extBuf: array<byte>
    var extRead: nat
    const maskBuf: array<byte>
    var maskRead: nat
    var head: Head
    var payloadLen: nat
    var payload: array<byte>
    var payloadRead: nat
    ghost var messages: seq<Message>   // what the calls that returned OK have delivered

    ghost predicate Repr()
      reads this, sock
    {
      && sock.Valid() && headerBuf.Length == 2 && extBuf.Length == 8 && maskBuf.Length == 4
      && payload != headerBuf && payload != extBuf && payload != maskBuf
      && headerRead <= 2 && extRead <= 8 && maskRead <= 4 && payloadRead <= payload.Length
    }

    ghost function Body(): bytes
      reads this, sock
      requires sock.Valid()
    {
      sock.stream[..sock.pos]
    }

    /** The bytes of the current frame. */
    ghost function Held(): bytes
      reads this, sock, headerBuf, extBuf, maskBuf, payload
      requires Repr()
    {
      headerBuf[..headerRead] + extBuf[..extRead] + maskBuf[..maskRead] + payload[..payloadRead]
    }

    ghost predicate InShape()
      reads this, sock, headerBuf, extBuf, maskBuf
      requires Repr()
    {
      && Shape(phase, headerBuf[..headerRead], extBuf[..extRead], maskBuf[..maskRead], payloadRead, head, payloadLen)
      && (phase == AtPayload || (phase == Complete && payloadLen > 0) ==> payload.Length == payloadLen + 1)
    }

    ghost predicate Consistent()
      reads this, sock, headerBuf, extBuf, maskBuf, payload
    {
      Repr() && InShape() && ParseAll(Body()) == Then(messages, ParseAll(Held()))
    }

    /** Between calls: everything received is the messages delivered and an unfinished frame. */
    ghost predicate Valid()
      reads this, sock, headerBuf, extBuf, maskBuf, payload
    {
      && Repr() && InShape() && phase != Complete
      && ParseAll(Body()) == Received(messages, Held(), true)
    }

    constructor (sock: Incoming, heap: Memory)
      requires sock.Valid() && sock.pos == 0
      ensures Valid() && messages == [] && this.sock == sock && this.heap == heap && phase == AtHeader && Held() == []
      ensures fresh(headerBuf) && fresh(extBuf) && fresh(maskBuf) && fresh(payload)
    {
      this.sock, this.heap := sock, heap;
      phase, headerRead, extRead, maskRead, payloadRead, payloadLen := AtHeader, 0, 0, 0, 0, 0;
      head := Head(false, 0, false, 0);
      headerBuf := new byte[2](_ => 0);
      extBuf := new byte[8](_ => 0);
      maskBuf := new byte[4](_ => 0);
      payload := new byte[0](_ => 0);
      messages := [];
    }

    lemma StillMore()
      requires Consistent() && phase != Complete
      ensures Valid() && Parse(Held()).More?
    {
      IncompleteIsMore(phase, headerBuf[..headerRead], extBuf[..extRead], maskBuf[..maskRead], payload[..payloadRead], head, payloadLen);
      assert messages + [] == messages;
    }

    method Failure(n: int) returns (t: Step)
      ensures t == if n == AGAIN then Again else Fatal(BySocket)
    {
      t := if n == AGAIN then Again else Fatal(BySocket);
    }

    /** A read that delivered something has moved it from the socket to the frame. */
    twostate predicate Took(n: int)
      reads this, sock, headerBuf, extBuf, maskBuf, payload
    {
      && old(Repr()) && Repr() && FAILED <= n
      && if n > 0 then
           old(sock.pos) <= sock.pos
           && var got := sock.stream[old(sock.pos)..sock.pos];
           Body() == old(Body()) + got && Held() == old(Held()) + got
         else
           Body() == old(Body()) && Held() == old(Held())
    }

    /** What a read that was asked for `max` bytes has counted. */
    twostate predicate Blames(n: int, max: int)
      reads sock
    {
      && sock.short == old(sock.short) + One(n == AGAIN || 0 < n < max)
      && sock.failed == old(sock.failed) + One(n == FAILED || n == 0)
    }

    /** The socket was short of bytes. */
    twostate predicate WasShort()
      reads sock
    {
      sock.short > old(sock.short)
    }

    twostate predicate CountsOn()
      reads sock, heap
    {
      sock.short >= old(sock.short) && sock.failed >= old(sock.failed) && heap.refused >= old(heap.refused)
    }

    twostate predicate Broke(cause: Cause)
      reads sock, heap
    {
      && (cause == BySocket ==> sock.failed > old(sock.failed))
      && (cause == ByMemory ==> heap.refused > old(heap.refused))
    }

    method FillHeader() returns (n: int)
      requires Repr() && headerRead < 2 && extRead == maskRead == payloadRead == 0
      modifies this`headerRead, sock, headerBuf
      ensures Took(n) && headerRead == old(headerRead) + (if n > 0 then n else 0)
      ensures Blames(n, 2 - old(headerRead))
    {
      n := sock.Read(headerBuf, headerRead, 2 - headerRead);
      if n > 0 {
        headerRead := headerRead + n;
      }
      assert headerBuf[..headerRead] == old(headerBuf[..headerRead]) + (if n > 0 then sock.stream[old(sock.pos)..sock.pos] else []);
    }

    method FillLength(expected: nat) returns (n: int)
      requires Repr() && extRead < expected <= 8 && maskRead == payloadRead == 0
      modifies this`extRead, sock, extBuf
      ensures Took(n) && extRead == old(extRead) + (if n > 0 then n else 0) && extRead <= expected
      ensures Blames(n, expected - old(extRead))
    {
      n := sock.Read(extBuf, extRead, expected - extRead);
      if n > 0 {
        extRead := extRead + n;
      }
      assert extBuf[..extRead] == old(extBuf[..extRead]) + (if n > 0 then sock.stream[old(sock.pos)..sock.pos] else []);
    }

    method FillMask() returns (n: int)
      requires Repr() && maskRead < 4 && payloadRead == 0
      modifies this`maskRead, sock, maskBuf
      ensures Took(n) && maskRead == old(maskRead) + (if n > 0 then n else 0)
      ensures Blames(n, 4 - old(maskRead))
    {
      n := sock.Read(maskBuf, maskRead, 4 - maskRead);
      if n > 0 {
        maskRead := maskRead + n;
      }
      assert maskBuf[..maskRead] == old(maskBuf[..maskRead]) + (if n > 0 then sock.stream[old(sock.pos)..sock.pos] else []);
    }

    method FillPayload() returns (n: int)
      requires Repr() && payloadRead < payloadLen < payload.Length
      modifies this`payloadRead, sock, payload
      ensures Took(n) && payloadRead == old(payloadRead) + (if n > 0 then n else 0) && payloadRead <= payloadLen
      ensures Blames(n, payloadLen - old(payloadRead))
    {
      n := sock.Read(payload, payloadRead, payloadLen - payloadRead);
      if n > 0 {
        payloadRead := payloadRead + n;
      }
      assert payload[..payloadRead] == old(payload[..payloadRead]) + (if n > 0 then sock.stream[old(sock.pos)..sock.pos] else []);
    }

    ghost predicate UpToDate()
      reads this, sock, headerBuf, extBuf, maskBuf, payload
    {
      Repr() && ParseAll(Body()) == Then(messages, ParseAll(Held()))
    }

    /** What a read that did not fail leaves. */
    twostate lemma TookKeeps(n: int)
      requires old(Consistent()) && old(phase) != Complete && Took(n) && messages == old(messages)
      ensures UpToDate()
    {
      IncompleteIsMore(old(phase), old(headerBuf[..headerRead]), old(extBuf[..extRead]), old(maskBuf[..maskRead]),
        old(payload[..payloadRead]), old(head), old(payloadLen));
      if n > 0 {
        Absorb(old(Body()), messages, old(Held()), sock.stream[old(sock.pos)..sock.pos]);
      }
    }

    method ReadHeader() returns (t: Step)
      requires Consistent() && phase == AtHeader
      modifies this`headerRead, this`phase, this`head, this`payloadLen, sock, headerBuf
      ensures t.GoOn? || t.Again? ==> Consistent()
      ensures t.Again? ==> phase == AtHeader
      ensures t.GoOn? ==> phase == AtLength || phase == AtMask
      ensures t == Fatal(ByFrame) ==> sock.Valid() && !ParseAll(Body()).open
      ensures (t.Again? ==> WasShort()) && (t.Fatal? ==> Broke(t.cause)) && CountsOn()
    {
      hide ParseAll, Parse, Then, HeadOf, Extension, Length, Acceptable;
      var n := FillHeader();
      TookKeeps(n);
      if n <= 0 {
        t := Failure(n);
        return;
      }
      if headerRead < 2 {
        return Again;
      }
      t := TakeHeader();
    }

    method TakeHeader() returns (t: Step)
      requires UpToDate() && headerRead == 2 && extRead == maskRead == payloadRead == 0
      modifies this`phase, this`head, this`payloadLen
      ensures t.GoOn? ==> Consistent() && (phase == AtLength || phase == AtMask)
      ensures !t.GoOn? ==> t == Fatal(ByFrame) && !ParseAll(Body()).open
    {
      head := HeadOf(headerBuf[0], headerBuf[1]);
      payloadLen := head.length;
      ghost var header := headerBuf[..2];
      assert header[0] == headerBuf[0] && header[1] == headerBuf[1];
      assert Held()[0] == header[0] && Held()[1] == header[1];
      if !Acceptable(head) {
        assert Parse(Held()).Bad?;
        return Fatal(ByFrame);
      }
      phase := if Extension(head) > 0 then AtLength else AtMask;
      return GoOn;
    }

    method ReadLength() returns (t: Step)
      requires Consistent() && phase == AtLength
      modifies this`extRead, this`phase, this`payloadLen, sock, extBuf
      ensures t.GoOn? || t.Again? ==> Consistent()
      ensures t.Again? ==> phase == AtLength
      ensures t.GoOn? ==> phase == AtMask
      ensures t == Fatal(ByFrame) ==> sock.Valid() && !ParseAll(Body()).open
      ensures (t.Again? ==> WasShort()) && (t.Fatal? ==> Broke(t.cause)) && CountsOn()
    {
      hide ParseAll, Parse, Then, HeadOf, Length, Acceptable;
      var expected := Extension(head);
      var n := FillLength(expected);
      TookKeeps(n);
      if n <= 0 {
        t := Failure(n);
        return;
      }
      if extRead < expected {
        return Again;
      }
      t := TakeLength();
    }

    method TakeLength() returns (t: Step)
      requires UpToDate() && headerRead == 2 && maskRead == payloadRead == 0
      requires head == HeadOf(headerBuf[0], headerBuf[1]) && Acceptable(head) && extRead == Extension(head) > 0
      modifies this`phase, this`payloadLen
      ensures t.GoOn? ==> Consistent() && phase == AtMask
      ensures !t.GoOn? ==> t == Fatal(ByFrame) && !ParseAll(Body()).open
    {
      ghost var header, s := headerBuf[..2], Held();
      assert header[0] == headerBuf[0] && header[1] == headerBuf[1] && s[0] == header[0] && s[1] == header[1];
      payloadLen := Length(head, extBuf[..extRead]);
      assert s[2..2 + extRead] == extBuf[..extRead];
      if payloadLen > MAX_PAYLOAD {
        assert Parse(s).Bad?;
        return Fatal(ByFrame);
      }
      phase := AtMask;
      return GoOn;
    }

    method ReadMask() returns (t: Step)
      requires Consistent() && phase == AtMask
      modifies this`maskRead, this`phase, this`payload, sock, maskBuf, heap
      ensures t.GoOn? || t.Again? ==> Consistent()
      ensures t.Again? ==> phase == AtMask
      ensures t.GoOn? ==> phase == AtPayload || phase == Complete
      ensures t != Fatal(ByFrame)
      ensures payload == old(payload) || fresh(payload)
      ensures (t.Again? ==> WasShort()) && (t.Fatal? ==> Broke(t.cause)) && CountsOn()
    {
      hide ParseAll, Parse, Then, HeadOf, Extension, Length, Acceptable;
      var n := FillMask();
      TookKeeps(n);
      if n <= 0 {
        t := Failure(n);
        return;
      }
      if maskRead < 4 {
        return Again;
      }
      t := TakeMask();
    }

    method TakeMask() returns (t: Step)
      requires UpToDate() && maskRead == 4 && payloadRead == 0
      requires Sized(headerBuf[..headerRead], extBuf[..extRead], head, payloadLen)
      modifies this`phase, this`payload, heap
      ensures t.GoOn? ==> Consistent() && (phase == AtPayload || phase == Complete)
      ensures !t.GoOn? ==> t == Fatal(ByMemory)
      ensures payload == old(payload) || fresh(payload)
      ensures t.Fatal? ==> heap.refused > old(heap.refused)
      ensures heap.refused >= old(heap.refused)
    {
      hide ParseAll, Parse, Then, HeadOf, Extension, Length, Acceptable;
      if payloadLen == 0 {
        phase := Complete;
        return GoOn;
      }
      var memory := heap.Allocate();
      if !memory {
        return Fatal(ByMemory);
      }
      ghost var before := Held();
      payload := new byte[payloadLen + 1](_ => 0);
      assert payload[..0] == old(payload[..0]);
      assert Held() == before;
      phase := AtPayload;
      return GoOn;
    }

    method ReadPayload() returns (t: Step)
      requires Consistent() && phase == AtPayload
      modifies this`payloadRead, this`phase, sock, payload
      ensures t.GoOn? || t.Again? ==> Consistent()
      ensures t.Again? ==> phase == AtPayload
      ensures t.GoOn? ==> phase == Complete
      ensures t != Fatal(ByFrame)
      ensures (t.Again? ==> WasShort()) && (t.Fatal? ==> Broke(t.cause)) && CountsOn()
    {
      hide ParseAll, Parse, Then, HeadOf, Extension, Length, Acceptable;
      var n := FillPayload();
      TookKeeps(n);
      if n <= 0 {
        t := Failure(n);
        return;
      }
      if payloadRead < payloadLen {
        return Again;
      }
      phase := Complete;
      return GoOn;
    }

    function Rank(p: Phase): nat {
      match p
      case AtHeader => 4
      case AtLength => 3
      case AtMask => 2
      case AtPayload => 1
      case Complete => 0
    }

    method Unmask(n: nat)
      requires payload.Length > n && maskBuf.Length == 4 && payload != maskBuf
      modifies payload
      ensures payload[..n] == Mask(old(payload[..n]), maskBuf[..])
    {
      payload[n] := 0;
      ghost var was := payload[..n];
      for i := 0 to n
        invariant forall k :: 0 <= k < i ==> payload[k] == Xor(was[k], maskBuf[k % 4])
        invariant forall k :: i <= k < n ==> payload[k] == was[k]
      {
        payload[i] := Xor(payload[i], maskBuf[i % 4]);
      }
    }

    /** ws_reset_recv_state: as it was before the first byte. */
    method Reset()
      modifies this`phase, this`headerRead, this`extRead, this`maskRead, this`payloadRead, this`payloadLen, this`head, this`payload
      ensures Initial() && fresh(payload)
    {
      phase, headerRead, extRead, maskRead, payloadRead, payloadLen := AtHeader, 0, 0, 0, 0, 0;
      head := Head(false, 0, false, 0);
      payload := new byte[0](_ => 0);
    }

    ghost predicate Initial()
      reads this, payload
    {
      && phase == AtHeader && headerRead == extRead == maskRead == payloadRead == payloadLen == 0
      && head == Head(false, 0, false, 0) && payload.Length == 0
    }

    /** The frame is whole: unmask it, hand it over, start afresh. */
    method Deliver() returns (m: Message)
      requires Consistent() && phase == Complete
      modifies this, payload
      ensures Valid() && Initial() && messages == old(messages) + [m]
      ensures fresh(payload)
    {
      ghost var held := Held();
      CompleteIsDone(headerBuf[..headerRead], extBuf[..extRead], maskBuf[..maskRead], payload[..payloadRead], head, payloadLen);
      assert payloadLen == 0 ==> Mask(payload[..payloadRead], maskBuf[..]) == [];
      assert maskBuf[..maskRead] == maskBuf[..];
      var data: bytes := [];
      if payloadLen > 0 {
        Unmask(payloadLen);
        data := payload[..payloadLen];
      }
      m := Message(head.opcode, data);
      LastMessage(Body(), messages, held, m);
      messages := messages + [m];
      Reset();
      assert Held() == [];
    }

    /** The body of the loop: the step of the phase. */
    method Advance() returns (t: Step)
      requires Consistent() && phase != Complete
      modifies this, sock, heap, headerBuf, extBuf, maskBuf, payload
      ensures messages == old(messages) && (payload == old(payload) || fresh(payload))
      ensures t.GoOn? || t.Again? ==> Consistent()
      ensures t.Again? ==> phase != Complete
      ensures t.GoOn? ==> Rank(phase) < Rank(old(phase))
      ensures t == Fatal(ByFrame) ==> sock.Valid() && !ParseAll(Body()).open
      ensures (t.Again? ==> WasShort()) && (t.Fatal? ==> Broke(t.cause)) && CountsOn()
    {
      hide ParseAll, Then, Shape, Sized;
      if phase == AtHeader {
        t := ReadHeader();
      } else if phase == AtLength {
        t := ReadLength();
      } else if phase == AtMask {
        t := ReadMask();
      } else {
        t := ReadPayload();
      }
    }

    /** One call, for any readiness of the socket. OK delivers the next message of the
        stream and leaves the receiver as new; AGAIN loses nothing, and comes only after a
        read that gave less than was asked for; the connection is dropped only for a frame
        that a parser of all the bytes refuses too, after a read that failed or found the
        end of the stream, or after memory was refused. */
    method RecvFrame() returns (r: Result)
      requires Valid()
      modifies this, sock, heap, headerBuf, extBuf, maskBuf, payload
      ensures r.OK? ==> Valid() && Initial() && messages == old(messages) + [r.message]
      ensures r.TryAgain? ==> Valid() && messages == old(messages)
      ensures r.TryAgain? ==> sock.short > old(sock.short)
      ensures r == Dropped(ByFrame) ==> sock.Valid() && !ParseAll(Body()).open
      ensures r == Dropped(BySocket) ==> sock.failed > old(sock.failed)
      ensures r == Dropped(ByMemory) ==> heap.refused > old(heap.refused)
      ensures payload == old(payload) || fresh(payload)
    {
      assert messages + [] == messages;
      StartsConsistent();
      while phase != Complete
        invariant Consistent() && messages == old(messages)
        invariant payload == old(payload) || fresh(payload)
        invariant CountsOn()
        decreases Rank(phase)
      {
        var t := Advance();
        if t.Again? {
          StillMore();
          return TryAgain;
        }
        if t.Fatal? {
          return Dropped(t.cause);
        }
      }
      var m := Deliver();
      return OK(m);
    }

    lemma StartsConsistent()
      requires Valid()
      ensures Consistent()
    {
      IncompleteIsMore(phase, headerBuf[..headerRead], extBuf[..extRead], maskBuf[..maskRead], payload[..payloadRead], head, payloadLen);
      assert messages + [] == messages;
    }
  }

  /** A client that sends proper frames is never refused: whatever part of its bytes is in,
      the parser goes on. */
  lemma {:induction false} HonestIsNotRefused(r: Receiver, fs: seq<Frame>)
    requires r.sock.Valid() && forall f :: f in fs ==> Proper(f)
    requires r.sock.stream == EncodeAll(fs)
    ensures ParseAll(r.Body()).open
  {
    var body, more := r.Body(), r.sock.stream[r.sock.pos..];
    assert body + more == EncodeAll(fs);
    ParseAllInvertsEncode(fs);
    ParseAllResumes(body, more);
  }

  /** Against any client: after any calls, the messages delivered are the first of those
      the client has sent, and all of them once every byte has been read. */
  lemma {:induction false} DeliversWhatWasSent(r: Receiver, fs: seq<Frame>)
    requires r.Valid() && forall f :: f in fs ==> Proper(f)
    requires r.sock.stream == EncodeAll(fs)
    ensures r.messages <= Messages(fs)
    ensures r.sock.pos == |r.sock.stream| ==> r.messages == Messages(fs) && r.Held() == []
  {
    var body, more := r.Body(), r.sock.stream[r.sock.pos..];
    assert body + more == EncodeAll(fs);
    ParseAllInvertsEncode(fs);
    ParseAllResumes(body, more);
    if r.sock.pos == |r.sock.stream| {
      assert body == EncodeAll(fs);
    }
  }
}
