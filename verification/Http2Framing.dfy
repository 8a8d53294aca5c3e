/** HTTP/2 frames through partial writes and partial reads: the sender with its write
    backlog, the resumable reader, and the codec between them (section 4.1 of RFC 7540). */
module Http2Framing {
  import opened Bytes
  import opened Resources
  import opened Sockets

  const MAX_FRAME := 16384
  const PREFACE := 24
  const GOAWAY: byte := 7

  type StreamId = x: int | 0 <= x < 0x8000_0000

  datatype Frame = Frame(kind: byte, flags: byte, streamId: StreamId, payload: bytes)

  datatype FrameHead = FrameHead(length: nat, kind: byte, flags: byte, streamId: StreamId)

  // ----- The codec

  function EncodeHead(length: nat, kind: byte, flags: byte, streamId: StreamId): bytes {
    Be24(length) + [kind, flags] + Be32(streamId)
  }

  function Encode(f: Frame): bytes {
    EncodeHead(|f.payload|, f.kind, f.flags, f.streamId) + f.payload
  }

  function EncodeAll(fs: seq<Frame>): bytes {
    if fs == [] then [] else Encode(fs[0]) + EncodeAll(fs[1..])
  }

  /** The reserved top bit of the stream identifier is ignored. */
  function ParseHead(h: bytes): FrameHead
    requires |h| == 9
  {
    FrameHead(U24(h[..3]), h[3], h[4], U32(h[5..]) % 0x8000_0000)
  }

  lemma {:induction false} HeadRoundTrip(length: nat, kind: byte, flags: byte, streamId: StreamId)
    requires length < 0x100_0000
    ensures |EncodeHead(length, kind, flags, streamId)| == 9
    ensures ParseHead(EncodeHead(length, kind, flags, streamId)) == FrameHead(length, kind, flags, streamId)
  {
    var h := EncodeHead(length, kind, flags, streamId);
    assert h[..3] == Be24(length) && h[5..] == Be32(streamId);
    Be24RoundTrip(length);
    Be32RoundTrip(streamId);
  }

  /** What a connection has received: whole frames, the bytes of the next one, and whether
      the session goes on (a GOAWAY or an oversized frame ends it). */
  datatype Received = Received(frames: seq<Frame>, rest: bytes, open: bool)

  datatype Next = Partial | Fatal | Whole(frame: Frame, size: nat)

  /** What the reader makes of the bytes at its cursor. */
  function NextFrame(limit: nat, s: bytes): (r: Next)
    ensures r.Whole? ==> 9 <= r.size <= |s| && |r.frame.payload| == r.size - 9
  {
    if |s| < 9 then Partial
    else
      var head := ParseHead(s[..9]);
      if head.length > limit then Fatal
      else if |s| < 9 + head.length then Partial
      else if head.kind == GOAWAY then Fatal
      else Whole(Frame(head.kind, head.flags, head.streamId, s[9..9 + head.length]), 9 + head.length)
  }

  function Then(frames: seq<Frame>, r: Received): Received {
    r.(frames := frames + r.frames)
  }

  /** A frame ends the session exactly if its announced length is over the limit, or it is a
      whole frame of kind 7; otherwise it is a frame as soon as its bytes are in. */
  lemma {:induction false} NextFrameExactly(limit: nat, s: bytes)
    ensures NextFrame(limit, s).Fatal? <==> (
      && |s| >= 9
      && (U24(s[..3]) > limit || (|s| >= 9 + U24(s[..3]) && s[3] == 7)))
    ensures NextFrame(limit, s).Whole? <==> |s| >= 9 && U24(s[..3]) <= limit && |s| >= 9 + U24(s[..3]) && s[3] != 7
  {
    if |s| >= 9 {
      assert s[..9][..3] == s[..3];
    }
  }

  /** The reader as one pass over everything received. */
  function Deframe(limit: nat, s: bytes): Received
    decreases |s|
  {
    match NextFrame(limit, s)
    case Partial => Received([], s, true)
    case Fatal => Received([], s, false)
    case Whole(f, n) => Then([f], Deframe(limit, s[n..]))
  }

  lemma {:induction false} NextFrameIsStable(limit: nat, s: bytes, more: bytes)
    requires !NextFrame(limit, s).Partial?
    ensures NextFrame(limit, s + more) == NextFrame(limit, s)
  {
    assert (s + more)[..9] == s[..9];
    var n := 9 + ParseHead(s[..9]).length;
    if n <= |s| {
      assert (s + more)[9..n] == s[9..n];
    }
  }

  function Resumed(limit: nat, r: Received, more: bytes): Received {
    if r.open then Then(r.frames, Deframe(limit, r.rest + more)) else r.(rest := r.rest + more)
  }

  lemma {:induction false} ThenResumes(limit: nat, f: Frame, r: Received, more: bytes)
    ensures Then([f], Resumed(limit, r, more)) == Resumed(limit, Then([f], r), more)
  {
    if r.open {
      var later := Deframe(limit, r.rest + more);
      assert [f] + (r.frames + later.frames) == ([f] + r.frames) + later.frames;
    }
  }

  /** Receiving in two parts is receiving at once: only the unfinished frame is carried over. */
  lemma {:induction false} DeframeResumes(limit: nat, s: bytes, more: bytes)
    ensures Deframe(limit, s + more) == Resumed(limit, Deframe(limit, s), more)
    decreases |s|
  {
    match NextFrame(limit, s)
    case Partial =>
      var later := Deframe(limit, s + more);
      assert [] + later.frames == later.frames;
    case Fatal => NextFrameIsStable(limit, s, more);
    case Whole(f, n) =>
      NextFrameIsStable(limit, s, more);
      assert (s + more)[n..] == s[n..] + more;
      DeframeResumes(limit, s[n..], more);
      ThenResumes(limit, f, Deframe(limit, s[n..]), more);
  }

  lemma {:induction false} DeframeStopsOnPartial(limit: nat, frames: seq<Frame>, body: bytes, got: bytes, rest: bytes)
    requires Deframe(limit, body) == Received(frames, rest, true)
    ensures Deframe(limit, body + got) == Then(frames, Deframe(limit, rest + got))
    ensures NextFrame(limit, rest + got).Partial? ==>
      Deframe(limit, body + got) == Received(frames, rest + got, true)
    ensures NextFrame(limit, rest + got).Fatal? ==> !Deframe(limit, body + got).open
    ensures NextFrame(limit, rest + got).Whole? && NextFrame(limit, rest + got).size == |rest + got| ==>
      Deframe(limit, body + got) == Received(frames + [NextFrame(limit, rest + got).frame], [], true)
  {
    DeframeResumes(limit, body, got);
    assert frames + [] == frames;
  }

  ghost predicate Sendable(limit: nat, f: Frame) {
    |f.payload| <= MAX_FRAME && |f.payload| <= limit && f.kind != GOAWAY
  }

  lemma {:induction false} NextFrameInvertsEncode(limit: nat, f: Frame, after: bytes)
    requires Sendable(limit, f)
    ensures NextFrame(limit, Encode(f) + after) == Whole(f, 9 + |f.payload|)
  {
    var s := Encode(f) + after;
    HeadRoundTrip(|f.payload|, f.kind, f.flags, f.streamId);
    assert s[..9] == EncodeHead(|f.payload|, f.kind, f.flags, f.streamId);
    assert s[9..9 + |f.payload|] == f.payload;
  }

  lemma {:induction false} DeframeInvertsEncode(limit: nat, fs: seq<Frame>)
    requires forall f :: f in fs ==> Sendable(limit, f)
    ensures Deframe(limit, EncodeAll(fs)) == Received(fs, [], true)
  {
    if fs != [] {
      NextFrameInvertsEncode(limit, fs[0], EncodeAll(fs[1..]));
      HeadRoundTrip(|fs[0].payload|, fs[0].kind, fs[0].flags, fs[0].streamId);
      assert EncodeAll(fs)[9 + |fs[0].payload|..] == EncodeAll(fs[1..]);
      DeframeInvertsEncode(limit, fs[1..]);
    }
  }

  lemma {:induction false} EncodeAllAppends(fs: seq<Frame>, f: Frame)
    ensures EncodeAll(fs + [f]) == EncodeAll(fs) + Encode(f)
  {
    if fs == [] {
      assert ([f])[1..] == [] && [] + [f] == [f];
      assert Encode(f) + [] == Encode(f);
    } else {
      EncodeAllAppends(fs[1..], f);
      assert (fs + [f])[1..] == fs[1..] + [f];
      assert Encode(fs[0]) + (EncodeAll(fs[1..]) + Encode(f)) == (Encode(fs[0]) + EncodeAll(fs[1..])) + Encode(f);
    }
  }

  /** End to end: a reader that has taken any part of what is on the wire has got a prefix
      of the frames that were sent, and all of them once it has taken everything. */
  lemma {:induction false} FramesArriveInOrder(limit: nat, sent: seq<Frame>, wire: bytes, unsent: bytes, body: bytes)
    requires forall f :: f in sent ==> Sendable(limit, f)
    requires wire + unsent == EncodeAll(sent) && body <= wire
    ensures Deframe(limit, body).open && Deframe(limit, body).frames <= sent
    ensures body == wire && unsent == [] ==> Deframe(limit, body) == Received(sent, [], true)
  {
    DeframeInvertsEncode(limit, sent);
    var more := wire[|body|..] + unsent;
    assert body + more == EncodeAll(sent);
    DeframeResumes(limit, body, more);
    var r := Deframe(limit, body);
    assert r.open;
    assert sent == r.frames + Deframe(limit, r.rest + more).frames;
    if body == wire && unsent == [] {
      assert body == EncodeAll(sent);
    }
  }

  // ----- The sender

  /** What is taken at once and what is kept behind the backlog make up the data. */
  lemma {:induction false} Submits(wire: bytes, unsent: bytes, data: bytes, n: nat)
    requires n <= |data| && (n == 0 || unsent == [])
    ensures (wire + data[..n]) + (unsent + data[n..]) == wire + unsent + data
  {
  }

  class Writer {
    const sock: Outgoing
    const heap: Memory
    var pendingBuf: bytes
    var pendingOffset: nat
    var writeError: bool
    ghost var sent: seq<Frame>     // every frame handed to SendFrame and not dropped by it

    ghost predicate Valid()
      reads this
    {
      pendingOffset <= |pendingBuf|
    }

    /** The wire and the backlog together are the frames sent, in order. */
    ghost predicate InOrder()
      reads this, sock
      requires Valid()
    {
      && (!writeError ==> Submitted() == EncodeAll(sent))
      && (forall f :: f in sent ==> |f.payload| <= MAX_FRAME)
    }

    function Unsent(): bytes
      reads this
      requires Valid()
    {
      pendingBuf[pendingOffset..]
    }

    /** Everything submitted, as long as no write failed. */
    ghost function Submitted(): bytes
      reads this, sock
      requires Valid()
    {
      sock.wire + Unsent()
    }

    constructor (sock: Outgoing, heap: Memory)
      ensures Valid() && this.sock == sock && this.heap == heap && Unsent() == [] && !writeError && sent == []
    {
      this.sock, this.heap := sock, heap;
      pendingBuf, pendingOffset, writeError := [], 0, false;
      sent := [];
    }

    /** A write error is noted only after a write that failed or memory that was refused. */
    twostate predicate ErrorHasCause()
      reads this, sock, heap
    {
      && sock.failed >= old(sock.failed) && heap.refused >= old(heap.refused)
      && (writeError ==> old(writeError) || sock.failed > old(sock.failed) || heap.refused > old(heap.refused))
    }

    method WriteOrBuffer(data: bytes)
      requires Valid()
      modifies this, sock, heap
      ensures Valid() && ErrorHasCause()
      ensures old(Unsent()) == [] && Unsent() != [] ==> sock.short > old(sock.short)
      ensures old(writeError) ==> writeError
      ensures !writeError ==> Submitted() == old(Submitted()) + data
      ensures old(sock.wire) <= sock.wire && sent == old(sent)
    {
      hide InOrder;
      ghost var wire, unsent := sock.wire, Unsent();
      if |data| == 0 {
        return;
      }
      var alreadySent := 0;
      if |pendingBuf| <= pendingOffset {
        var n := sock.Write(data);
        if n == |data| {
          assert data[..n] == data && unsent == [] && wire + [] == wire;
          return;
        }
        if n < 0 {
          if n != AGAIN {
            writeError := true;
            return;
          }
          n := 0;
        }
        alreadySent := n;
      }
      var memory := heap.Allocate();
      if !memory {
        writeError := true;
        return;
      }
      Submits(wire, unsent, data, alreadySent);
      assert sock.wire == wire + data[..alreadySent];
      pendingBuf := pendingBuf[pendingOffset..] + data[alreadySent..];
      pendingOffset := 0;
    }

    /** 0: nothing is left unsent; 1: try again later; -1: close the connection. */
    method FlushPending() returns (status: int)
      requires Valid()
      modifies this, sock
      ensures Valid() && writeError == old(writeError) && sent == old(sent)
      ensures Submitted() == old(Submitted())
      ensures old(sock.wire) <= sock.wire
      ensures status == 0 <==> Unsent() == []
      ensures -1 <= status <= 1
      ensures status == 1 ==> sock.short > old(sock.short)
      ensures status == -1 ==> sock.failed > old(sock.failed)
    {
      if |pendingBuf| <= pendingOffset {
        return 0;
      }
      var rest := pendingBuf[pendingOffset..];
      var n := sock.Write(rest);
      if n > 0 {
        pendingOffset := pendingOffset + n;
        assert rest == rest[..n] + pendingBuf[pendingOffset..];
        if pendingOffset >= |pendingBuf| {
          pendingBuf, pendingOffset := [], 0;
          return 0;
        }
        return 1;
      }
      if n < 0 && n != AGAIN {
        return -1;
      }
      return 1;
    }

    /** Frames over 16384 bytes are dropped. */
    method SendFrame(kind: byte, flags: byte, streamId: nat, payload: bytes)
      requires Valid() && InOrder()
      modifies this, sock, heap
      ensures Valid() && InOrder() && ErrorHasCause()
      ensures old(writeError) ==> writeError
      ensures sent == old(sent) +
        (if |payload| > MAX_FRAME then [] else [Frame(kind, flags, streamId % 0x8000_0000, payload)])
      ensures old(sock.wire) <= sock.wire
    {
      if |payload| > MAX_FRAME {
        return;
      }
      var len := |payload|;
      var sid := streamId % 0x8000_0000;
      var total := [len / 0x1_0000 % 0x100, len / 0x100 % 0x100, len % 0x100, kind, flags]
        + [sid / 0x100_0000 % 0x100, sid / 0x1_0000 % 0x100, sid / 0x100 % 0x100, sid % 0x100] + payload;
      ghost var f := Frame(kind, flags, sid, payload);
      assert total == Encode(f);
      WriteOrBuffer(total);
      EncodeAllAppends(sent, f);
      sent := sent + [f];
    }
  }

  // ----- The reader

  /** How one turn of the session loop ends: go round again, hand the connection back to
      epoll with a status, or close it (because of what was received, or of the socket). */
  datatype Turn = GoOn | Rearm(status: int) | CloseOnFrame | CloseOnSocket

  class Reader {
    const sock: Incoming
    const limit: nat               // largest payload accepted
    var prefaceRead: nat
    const headerBuf: array<byte>
    var headerRead: nat
    var inPayload: bool            // read_state
    var head: FrameHead
    var payloadBuf: array<byte>
    var payloadRead: nat
    var frames: seq<Frame>         // dispatched so far

    /** What has been read after the connection preface. */
    ghost function Body(): bytes
      reads this, sock
      requires sock.Valid() && prefaceRead <= sock.pos
    {
      sock.stream[prefaceRead..sock.pos]
    }

    ghost predicate Buffers()
      reads this, sock, headerBuf, payloadBuf
    {
      && sock.Valid() && headerBuf.Length == 9 && headerBuf != payloadBuf
      && prefaceRead <= PREFACE && prefaceRead <= sock.pos
      && (prefaceRead < PREFACE ==> Body() == [] && headerRead == 0 && !inPayload && frames == [])
      && headerRead <= 9
      && (inPayload ==>
            && headerRead == 9 && head == ParseHead(headerBuf[..]) && head.length <= limit
            && payloadRead <= head.length && (head.length > 0 ==> payloadBuf.Length == head.length))
    }

    ghost function Unfinished(): bytes
      reads this, sock, headerBuf, payloadBuf
      requires Buffers()
    {
      headerBuf[..headerRead] + (if inPayload && head.length > 0 then payloadBuf[..payloadRead] else [])
    }

    /** The buffers are what one pass over everything received would leave unread. */
    ghost predicate UpToDate()
      reads this, sock, headerBuf, payloadBuf
      requires Buffers()
    {
      Deframe(limit, Body()) == Then(frames, Deframe(limit, Unfinished()))
    }

    /** Between two turns the frame at the cursor is never complete. */
    ghost predicate Valid()
      reads this, sock, headerBuf, payloadBuf
    {
      && Buffers()
      && (if inPayload then payloadRead < head.length else headerRead < 9)
      && Deframe(limit, Body()) == Received(frames, Unfinished(), true)
    }

    constructor (sock: Incoming, limit: nat)
      requires sock.Valid() && sock.pos == 0
      ensures Valid() && this.sock == sock && this.limit == limit && frames == []
      ensures fresh(headerBuf) && fresh(payloadBuf) && prefaceRead == 0
    {
      this.sock, this.limit := sock, limit;
      prefaceRead, headerRead, inPayload, payloadRead, frames := 0, 0, false, 0, [];
      head := FrameHead(0, 0, 0, 0);
      headerBuf := new byte[9](_ => 0);
      payloadBuf := new byte[0](_ => 0);
    }

    /** Every turn reads something, or meets a socket that is short of bytes; one that gives
        the connection back has met such a socket, and one that closes it a failure or the
        end of the stream. */
    twostate predicate SocketExplains(t: Turn)
      reads sock
    {
      && sock.pos >= old(sock.pos) && sock.short >= old(sock.short) && sock.failed >= old(sock.failed)
      && (t.Rearm? ==> sock.short > old(sock.short))
      && (t.CloseOnSocket? ==> sock.failed > old(sock.failed))
    }

    twostate predicate Progress()
      reads sock
    {
      sock.pos > old(sock.pos) || sock.short > old(sock.short)
    }

    /** EAGAIN: wait for readability, and for writability if anything is left to write. */
    method Retry(n: int, needWrite: bool) returns (t: Turn)
      ensures t == if n == AGAIN then Rearm(if needWrite then 4 else 2) else CloseOnSocket
    {
      if n == AGAIN {
        return Rearm(if needWrite then 4 else 2);
      }
      return CloseOnSocket;
    }

    method ReadPreface(needWrite: bool) returns (t: Turn)
      requires Valid()
      modifies this`prefaceRead, sock
      ensures Valid() && (t.GoOn? || t.Rearm? || t.CloseOnSocket?)
      ensures SocketExplains(t) && prefaceRead >= old(prefaceRead)
      ensures t.GoOn? && old(prefaceRead) < PREFACE ==> Progress()
    {
      if prefaceRead < PREFACE {
        var discard := new byte[PREFACE](_ => 0);
        var n := sock.Read(discard, 0, PREFACE - prefaceRead);
        if n > 0 {
          prefaceRead := prefaceRead + n;
        } else if n < 0 {
          t := Retry(n, needWrite);
          return;
        } else {
          return CloseOnSocket;
        }
      }
      return GoOn;
    }

    method ReadHeader(needWrite: bool) returns (t: Turn)
      requires Valid() && prefaceRead == PREFACE && !inPayload
      modifies this`headerRead, sock, headerBuf
      ensures Buffers() && (t.GoOn? || Valid())
      ensures t.GoOn? ==> UpToDate()
      ensures t.GoOn? && headerRead < 9 ==> Valid()
      ensures !t.CloseOnFrame?
      ensures SocketExplains(t) && (t.GoOn? ==> Progress())
    {
      var n := sock.Read(headerBuf, headerRead, 9 - headerRead);
      if n < 0 {
        t := Retry(n, needWrite);
        return;
      }
      if n == 0 {
        return CloseOnSocket;
      }
      ghost var got := sock.stream[old(sock.pos)..sock.pos];
      headerRead := headerRead + n;
      assert Unfinished() == old(Unfinished()) + got;
      assert Body() == old(Body()) + got;
      DeframeStopsOnPartial(limit, frames, old(Body()), got, old(Unfinished()));
      return GoOn;
    }

    /** The ninth header byte is in: parse it and make room for the payload. */
    method TakeHeader() returns (t: Turn)
      requires Buffers() && UpToDate() && headerRead == 9 && !inPayload
      modifies this`head, this`inPayload, this`payloadRead, this`payloadBuf
      ensures t.GoOn? || t.CloseOnFrame?
      ensures t.GoOn? ==> Buffers() && UpToDate() && inPayload && payloadRead == 0
      ensures t.CloseOnFrame? ==> !Deframe(limit, Body()).open
      ensures frames == old(frames) && (fresh(payloadBuf) || payloadBuf == old(payloadBuf))
    {
      assert headerBuf[..9] == headerBuf[..];
      head := ParseHead(headerBuf[..]);
      payloadRead := 0;
      if head.length > 0 {
        if head.length > limit {
          assert NextFrame(limit, headerBuf[..9]).Fatal?;
          return CloseOnFrame;
        }
        payloadBuf := new byte[head.length](_ => 0);
        assert headerBuf[..9] + payloadBuf[..0] == headerBuf[..9];
      } else {
        assert headerBuf[..9] + [] == headerBuf[..9];
      }
      inPayload := true;
      return GoOn;
    }

    /** Rearm(2) is also what a partial payload gives; the session loop just goes round. */
    method ReadPayload(needWrite: bool) returns (t: Turn)
      requires Buffers() && UpToDate() && inPayload
      requires payloadRead < head.length || head.length == 0
      modifies this`payloadRead, sock, payloadBuf
      ensures Buffers() && UpToDate()
      ensures payloadRead < head.length ==> Valid()
      ensures t.GoOn? ==> payloadRead == head.length
      ensures t.Rearm? ==> payloadRead < head.length
      ensures !t.CloseOnFrame?
      ensures SocketExplains(t) && (t.GoOn? && head.length > 0 ==> Progress())
    {
      if head.length == 0 {
        payloadRead := 0;
        return GoOn;
      }
      HeldBackWhileIncomplete();
      var n := Fill();
      if n < 0 {
        t := Retry(n, needWrite);
        return;
      }
      if n == 0 {
        return CloseOnSocket;
      }
      ghost var got := sock.stream[old(sock.pos)..sock.pos];
      DeframeStopsOnPartial(limit, frames, old(Body()), got, old(Unfinished()));
      if payloadRead < head.length {
        HeldBackWhileIncomplete();
        return Rearm(2);
      }
      return GoOn;
    }

    /** Reads what there is of the rest of the payload. */
    method Fill() returns (n: int)
      requires Buffers() && inPayload && payloadRead < head.length
      modifies this`payloadRead, sock, payloadBuf
      ensures Buffers()
      ensures n <= 0 ==> Body() == old(Body()) && Unfinished() == old(Unfinished()) && payloadRead == old(payloadRead)
      ensures old(sock.pos) <= sock.pos
      ensures n > 0 ==> Body() == old(Body()) + sock.stream[old(sock.pos)..sock.pos]
      ensures n > 0 ==> Unfinished() == old(Unfinished()) + sock.stream[old(sock.pos)..sock.pos]
      ensures sock.short == old(sock.short) + One(n == AGAIN || 0 < n < head.length - old(payloadRead))
      ensures sock.failed == old(sock.failed) + One(n == FAILED || n == 0) && FAILED <= n
      ensures n > 0 ==> sock.pos > old(sock.pos) && payloadRead == old(payloadRead) + n
    {
      n := sock.Read(payloadBuf, payloadRead, head.length - payloadRead);
      if n > 0 {
        payloadRead := payloadRead + n;
        ghost var got := sock.stream[old(sock.pos)..sock.pos];
        assert Body() == old(Body()) + got;
        assert payloadBuf[..payloadRead] == old(payloadBuf[..payloadRead]) + got;
      } else {
        assert payloadBuf[..payloadRead] == old(payloadBuf[..payloadRead]);
      }
    }

    lemma HeldBackWhileIncomplete()
      requires Buffers() && UpToDate() && inPayload && payloadRead < head.length
      ensures Valid()
    {
      assert Unfinished()[..9] == headerBuf[..];
      assert NextFrame(limit, Unfinished()).Partial?;
      assert frames + [] == frames;
    }

    /** The frame is whole: hand it to its handler, unless it says goodbye. */
    method Dispatch() returns (t: Turn)
      requires Buffers() && UpToDate() && inPayload && payloadRead == head.length
      modifies this`frames, this`inPayload, this`headerRead
      ensures t.GoOn? || t.CloseOnFrame?
      ensures old(frames) <= frames
      ensures t.GoOn? ==> Valid()
      ensures t.CloseOnFrame? ==> !Deframe(limit, Body()).open
    {
      ghost var u := Unfinished();
      assert u[..9] == headerBuf[..];
      var payload := if head.length > 0 then payloadBuf[..] else [];
      assert u == headerBuf[..9] + payload && u[9..9 + head.length] == payload;
      if head.kind == GOAWAY {
        assert NextFrame(limit, u).Fatal?;
        return CloseOnFrame;
      }
      var f := Frame(head.kind, head.flags, head.streamId, payload);
      assert NextFrame(limit, u) == Whole(f, |u|) && u[|u|..] == [];
      assert Deframe(limit, []) == Received([], [], true) && [f] + [] == [f];
      frames := frames + [f];
      inPayload, headerRead := false, 0;
      return GoOn;
    }

    /** The header part of a turn; GoOn with a header in hand, or with none yet. */
    method StartFrame(needWrite: bool) returns (t: Turn)
      requires Valid() && prefaceRead == PREFACE
      modifies this`headerRead, this`head, this`inPayload, this`payloadRead, this`payloadBuf, sock, headerBuf
      ensures t.Rearm? ==> Valid()
      ensures t.GoOn? ==> Buffers() && UpToDate()
      ensures t.GoOn? ==> if inPayload then payloadRead < head.length || head.length == 0 else Valid()
      ensures t.CloseOnFrame? ==> sock.Valid() && PREFACE <= sock.pos && !Deframe(limit, Body()).open
      ensures fresh(payloadBuf) || payloadBuf == old(payloadBuf)
      ensures SocketExplains(t) && (t.GoOn? && !old(inPayload) ==> Progress())
      ensures old(inPayload) ==> inPayload && head == old(head)
    {
      if inPayload {
        UpToDateWhileIncomplete();
        return GoOn;
      }
      t := ReadHeader(needWrite);
      if t.GoOn? && headerRead == 9 {
        t := TakeHeader();
      }
    }

    /** The payload part of a turn. */
    method FinishFrame(needWrite: bool) returns (t: Turn)
      requires Buffers() && UpToDate() && inPayload && prefaceRead == PREFACE
      requires payloadRead < head.length || head.length == 0
      modifies this`payloadRead, this`frames, this`inPayload, this`headerRead, sock, payloadBuf
      ensures t.GoOn? || t.Rearm? ==> Valid()
      ensures t.CloseOnFrame? ==> sock.Valid() && PREFACE <= sock.pos && !Deframe(limit, Body()).open
      ensures old(frames) <= frames
      ensures SocketExplains(t) && (t.GoOn? && old(head.length) > 0 ==> Progress())
    {
      t := ReadPayload(needWrite);
      if t == Rearm(2) {
        return GoOn;
      }
      if t.GoOn? {
        t := Dispatch();
      }
    }

    /** One turn of the session loop. Whatever the socket delivers, the frames dispatched
        are those of one pass over all the bytes received, and the session is closed only
        by the socket or by a frame that ends it. */
    method Iterate(needWrite: bool) returns (t: Turn)
      requires Valid()
      modifies this, sock, headerBuf, payloadBuf
      ensures t.GoOn? || t.Rearm? ==> Valid()
      ensures t.CloseOnFrame? ==> sock.Valid() && prefaceRead == PREFACE <= sock.pos && !Deframe(limit, Body()).open
      ensures old(frames) <= frames
      ensures fresh(payloadBuf) || payloadBuf == old(payloadBuf)
      ensures SocketExplains(t) && (t.GoOn? ==> Progress())
    {
      hide Deframe, ParseHead, Unfinished, UpToDate;
      t := ReadPreface(needWrite);
      if !t.GoOn? || prefaceRead < PREFACE {
        return;
      }
      t := StartFrame(needWrite);
      if !t.GoOn? || !inPayload {
        return;
      }
      t := FinishFrame(needWrite);
    }

    lemma UpToDateWhileIncomplete()
      requires Valid() && inPayload
      ensures UpToDate()
    {
      assert Unfinished()[..9] == headerBuf[..];
      assert NextFrame(limit, Unfinished()).Partial?;
      assert frames + [] == frames;
    }
  }

  /** The two ends together: under any partial writes, refusals and partial reads, the
      frames dispatched are a prefix of the frames sent, and all of them once everything
      has been flushed and read. */
  lemma {:induction false} EndToEnd(w: Writer, r: Reader)
    requires w.Valid() && w.InOrder() && !w.writeError
    requires r.Valid() && r.prefaceRead == PREFACE && r.Body() <= w.sock.wire
    requires forall f :: f in w.sent ==> |f.payload| <= r.limit && f.kind != GOAWAY
    ensures r.frames <= w.sent
    ensures w.Unsent() == [] && r.Body() == w.sock.wire ==> r.frames == w.sent && r.Unfinished() == []
  {
    FramesArriveInOrder(r.limit, w.sent, w.sock.wire, w.Unsent(), r.Body());
  }
}
