/** The record loop of the relay over a backend socket, a header buffer and a client,
    proved against the relay on values. */
module FastCgiRelayLoop {
  import opened Bytes
  import opened Chunked
  import opened FastCgiRecords
  import opened FastCgiRelay
  import opened Options

  /** What the backend sends before it closes or the 30-second timeout strikes. */
  class Backend {
    const stream: bytes
    var pos: nat

    ghost predicate Valid()
      reads this
    {
      pos <= |stream|
    }

    function Rest(): bytes
      reads this
      requires Valid()
    {
      stream[pos..]
    }

    constructor (stream: bytes)
      ensures Valid() && Rest() == stream
    {
      this.stream := stream;
      pos := 0;
    }

    /** recv with MSG_WAITALL: all `n` bytes, or a failure. */
    method Recv(n: nat) returns (ok: bool, data: bytes)
      requires Valid()
      modifies this
      ensures Valid() && (ok <==> n <= |old(Rest())|)
      ensures ok ==> data == old(Rest())[..n] && Rest() == old(Rest())[n..]
      ensures !ok ==> data == old(Rest()) && Rest() == []
    {
      ok := n <= |stream| - pos;
      data := if ok then stream[pos..pos + n] else stream[pos..];
      pos := if ok then pos + n else |stream|;
    }

    /** splice towards a pipe: any positive amount, 0 at the end of the stream. */
    method SpliceOut(max: nat) returns (data: bytes)
      requires Valid() && max > 0
      modifies this
      ensures Valid() && |data| <= max
      ensures data == [] <==> old(Rest()) == []
      ensures data + Rest() == old(Rest())
    {
      var left := |stream| - pos;
      var n: nat :| n <= max && n <= left && (n == 0 ==> left == 0);
      data := stream[pos..pos + n];
      pos := pos + n;
    }
  }

  class Client {
    var received: bytes

    constructor ()
      ensures received == []
    {
      received := [];
    }

    method Send(data: bytes)
      modifies this
      ensures received == old(received) + data
    {
      received := received + data;
    }

    /** %X CRLF. */
    method SendSize(n: nat)
      modifies this
      ensures received == old(received) + (Hex(n) + CRLF)
    {
      Send(Hex(n) + CRLF);
    }
  }

  datatype Verdict = GoOn | Success | Failure

  lemma {:induction false} LeftMoves(left: bytes, rest: bytes, n: nat)
    requires left <= rest && n <= |left|
    ensures left[..n] == rest[..n] && left[n..] <= rest[n..]
  {
  }

  lemma {:induction false} PullsStep(before: bytes, data: bytes, pull: nat)
    requires data != [] && pull == (if |data| > BODY_TEMP then BODY_TEMP else |data|)
    ensures before + Pulls(data) == (before + Chunk(data[..pull])) + Pulls(data[pull..])
  {
    if |data| <= BODY_TEMP {
      assert data[..pull] == data && Pulls(data[pull..]) == [];
    }
  }

  lemma {:induction false} OpeningParts(answer: bytes -> Reply, out: bytes, buf: bytes, k: nat, more: bytes)
    requires k <= |buf|
    ensures out + Head(answer, buf, k) + NonEmptyChunk(buf[k..]) + Pulls(more) == out + Opening(answer, buf, k, more)
  {
  }

  class Relay {
    const backend: Backend
    const client: Client
    const answer: bytes -> Reply
    const useSplice: bool
    const headerBuffer: array<byte>
    var headerPos: nat
    var headerSent: bool

    ghost predicate Valid()
      reads this, backend
    {
      backend.Valid() && headerBuffer.Length == HEADER_ROOM + 1 && headerPos <= HEADER_ROOM
    }

    ghost function Now(): State
      reads this, client, backend, headerBuffer
      requires Valid()
    {
      State(headerBuffer[..headerPos], headerSent, client.received)
    }

    /** The turn `t` of the relay on values is what has happened. */
    ghost predicate Did(t: Turn, v: Verdict)
      reads this, client, backend, headerBuffer
    {
      && Valid()
      && match t
         case Fail => v == Failure
         case Done(out, unread) => v == Success && client.received == out && backend.Rest() == unread
         case Next(input, st) => v == GoOn && Now() == st && backend.Rest() == input
    }

    constructor (backend: Backend, client: Client, line: Start -> bytes, useSplice: bool)
      requires backend.Valid()
      ensures Valid() && fresh(headerBuffer) && Now() == State([], false, client.received)
      ensures this.backend == backend && this.client == client && this.answer == AnswerOf(line)
    {
      this.backend, this.client, this.answer, this.useSplice := backend, client, AnswerOf(line), useSplice;
      headerBuffer := new byte[HEADER_ROOM + 1](_ => 0);
      headerPos, headerSent := 0, false;
    }

    method SendChunk(data: bytes)
      modifies client
      ensures client.received == old(client.received) + Chunk(data)
    {
      client.SendSize(|data|);
      client.Send(data);
      client.Send(CRLF);
      assert Chunk(data) == (Hex(|data|) + CRLF) + data + CRLF;
    }

    method PullChunk(remain: nat) returns (ok: bool, pull: nat)
      requires backend.Valid() && remain > 0
      modifies backend, client
      ensures backend.Valid() && pull == Min(remain, BODY_TEMP) && (ok <==> pull <= |old(backend.Rest())|)
      ensures ok ==> client.received == old(client.received) + Chunk(old(backend.Rest())[..pull])
      ensures ok ==> backend.Rest() == old(backend.Rest())[pull..]
    {
      pull := if remain > BODY_TEMP then BODY_TEMP else remain;
      var data;
      ok, data := backend.Recv(pull);
      if ok {
        SendChunk(data);
      }
    }

    /** The rest of the record that completed the header, in chunks of 16384 bytes. */
    method PullChunks(count: nat) returns (ok: bool)
      requires backend.Valid()
      modifies backend, client
      ensures backend.Valid() && (ok <==> count <= |old(backend.Rest())|)
      ensures ok ==> client.received == old(client.received) + Pulls(old(backend.Rest())[..count])
      ensures ok ==> backend.Rest() == old(backend.Rest())[count..]
    {
      ghost var all := backend.Rest();
      ghost var left := all[..Min(count, |all|)];
      ghost var goal := client.received + Pulls(left);
      var remain := count;
      ok := true;
      while remain > 0
        invariant backend.Valid() && 0 <= remain <= count && count - remain <= |all|
        invariant backend.Rest() == all[count - remain..]
        invariant |left| == Min(remain, |backend.Rest()|) && left <= backend.Rest()
        invariant client.received + Pulls(left) == goal
      {
        ghost var before, rest := client.received, backend.Rest();
        var pull;
        ok, pull := PullChunk(remain);
        if !ok {
          return;
        }
        PullsStep(before, left, pull);
        LeftMoves(left, rest, pull);
        left := left[pull..];
        remain := remain - pull;
      }
      assert left == [] && client.received + [] == client.received;
    }

    /** A record of the body through the pipe, however it splits on the way. */
    method SpliceAll(count: nat) returns (ok: bool)
      requires backend.Valid()
      modifies backend, client
      ensures backend.Valid() && (ok <==> count <= |old(backend.Rest())|)
      ensures ok ==> client.received == old(client.received) + old(backend.Rest())[..count]
      ensures ok ==> backend.Rest() == old(backend.Rest())[count..]
    {
      ghost var all, before := backend.Rest(), client.received;
      var toMove := count;
      while toMove > 0
        invariant backend.Valid() && 0 <= toMove <= count && count - toMove <= |all|
        invariant backend.Rest() == all[count - toMove..]
        invariant client.received == before + all[..count - toMove]
      {
        var pipe := backend.SpliceOut(toMove);
        if pipe == [] {
          return false;
        }
        ghost var at, moved := count - toMove, |pipe|;
        assert pipe == all[at..][..moved];
        toMove := toMove - |pipe|;
        while pipe != []
          invariant backend.Valid() && |pipe| <= moved
          invariant backend.Rest() == all[count - toMove..]
          invariant client.received + pipe == before + all[..count - toMove]
          decreases |pipe|
        {
          var n :| 1 <= n <= |pipe|;
          assert pipe == pipe[..n] + pipe[n..];
          client.Send(pipe[..n]);
          pipe := pipe[n..];
        }
        assert client.received + [] == client.received;
      }
      return true;
    }

    /** The same through a 16384-byte buffer, for TLS. */
    method CopyAll(count: nat) returns (ok: bool)
      requires backend.Valid()
      modifies backend, client
      ensures backend.Valid() && (ok <==> count <= |old(backend.Rest())|)
      ensures ok ==> client.received == old(client.received) + old(backend.Rest())[..count]
      ensures ok ==> backend.Rest() == old(backend.Rest())[count..]
    {
      ghost var all, before := backend.Rest(), client.received;
      var toPull := count;
      while toPull > 0
        invariant backend.Valid() && 0 <= toPull <= count && count - toPull <= |all|
        invariant backend.Rest() == all[count - toPull..]
        invariant client.received == before + all[..count - toPull]
      {
        var pull := if toPull > BODY_TEMP then BODY_TEMP else toPull;
        ghost var at := count - toPull;
        var data;
        ok, data := backend.Recv(pull);
        if !ok {
          return;
        }
        assert all[..at] + data == all[..at + pull];
        client.Send(data);
        toPull := toPull - pull;
      }
      return true;
    }

    method StreamBody(count: nat) returns (v: Verdict)
      requires Valid() && headerSent
      modifies backend, client
      ensures Did(if |old(backend.Rest())| < count then Fail
                  else Next(old(backend.Rest())[count..],
                            old(Now()).(out := old(client.received) + Chunk(old(backend.Rest())[..count]))), v)
    {
      ghost var data := backend.Rest()[..if count <= |backend.Rest()| then count else 0];
      client.SendSize(count);
      var ok;
      if useSplice {
        ok := SpliceAll(count);
      } else {
        ok := CopyAll(count);
      }
      if !ok {
        return Failure;
      }
      client.Send(CRLF);
      assert Chunk(data) == Hex(count) + CRLF + data + CRLF;
      assert client.received == old(client.received) + Chunk(data);
      return GoOn;
    }

    /** Reads and forgets what a redirect leaves of its record. */
    method Drain(count: int)
      requires backend.Valid()
      modifies backend
      ensures backend.Valid()
      ensures backend.Rest() == old(backend.Rest())[Min(if count > 0 then count else 0, |old(backend.Rest())|)..]
    {
      ghost var all := backend.Rest();
      var remain := count;
      while remain > 0
        invariant backend.Valid() && (remain == count || 0 <= remain < count) && count - remain <= |all|
        invariant backend.Rest() == all[count - remain..]
      {
        var pull := if remain > BODY_TEMP then BODY_TEMP else remain;
        var ok, data := backend.Recv(pull);
        if !ok {
          return;
        }
        remain := remain - pull;
      }
    }

    /** The first lines and the CGI header. */
    method SendHead(k: nat) returns (status: int)
      requires Valid() && k <= headerPos
      modifies client
      ensures status == answer(headerBuffer[..headerPos]).status
      ensures client.received == old(client.received) + Head(answer, headerBuffer[..headerPos], k)
    {
      var buf := headerBuffer[..headerPos];
      client.Send(answer(buf).first);
      client.Send(headerBuffer[..k]);
      assert headerBuffer[..k] == buf[..k];
      status := answer(buf).status;
    }

    /** What of the body is in the buffer already. */
    method SendBuffered(k: nat)
      requires Valid() && k <= headerPos
      modifies client
      ensures client.received == old(client.received) + NonEmptyChunk(headerBuffer[..headerPos][k..])
    {
      var bodyInBuf := headerPos - k;
      assert headerBuffer[k..headerPos] == headerBuffer[..headerPos][k..];
      if bodyInBuf > 0 {
        SendChunk(headerBuffer[k..headerPos]);
      }
    }

    /** The blank line has come in: answer, and pass on what there is of the body. */
    method BeginResponse(remain: nat, drain: int, k: nat) returns (v: Verdict)
      requires Valid() && !headerSent && k <= headerPos
      modifies this`headerSent, backend, client
      ensures Did(Begin(answer, remain, drain, old(backend.Rest()), old(Now()), k), v)
    {
      ghost var st, more := Now(), backend.Rest();
      var status := SendHead(k);
      headerSent := true;
      if Redirect(status) {
        Drain(drain);
        return Success;
      }
      SendBuffered(k);
      var ok := PullChunks(remain);
      if !ok {
        return Failure;
      }
      OpeningParts(answer, st.out, st.header, k, more[..remain]);
      return GoOn;
    }

    /** Looks for the blank line in what the buffer holds now. */
    method Inspect(remain: nat, drain: int) returns (v: Verdict)
      requires Valid() && !headerSent
      modifies this`headerSent, backend, client
      ensures Did(Gathered(answer, remain, drain, old(backend.Rest()), old(Now()), Find(old(Now()).header, BLANK)), v)
    {
      hide Begin, Opening, Head, Redirect, NonEmptyChunk, Pulls;
      var delim := Find(headerBuffer[..headerPos], BLANK);
      if delim.None? {
        return GoOn;
      }
      v := BeginResponse(remain, drain, delim.value + 4);
    }

    /** Takes what fits of the record into the header buffer. */
    method Fill(length: nat) returns (ok: bool, toRead: nat)
      requires Valid() && !headerSent
      modifies this`headerPos, headerBuffer, backend
      ensures Valid() && toRead == Min(length, HEADER_ROOM - old(headerPos))
      ensures ok <==> toRead <= |old(backend.Rest())|
      ensures ok ==> headerBuffer[..headerPos] == old(headerBuffer[..headerPos]) + old(backend.Rest())[..toRead]
      ensures ok ==> backend.Rest() == old(backend.Rest())[toRead..]
    {
      var space := headerBuffer.Length - headerPos - 1;
      toRead := if length < space then length else space;
      var data;
      ok, data := backend.Recv(toRead);
      if !ok {
        return;
      }
      forall i | 0 <= i < toRead {
        headerBuffer[headerPos + i] := data[i];
      }
      headerPos := headerPos + toRead;
    }

    method GatherHeader(length: nat) returns (v: Verdict)
      requires Valid() && !headerSent && length > 0
      modifies this`headerPos, this`headerSent, headerBuffer, backend, client
      ensures Did(Gather(answer, length, old(backend.Rest()), old(Now())), v)
    {
      ghost var st, s := Now(), backend.Rest();
      var ok, toRead := Fill(length);
      if !ok {
        return Failure;
      }
      ghost var st' := st.(header := st.header + s[..toRead]);
      assert Now() == st' && backend.Rest() == s[toRead..];
      assert Gather(answer, length, s, st) ==
        Gathered(answer, length - toRead, length - |st'.header|, s[toRead..], st', Find(st'.header, BLANK));
      v := Inspect(length - toRead, length - headerPos);
    }

    /** One record. */
    method Step() returns (v: Verdict)
      requires Valid()
      modifies this`headerPos, this`headerSent, headerBuffer, backend, client
      ensures Did(Record(answer, old(backend.Rest()), old(Now())), v)
    {
      ghost var s, st := backend.Rest(), Now();
      var ok, h := backend.Recv(8);
      if !ok {
        return Failure;
      }
      var kind, length, padding := h[1], U16(h[4..6]), h[6];
      assert kind == s[1] && h[4..6] == s[4..6] && padding == s[6];
      v := Consume(kind, length);
      if !v.GoOn? || padding == 0 {
        return;
      }
      ghost var t := Next(backend.Rest(), Now());
      ok, h := backend.Recv(padding);
      if !ok {
        v := Failure;
      }
    }

    /** The content of a record. */
    method Consume(kind: byte, length: nat) returns (v: Verdict)
      requires Valid()
      modifies this`headerPos, this`headerSent, headerBuffer, backend, client
      ensures Did(Content(answer, kind, length, old(backend.Rest()), old(Now())), v)
    {
      if kind == STDOUT {
        if length == 0 {
          return GoOn;
        }
        if headerSent {
          v := StreamBody(length);
        } else {
          v := GatherHeader(length);
        }
        return;
      }
      if kind == STDERR && length > 0 {
        var ok, message := backend.Recv(length);
        return if ok then GoOn else Failure;
      }
      if kind == END_REQUEST {
        var ok, endPayload := backend.Recv(8);
        if !ok {
          return Failure;
        }
        if headerSent {
          client.Send(LAST_CHUNK);
        }
        assert client.received == old(client.received) + (if headerSent then LAST_CHUNK else []);
        return Success;
      }
      return GoOn;
    }

    /** fcgi_io_splice_response: 0 exactly when the relay on values succeeds, and then the
        client has what it says and the backend is left where it says. */
    method Run() returns (status: int)
      requires Valid()
      modifies this`headerPos, this`headerSent, headerBuffer, backend, client
      ensures status == 0 || status == -2
      ensures status == 0 <==> Relayed(answer, old(backend.Rest()), old(Now())).Some?
      ensures status == 0 ==> backend.Valid()
      ensures status == 0 ==> Relayed(answer, old(backend.Rest()), old(Now())) == Some((client.received, backend.Rest()))
    {
      ghost var goal := Relayed(answer, backend.Rest(), Now());
      var v := GoOn;
      while v.GoOn?
        invariant v.GoOn? ==> Valid() && Relayed(answer, backend.Rest(), Now()) == goal
        invariant v.Success? ==> Valid() && goal == Some((client.received, backend.Rest()))
        invariant v.Failure? ==> goal.None?
        decreases v.GoOn?, if v.GoOn? then |backend.stream| - backend.pos else 0
      {
        v := Step();
      }
      return if v.Success? then 0 else -2;
    }
  }
}
