/** DATA frames of an in-memory response body. */
module Http2Data {
  import opened Bytes
  import opened Sockets
  import opened Http2Framing

  const END_STREAM: byte := 1

  function DataFrames(streamId: StreamId, data: bytes, isEnd: bool): seq<Frame> {
    if |data| == 0 then
      if isEnd then [Frame(0, END_STREAM, streamId, [])] else []
    else if |data| <= MAX_FRAME then
      [Frame(0, if isEnd then END_STREAM else 0, streamId, data)]
    else
      [Frame(0, 0, streamId, data[..MAX_FRAME])] + DataFrames(streamId, data[MAX_FRAME..], isEnd)
  }

  function Payloads(frames: seq<Frame>): bytes {
    if frames == [] then [] else frames[0].payload + Payloads(frames[1..])
  }

  /** The frames carry the body, whole and in order, none too large, and END_STREAM is on
      the last of them and only there, if the body is the end of the stream. */
  lemma {:induction false} DataFramesCarryBody(streamId: StreamId, data: bytes, isEnd: bool)
    ensures var fs := DataFrames(streamId, data, isEnd);
      && Payloads(fs) == data
      && (forall f :: f in fs ==> f.kind == 0 && f.streamId == streamId && |f.payload| <= 16384)
      && (forall i :: 0 <= i < |fs| ==> fs[i].flags == if isEnd && i == |fs| - 1 then 1 else 0)
      && (isEnd || data != [] ==> fs != [])
    decreases |data|
  {
    if |data| > MAX_FRAME {
      var rest := DataFrames(streamId, data[MAX_FRAME..], isEnd);
      DataFramesCarryBody(streamId, data[MAX_FRAME..], isEnd);
      assert DataFrames(streamId, data, isEnd)[1..] == rest;
      assert data == data[..MAX_FRAME] + data[MAX_FRAME..];
    } else {
      assert data + Payloads([]) == data;
    }
  }

  /** The frames for `data[at..]`; none once the data is used up. */
  function Rest(streamId: StreamId, data: bytes, at: nat, isEnd: bool): seq<Frame>
    requires at <= |data|
  {
    if at == |data| then [] else DataFrames(streamId, data[at..], isEnd)
  }

  lemma {:induction false} RestUnfolds(before: seq<Frame>, streamId: StreamId, data: bytes, at: nat, isEnd: bool)
    requires at < |data|
    ensures var chunk := if |data| - at > MAX_FRAME then MAX_FRAME else |data| - at;
      var f := Frame(0, if isEnd && at + chunk == |data| then END_STREAM else 0, streamId, data[at..at + chunk]);
      before + Rest(streamId, data, at, isEnd) == (before + [f]) + Rest(streamId, data, at + chunk, isEnd)
  {
    if |data| - at > MAX_FRAME {
      assert data[at..][..MAX_FRAME] == data[at..at + MAX_FRAME] && data[at..][MAX_FRAME..] == data[at + MAX_FRAME..];
    } else {
      assert data[at..] == data[at..|data|];
    }
  }

  /** http2_response_send_data. No window is looked at or debited here. */
  method SendData(w: Writer, streamId: nat, data: bytes, isEnd: bool)
    requires w.Valid() && w.InOrder()
    modifies w, w.sock, w.heap
    ensures w.Valid() && w.InOrder() && w.ErrorHasCause()
    ensures w.sent == old(w.sent) + DataFrames(streamId % 0x8000_0000, data, isEnd)
  {
    hide EncodeAll, Encode;
    ghost var sid := streamId % 0x8000_0000;
    if |data| == 0 {
      if isEnd {
        w.SendFrame(0, END_STREAM, streamId, []);
      }
      return;
    }
    var endStreamSent := false;
    var at := 0;
    while at < |data|
      invariant 0 <= at <= |data| && w.Valid() && w.InOrder() && w.ErrorHasCause()
      invariant endStreamSent <==> isEnd && at == |data|
      invariant w.sent + Rest(sid, data, at, isEnd) == old(w.sent) + DataFrames(sid, data, isEnd)
    {
      hide DataFrames, Rest;
      var remaining := |data| - at;
      var chunk := if remaining > MAX_FRAME then MAX_FRAME else remaining;
      var flags: byte := 0;
      if isEnd && remaining == chunk {
        flags := END_STREAM;
        endStreamSent := true;
      }
      RestUnfolds(w.sent, sid, data, at, isEnd);
      w.SendFrame(0, flags, streamId, data[at..at + chunk]);
      at := at + chunk;
    }
    // The fallback empty END_STREAM frame of the code is never needed here.
    assert isEnd ==> endStreamSent;
    assert w.sent + [] == w.sent;
  }
}
