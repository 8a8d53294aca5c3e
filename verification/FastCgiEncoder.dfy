/** The requests sent to a FastCGI backend: the PARAMS records gathered in a buffer and the
    STDIN records sent through partial and interrupted writes. */
module FastCgiEncoder {
  import opened Bytes
  import opened FastCgiRecords
  import opened Options

  const GATHER := 65536
  const STDIN_CHUNK := 32768

  function Padding(length: nat): (pad: nat)
    ensures pad < 8 && (length + pad) % 8 == 0
  {
    (8 - length % 8) % 8
  }

  function Zeros(n: nat): (z: bytes)
    ensures |z| == n
  {
    if n == 0 then [] else [0] + Zeros(n - 1)
  }

  // ----- PARAMS

  /** The pairs that are kept: each one that still fits, at `at` in a buffer of `max`. */
  function Fitted(ps: seq<Pair>, at: nat, max: nat): seq<Pair>
  {
    if ps == [] then []
    else if at + |EncodePair(ps[0])| > max then Fitted(ps[1..], at, max)
    else [ps[0]] + Fitted(ps[1..], at + |EncodePair(ps[0])|, max)
  }

  lemma {:induction false} FittedFits(ps: seq<Pair>, at: nat, max: nat)
    requires at <= max
    ensures at + |EncodePairs(Fitted(ps, at, max))| <= max
  {
    if ps != [] {
      if at + |EncodePair(ps[0])| > max {
        FittedFits(ps[1..], at, max);
      } else {
        FittedFits(ps[1..], at + |EncodePair(ps[0])|, max);
        assert Fitted(ps, at, max)[1..] == Fitted(ps[1..], at + |EncodePair(ps[0])|, max);
      }
    }
  }

  /** Nothing is lost while everything fits. */
  lemma {:induction false} AllFitted(ps: seq<Pair>, at: nat, max: nat)
    requires at + |EncodePairs(ps)| <= max
    ensures Fitted(ps, at, max) == ps
  {
    if ps != [] {
      assert EncodePairs(ps) == EncodePair(ps[0]) + EncodePairs(ps[1..]);
      AllFitted(ps[1..], at + |EncodePair(ps[0])|, max);
    }
  }

  /** The PARAMS record and the empty one after it. */
  function ParamsRecords(content: bytes, requestId: nat): seq<Rec> {
    [Rec(PARAMS, requestId, content, Zeros(Padding(|content|))), Rec(PARAMS, requestId, [], [])]
  }

  /** What the PARAMS record holds when its header goes to `at`. */
  function Params(ps: seq<Pair>, at: nat): bytes {
    EncodePairs(Fitted(ps, at + 8, GATHER))
  }

  lemma {:induction false} ParamsFit(content: bytes, requestId: nat)
    requires |content| < 0x1_0000 && requestId < 0x1_0000
    ensures forall r :: r in ParamsRecords(content, requestId) ==> Fits(r)
  {
  }

  lemma {:induction false} PaddedIsAligned(r: Rec)
    requires Fits(r) && |r.padding| == Padding(|r.content|)
    ensures |Encode(r)| % 8 == 0
  {
    assert |Encode(r)| == 8 + (|r.content| + Padding(|r.content|));
  }

  /** The PARAMS stream decodes to the pairs that fitted, in order; its length is never cut
      to 16 bits, the whole record is a multiple of 8 bytes, and an empty record ends it. */
  lemma {:induction false} ParamsRoundTrip(ps: seq<Pair>, at: nat, requestId: nat)
    requires at + 8 <= GATHER && requestId < 0x1_0000
    ensures var rs := ParamsRecords(Params(ps, at), requestId);
      && (forall r :: r in rs ==> Fits(r))
      && ParseAll(EncodeAll(rs)) == Some(rs)
      && DecodePairs(rs[0].content) == Some(Fitted(ps, at + 8, GATHER))
      && |Encode(rs[0])| % 8 == 0 && rs[1].content == []
  {
    var rs := ParamsRecords(Params(ps, at), requestId);
    FittedFits(ps, at + 8, GATHER);
    ParamsFit(Params(ps, at), requestId);
    assert rs[0] in rs;
    PaddedIsAligned(rs[0]);
    ParseAllInvertsEncodeAll(rs);
    PairsRoundTrip(Fitted(ps, at + 8, GATHER));
  }

  method PutLength(dest: array<byte>, n: nat, offset: nat) returns (end: nat)
    requires n < 0x8000_0000 && offset + |EncodeLength(n)| <= dest.Length
    modifies dest
    ensures end == offset + |EncodeLength(n)|
    ensures dest[..end] == old(dest[..offset]) + EncodeLength(n)
  {
    end := offset;
    if n > 127 {
      dest[end] := n / 0x100_0000 + 0x80;
      dest[end + 1] := n / 0x1_0000 % 0x100;
      dest[end + 2] := n / 0x100 % 0x100;
      dest[end + 3] := n % 0x100;
      end := end + 4;
      assert dest[..offset] == old(dest[..offset]) && dest[offset..end] == EncodeLength(n);
      assert dest[..end] == dest[..offset] + dest[offset..end];
      return;
    }
    dest[end] := n;
    end := end + 1;
  }

  /** memcpy. */
  method Put(dest: array<byte>, data: bytes, offset: nat) returns (end: nat)
    requires offset + |data| <= dest.Length
    modifies dest
    ensures end == offset + |data|
    ensures dest[..end] == old(dest[..offset]) + data
  {
    forall i | 0 <= i < |data| {
      dest[offset + i] := data[i];
    }
    end := offset + |data|;
  }

  lemma {:induction false} FiveParts(a: bytes, b: bytes, c: bytes, d: bytes, e: bytes)
    ensures a + b + c + d + e == a + (b + c + d + e)
  {
  }

  /** A pair that does not fit is left out. */
  method AddPair(dest: array<byte>, p: Pair, offset: nat, max: nat) returns (end: nat)
    requires offset <= max <= dest.Length
    modifies dest
    ensures end == if offset + |EncodePair(p)| > max then offset else offset + |EncodePair(p)|
    ensures dest[..end] == old(dest[..offset]) + (if offset + |EncodePair(p)| > max then [] else EncodePair(p))
  {
    var hName := if |p.name| > 127 then 4 else 1;
    var hVal := if |p.value| > 127 then 4 else 1;
    if offset + hName + hVal + |p.name| + |p.value| > max {
      return offset;
    }
    ghost var before := dest[..offset];
    end := PutLength(dest, |p.name|, offset);
    end := PutLength(dest, |p.value|, end);
    end := Put(dest, p.name, end);
    end := Put(dest, p.value, end);
    FiveParts(before, EncodeLength(|p.name|), EncodeLength(|p.value|), p.name, p.value);
  }

  /** Room in the gather buffer for the record, its padding and the empty record. */
  ghost predicate Room(ps: seq<Pair>, at: nat) {
    at + 8 + |Params(ps, at)| + Padding(|Params(ps, at)|) + 8 <= GATHER
  }

  lemma {:induction false} ParamsLayout(content: bytes, requestId: nat, before: bytes)
    requires |content| < 0x1_0000 && requestId < 0x1_0000
    ensures forall r :: r in ParamsRecords(content, requestId) ==> Fits(r)
    ensures before + EncodeAll(ParamsRecords(content, requestId)) ==
      before + RecordHead(PARAMS, requestId, |content|, Padding(|content|)) + content
        + Zeros(Padding(|content|)) + RecordHead(PARAMS, requestId, 0, 0)
  {
    var rs := ParamsRecords(content, requestId);
    ParamsFit(content, requestId);
    assert rs[1] in rs && rs[0] in rs;
    assert rs[1..] == [rs[1]] && rs[1..][1..] == [];
    var last := RecordHead(PARAMS, requestId, 0, 0);
    assert Encode(rs[1]) == last + [] + [] == last;
    assert EncodeAll([rs[1]]) == last + [] == last;
    assert EncodeAll(rs) == Encode(rs[0]) + EncodeAll(rs[1..]);
    FiveParts(before, RecordHead(PARAMS, requestId, |content|, Padding(|content|)), content, Zeros(Padding(|content|)), last);
  }

  /** The header is filled in over what the buffer held there. */
  method PutHead(gather: array<byte>, at: nat, requestId: nat, length: nat, pad: nat)
    requires at + 8 <= gather.Length && pad < 0x100
    modifies gather
    ensures gather[..at] == old(gather[..at]) && gather[at + 8..] == old(gather[at + 8..])
    ensures gather[at..at + 8] == RecordHead(PARAMS, requestId, length, pad)
  {
    var head := RecordHead(PARAMS, requestId, length, pad);
    forall i | 0 <= i < 8 {
      gather[at + i] := head[i];
    }
  }

  lemma {:induction false} HeadThenContent(gather: array<byte>, at: nat, offset: nat, before: bytes, head: bytes, content: bytes)
    requires at + 8 <= offset <= gather.Length && |content| == offset - (at + 8)
    requires gather[..at] == before && gather[at..at + 8] == head && gather[at + 8..offset] == content
    ensures gather[..offset] == before + head + content
  {
  }

  lemma {:induction false} FittedUnfolds(ps: seq<Pair>, i: nat, at: nat)
    requires i < |ps|
    ensures var n := |EncodePair(ps[i])|;
      Fitted(ps[i..], at, GATHER) ==
        if at + n > GATHER then Fitted(ps[i + 1..], at, GATHER) else [ps[i]] + Fitted(ps[i + 1..], at + n, GATHER)
  {
    assert ps[i..][1..] == ps[i + 1..];
  }

  lemma {:induction false} EncodeCons(p: Pair, ps: seq<Pair>)
    ensures EncodePairs([p] + ps) == EncodePair(p) + EncodePairs(ps)
  {
    assert ([p] + ps)[1..] == ps;
  }

  lemma {:induction false} FittedStep(ps: seq<Pair>, i: nat, at: nat, done: bytes)
    requires i < |ps| && at <= GATHER
    ensures var kept := if at + |EncodePair(ps[i])| > GATHER then [] else EncodePair(ps[i]);
      done + EncodePairs(Fitted(ps[i..], at, GATHER))
        == done + kept + EncodePairs(Fitted(ps[i + 1..], at + |kept|, GATHER))
  {
    FittedUnfolds(ps, i, at);
    var n := |EncodePair(ps[i])|;
    if at + n > GATHER {
      assert done + [] == done;
    } else {
      var later := Fitted(ps[i + 1..], at + n, GATHER);
      EncodeCons(ps[i], later);
      ConcatAssociates(done, EncodePair(ps[i]), EncodePairs(later));
    }
  }

  lemma {:induction false} NothingFitted(at: nat)
    ensures EncodePairs(Fitted([], at, GATHER)) == []
  {
  }

  method AddPairs(gather: array<byte>, at: nat, ps: seq<Pair>) returns (end: nat)
    requires gather.Length == GATHER && at <= GATHER
    modifies gather
    ensures at <= end <= GATHER
    ensures gather[..end] == old(gather[..at]) + EncodePairs(Fitted(ps, at, GATHER))
  {
    hide EncodePair, EncodePairs, Fitted;
    ghost var goal := gather[..at] + EncodePairs(Fitted(ps, at, GATHER));
    end := at;
    assert ps[0..] == ps;
    for i := 0 to |ps|
      invariant at <= end <= GATHER
      invariant gather[..end] + EncodePairs(Fitted(ps[i..], end, GATHER)) == goal
    {
      FittedStep(ps, i, end, gather[..end]);
      end := AddPair(gather, ps[i], end, GATHER);
    }
    NothingFitted(end);
    assert ps[|ps|..] == [] && gather[..end] + [] == gather[..end];
  }

  /** fcgi_proto_build_params, from the pairs it has chosen. */
  method BuildParams(gather: array<byte>, at: nat, ps: seq<Pair>, requestId: nat) returns (end: nat)
    requires gather.Length == GATHER && requestId < 0x1_0000 && Room(ps, at)
    modifies gather
    ensures forall r :: r in ParamsRecords(Params(ps, at), requestId) ==> Fits(r)
    ensures end <= GATHER
    ensures gather[..end] == old(gather[..at]) + EncodeAll(ParamsRecords(Params(ps, at), requestId))
  {
    hide Fits, EncodeAll, EncodePairs, Fitted;
    ghost var before, content := gather[..at], Params(ps, at);
    var offset := AddPairs(gather, at + 8, ps);
    var length := offset - (at + 8);
    var pad := Padding(length);
    assert gather[at + 8..offset] == gather[..offset][at + 8..] == content;
    assert gather[..at] == gather[..offset][..at] == before;
    PutHead(gather, at, requestId, length, pad);
    assert gather[at + 8..offset] == gather[at + 8..][..length];
    HeadThenContent(gather, at, offset, before, RecordHead(PARAMS, requestId, length, pad), content);
    end := Put(gather, Zeros(pad), offset);
    end := Put(gather, RecordHead(PARAMS, requestId, 0, 0), end);
    ParamsLayout(content, requestId, before);
  }

  // ----- STDIN

  function StdinRecord(requestId: nat, chunk: bytes): Rec {
    Rec(STDIN, requestId, chunk, Zeros(Padding(|chunk|)))
  }

  /** Whole chunks of 32768 bytes, what is left, and one empty record. */
  function StdinRecords(requestId: nat, data: bytes): seq<Rec>
    decreases |data|
  {
    if data == [] then [StdinRecord(requestId, [])]
    else if |data| <= STDIN_CHUNK then [StdinRecord(requestId, data), StdinRecord(requestId, [])]
    else [StdinRecord(requestId, data[..STDIN_CHUNK])] + StdinRecords(requestId, data[STDIN_CHUNK..])
  }

  function Contents(rs: seq<Rec>): bytes {
    if rs == [] then [] else rs[0].content + Contents(rs[1..])
  }

  predicate Aligned(r: Rec) {
    Fits(r) && r.kind == STDIN && (8 + |r.content| + |r.padding|) % 8 == 0
  }

  ghost predicate AllAligned(rs: seq<Rec>) {
    forall i :: 0 <= i < |rs| ==> Aligned(rs[i])
  }

  /** The one empty record is the last. */
  ghost predicate EmptyIsLast(rs: seq<Rec>) {
    rs != [] && forall i :: 0 <= i < |rs| ==> (rs[i].content == [] <==> i == |rs| - 1)
  }

  lemma {:induction false} StdinIsAligned(requestId: nat, chunk: bytes)
    requires requestId < 0x1_0000 && |chunk| <= STDIN_CHUNK
    ensures Aligned(StdinRecord(requestId, chunk))
  {
  }

  lemma {:induction false} AllAlignedCons(r: Rec, rs: seq<Rec>)
    requires Aligned(r) && AllAligned(rs)
    ensures AllAligned([r] + rs)
  {
    hide Aligned;
  }

  lemma {:induction false} StdinRecordsAreAligned(requestId: nat, data: bytes)
    requires requestId < 0x1_0000
    ensures AllAligned(StdinRecords(requestId, data))
    decreases |data|
  {
    hide Aligned, StdinRecord;
    StdinIsAligned(requestId, []);
    if |data| > STDIN_CHUNK {
      StdinIsAligned(requestId, data[..STDIN_CHUNK]);
      StdinRecordsAreAligned(requestId, data[STDIN_CHUNK..]);
      AllAlignedCons(StdinRecord(requestId, data[..STDIN_CHUNK]), StdinRecords(requestId, data[STDIN_CHUNK..]));
    } else {
      StdinIsAligned(requestId, data);
    }
  }

  lemma {:induction false} StdinEndsEmpty(requestId: nat, data: bytes)
    ensures EmptyIsLast(StdinRecords(requestId, data))
    decreases |data|
  {
    if |data| > STDIN_CHUNK {
      StdinEndsEmpty(requestId, data[STDIN_CHUNK..]);
      var first, rest := StdinRecord(requestId, data[..STDIN_CHUNK]), StdinRecords(requestId, data[STDIN_CHUNK..]);
      assert forall i :: 0 < i < |rest| + 1 ==> ([first] + rest)[i] == rest[i - 1];
    }
  }

  lemma {:induction false} ContentsCons(r: Rec, rs: seq<Rec>)
    ensures Contents([r] + rs) == r.content + Contents(rs)
  {
    assert ([r] + rs)[1..] == rs;
  }

  lemma {:induction false} StdinCarriesBody(requestId: nat, data: bytes)
    ensures Contents(StdinRecords(requestId, data)) == data
    decreases |data|
  {
    var last := StdinRecord(requestId, []);
    ContentsCons(last, []);
    assert [last] + [] == [last] && [] + [] == Contents([last]);
    if |data| > STDIN_CHUNK {
      StdinCarriesBody(requestId, data[STDIN_CHUNK..]);
      ContentsCons(StdinRecord(requestId, data[..STDIN_CHUNK]), StdinRecords(requestId, data[STDIN_CHUNK..]));
    } else if data != [] {
      ContentsCons(StdinRecord(requestId, data), [last]);
      assert [StdinRecord(requestId, data)] + [last] == StdinRecords(requestId, data) && data + [] == data;
    }
  }

  lemma {:induction false} EncodeSize(r: Rec)
    requires Fits(r)
    ensures |Encode(r)| == 8 + |r.content| + |r.padding|
  {
  }

  lemma {:induction false} AlignedIsEncoded(rs: seq<Rec>)
    requires AllAligned(rs)
    ensures (forall r :: r in rs ==> Fits(r)) && ParseAll(EncodeAll(rs)) == Some(rs)
    ensures forall i :: 0 <= i < |rs| ==> |Encode(rs[i])| % 8 == 0
  {
    hide EncodeAll, Encode, ParseAll;
    forall i | 0 <= i < |rs| ensures |Encode(rs[i])| % 8 == 0 {
      EncodeSize(rs[i]);
    }
    assert forall r :: r in rs ==> Fits(r);
    ParseAllInvertsEncodeAll(rs);
  }

  /** Whatever its length, the body comes back out of the STDIN stream, every record is a
      multiple of 8 bytes, and the one empty record is the last. */
  lemma {:induction false} StdinRoundTrip(requestId: nat, data: bytes)
    requires requestId < 0x1_0000
    ensures var rs := StdinRecords(requestId, data);
      && (forall r :: r in rs ==> Fits(r)) && ParseAll(EncodeAll(rs)) == Some(rs) && Contents(rs) == data
      && (forall i :: 0 <= i < |rs| ==> |Encode(rs[i])| % 8 == 0 && (rs[i].content == [] <==> i == |rs| - 1))
      && |rs| > 0
  {
    hide StdinRecords, AllAligned, Encode, EncodeAll, ParseAll, Contents, Fits;
    StdinRecordsAreAligned(requestId, data);
    AlignedIsEncoded(StdinRecords(requestId, data));
    StdinCarriesBody(requestId, data);
    StdinEndsEmpty(requestId, data);
  }

  /** A blocking socket. Sends may be partial, and may be interrupted as often as the
      script of this run says; a send that fails for good is remembered. */
  class Backend {
    var wire: bytes
    var interruptions: nat
    var broken: bool

    constructor (interruptions: nat)
      ensures wire == [] && !broken
    {
      wire, this.interruptions, broken := [], interruptions, false;
    }

    /** n > 0: taken; n == 0: EINTR or EAGAIN; n < 0: the connection is gone. */
    method Send(data: bytes) returns (n: int)
      requires data != []
      modifies this
      ensures n <= |data| && interruptions <= old(interruptions)
      ensures n == 0 ==> interruptions < old(interruptions)
      ensures wire == old(wire) + (if n > 0 then data[..n] else [])
      ensures broken == (old(broken) || n < 0)
    {
      n :| -1 <= n <= |data| && (n == 0 ==> interruptions > 0);
      if n > 0 {
        wire := wire + data[..n];
      } else if n == 0 {
        interruptions := interruptions - 1;
      } else {
        broken := true;
      }
    }
  }

  /** safe_send_all: everything, or a prefix and a broken connection. */
  method SafeSendAll(sock: Backend, data: bytes) returns (status: int)
    modifies sock
    ensures status == 0 || status == -1
    ensures status == 0 ==> sock.wire == old(sock.wire) + data && sock.broken == old(sock.broken)
    ensures status == -1 ==> sock.broken && old(sock.wire) <= sock.wire <= old(sock.wire) + data
  {
    ghost var before := sock.wire;
    var totalSent := 0;
    while totalSent < |data|
      invariant 0 <= totalSent <= |data|
      invariant sock.wire == before + data[..totalSent] && sock.broken == old(sock.broken)
      decreases |data| - totalSent, sock.interruptions
    {
      var n := sock.Send(data[totalSent..]);
      if n < 0 {
        return -1;
      }
      assert data[..totalSent] + data[totalSent..][..n] == data[..totalSent + n];
      totalSent := totalSent + n;
    }
    assert data[..|data|] == data;
    return 0;
  }

  lemma {:induction false} StdinFits(requestId: nat, data: bytes)
    requires requestId < 0x1_0000
    ensures forall r :: r in StdinRecords(requestId, data) ==> Fits(r)
  {
    hide StdinRecords, Fits;
    StdinRecordsAreAligned(requestId, data);
  }

  lemma {:induction false} StdinUnfolds(requestId: nat, data: bytes, at: nat, chunk: nat)
    requires at < |data| && chunk == if |data| - at > STDIN_CHUNK then STDIN_CHUNK else |data| - at
    ensures StdinRecords(requestId, data[at..]) ==
      [StdinRecord(requestId, data[at..at + chunk])] + StdinRecords(requestId, data[at + chunk..])
  {
    hide StdinRecord;
    var rest, later := data[at..], data[at + chunk..];
    if |rest| > STDIN_CHUNK {
      assert rest[..STDIN_CHUNK] == data[at..at + chunk] && rest[STDIN_CHUNK..] == later;
    } else {
      assert rest == data[at..at + chunk] && later == [];
    }
  }

  lemma {:induction false} EncodeAllCons(wire: bytes, r: Rec, rs: seq<Rec>)
    requires Fits(r) && forall q :: q in rs ==> Fits(q)
    ensures forall q :: q in [r] + rs ==> Fits(q)
    ensures wire + EncodeAll([r] + rs) == wire + Encode(r) + EncodeAll(rs)
  {
    hide Fits, Encode;
    assert ([r] + rs)[1..] == rs;
    ConcatAssociates(wire, Encode(r), EncodeAll(rs));
  }

  lemma {:induction false} LastRecord(requestId: nat)
    requires requestId < 0x1_0000
    ensures forall r :: r in StdinRecords(requestId, []) ==> Fits(r)
    ensures EncodeAll(StdinRecords(requestId, [])) == RecordHead(STDIN, requestId, 0, 0)
  {
    assert [StdinRecord(requestId, [])][1..] == [];
  }

  lemma {:induction false} StdinStep(wire: bytes, requestId: nat, data: bytes, at: nat, chunk: nat)
    requires requestId < 0x1_0000 && at < |data|
    requires chunk == if |data| - at > STDIN_CHUNK then STDIN_CHUNK else |data| - at
    ensures forall r :: r in StdinRecords(requestId, data[at..]) ==> Fits(r)
    ensures forall r :: r in StdinRecords(requestId, data[at + chunk..]) ==> Fits(r)
    ensures var body, pad := data[at..at + chunk], Padding(chunk);
      wire + EncodeAll(StdinRecords(requestId, data[at..]))
        == wire + (RecordHead(STDIN, requestId, chunk, pad) + body + Zeros(pad)) + EncodeAll(StdinRecords(requestId, data[at + chunk..]))
  {
    hide StdinRecords, EncodeAll, Aligned;
    var r := StdinRecord(requestId, data[at..at + chunk]);
    StdinFits(requestId, data[at..]);
    StdinFits(requestId, data[at + chunk..]);
    StdinUnfolds(requestId, data, at, chunk);
    assert r in StdinRecords(requestId, data[at..]);
    EncodeAllCons(wire, r, StdinRecords(requestId, data[at + chunk..]));
  }

  /** fcgi_proto_send_stdin: under any partial and interrupted sends, the records on the
      wire are those of the body, or a prefix of them if the connection broke. */
  method SendStdin(sock: Backend, requestId: nat, data: bytes)
    requires requestId < 0x1_0000 && !sock.broken
    modifies sock
    ensures forall r :: r in StdinRecords(requestId, data) ==> Fits(r)
    ensures old(sock.wire) <= sock.wire <= old(sock.wire) + EncodeAll(StdinRecords(requestId, data))
    ensures !sock.broken ==> sock.wire == old(sock.wire) + EncodeAll(StdinRecords(requestId, data))
  {
    hide Fits, StdinRecords, EncodeAll, StdinRecord;
    StdinFits(requestId, data);
    ghost var goal := sock.wire + EncodeAll(StdinRecords(requestId, data));
    var sentPayload := 0;
    assert data[0..] == data;
    while sentPayload < |data|
      invariant 0 <= sentPayload <= |data| && !sock.broken && old(sock.wire) <= sock.wire
      invariant forall r :: r in StdinRecords(requestId, data[sentPayload..]) ==> Fits(r)
      invariant sock.wire + EncodeAll(StdinRecords(requestId, data[sentPayload..])) == goal
    {
      var left := |data| - sentPayload;
      var chunk := if left > STDIN_CHUNK then STDIN_CHUNK else left;
      var pad := Padding(chunk);
      var body := data[sentPayload..sentPayload + chunk];
      var record := RecordHead(STDIN, requestId, chunk, pad) + body + Zeros(pad);
      StdinStep(sock.wire, requestId, data, sentPayload, chunk);
      var status := SafeSendAll(sock, record);
      if status < 0 {
        return;
      }
      sentPayload := sentPayload + chunk;
    }
    assert data[sentPayload..] == [];
    LastRecord(requestId);
    var status := SafeSendAll(sock, RecordHead(STDIN, requestId, 0, 0));
  }
}
