/** The stream table of an HTTP/2 session: 32 buckets of lists, hashed by stream id. */
module Http2Streams {
  import opened Bytes
  import opened Options

  const BUCKETS: nat := 32
  const CLOSED := 6

  /** `win` is a 32-bit counter; `state` keeps the raw numbers the code writes. */
  datatype Stream = Stream(
    id: nat, win: int, state: int,
    open: bool, sending: bool,      // file_fd >= 0, is_sending_file
    file: bytes, offset: nat,
    fcgi: bool)

  type Table = seq<seq<Stream>>

  /** Fibonacci hashing: the top five bits of the 32-bit product. */
  function Bucket(id: nat): (b: nat)
    ensures b < BUCKETS
  {
    id * 2654435769 % 0x1_0000_0000 / 0x800_0000
  }

  function Index(list: seq<Stream>, id: nat): (i: nat)
    ensures i <= |list|
    ensures i < |list| ==> list[i].id == id
    ensures forall j :: 0 <= j < i ==> list[j].id != id
  {
    if list == [] || list[0].id == id then 0 else 1 + Index(list[1..], id)
  }

  ghost predicate WellFormed(t: Table) {
    && |t| == BUCKETS
    && (forall b, i :: 0 <= b < BUCKETS && 0 <= i < |t[b]| ==> t[b][i].id > 0 && Bucket(t[b][i].id) == b)
    && (forall b, i, j :: 0 <= b < BUCKETS && 0 <= i < j < |t[b]| ==> t[b][i].id != t[b][j].id)
  }

  function Lookup(t: Table, id: nat): (r: Option<Stream>)
    requires |t| == BUCKETS
    ensures r.Some? ==> r.value.id == id && id > 0
  {
    var list := t[Bucket(id)];
    var i := Index(list, id);
    if id > 0 && i < |list| then Some(list[i]) else None
  }

  /** Replaces the stream with that id. */
  function Put(t: Table, st: Stream): Table
    requires |t| == BUCKETS && Lookup(t, st.id).Some?
  {
    var b := Bucket(st.id);
    t[b := t[b][Index(t[b], st.id) := st]]
  }

  function Add(t: Table, st: Stream): Table
    requires |t| == BUCKETS
  {
    var b := Bucket(st.id);
    t[b := [st] + t[b]]
  }

  // ----- The table refines a map from stream id to one stream

  lemma {:induction false} FoundOnce(t: Table, b: nat, i: nat)
    requires WellFormed(t) && b < BUCKETS && i < |t[b]|
    ensures Lookup(t, t[b][i].id) == Some(t[b][i])
    ensures Index(t[b], t[b][i].id) == i
  {
  }

  lemma {:induction false} LookupPut(t: Table, st: Stream, id: nat)
    requires WellFormed(t) && Lookup(t, st.id).Some?
    ensures WellFormed(Put(t, st))
    ensures Lookup(Put(t, st), id) == if id == st.id then Some(st) else Lookup(t, id)
  {
    var b := Bucket(st.id);
    var i := Index(t[b], st.id);
    var t': Table := Put(t, st);
    assert forall c: int, j: int :: 0 <= c < BUCKETS && 0 <= j < |t'[c]| ==> t'[c][j].id == t[c][j].id;
    assert WellFormed(t');
    var j := Index(t[Bucket(id)], id);
    if id > 0 && j < |t[Bucket(id)]| {
      FoundOnce(t', Bucket(id), j);
    }
  }

  lemma {:induction false} LookupAdd(t: Table, st: Stream, id: nat)
    requires WellFormed(t) && st.id > 0 && Lookup(t, st.id).None?
    ensures WellFormed(Add(t, st))
    ensures Lookup(Add(t, st), id) == if id == st.id then Some(st) else Lookup(t, id)
  {
    var b := Bucket(st.id);
    var t': Table := Add(t, st);
    var i := Index(t[b], st.id);
    assert i == |t[b]|;
    assert forall c: int :: 0 <= c < BUCKETS && c != b ==> t'[c] == t[c];
    assert t'[b][1..] == t[b];
    forall c, i | 0 <= c < BUCKETS && 0 <= i < |t'[c]| ensures t'[c][i].id > 0 && Bucket(t'[c][i].id) == c {
      if c == b && i > 0 {
        assert t'[b][i] == t[b][i - 1];
      }
    }
    forall i, j | 0 <= i < j < |t'[b]| ensures t'[b][i].id != t'[b][j].id {
      assert t'[b][j] == t[b][j - 1];
    }
  }

  /** Every stream changed in place, none moved. */
  ghost predicate Pointwise(t: Table, t': Table, f: Stream -> Stream) {
    && |t| == |t'| == BUCKETS
    && (forall b :: 0 <= b < BUCKETS ==> |t'[b]| == |t[b]|)
    && (forall b, i :: 0 <= b < BUCKETS && 0 <= i < |t[b]| ==> t'[b][i] == f(t[b][i]))
  }

  lemma {:induction false} LookupPointwise(t: Table, t': Table, f: Stream -> Stream, id: nat)
    requires WellFormed(t) && Pointwise(t, t', f)
    requires forall st: Stream :: f(st).id == st.id
    ensures WellFormed(t')
    ensures Lookup(t', id) == if Lookup(t, id).Some? then Some(f(Lookup(t, id).value)) else None
  {
    assert forall c: int, j: int :: 0 <= c < BUCKETS && 0 <= j < |t'[c]| ==> t'[c][j].id == t[c][j].id;
    assert WellFormed(t');
    var b := Bucket(id);
    var j := Index(t[b], id);
    if id > 0 && j < |t[b]| {
      FoundOnce(t', b, j);
    } else if id > 0 {
      assert forall k: int :: 0 <= k < |t[b]| ==> t[b][k].id != id;
    }
  }
}
