/** The nibble-driven Huffman decoder (section 5.2 of RFC 7541), for any code and any table
    whose entries are four bit-steps of the code's tree. */
module Huffman {
  import opened Bytes

  type Bits = seq<bool>

  /** A prefix code: symbols and the end-of-string word at the leaves. */
  datatype Tree = Leaf(symbol: byte) | Eos | Node(zero: Tree, one: Tree)

  // ----- The bit-by-bit decoder

  /** Where the decoder is: inside the tree, or past an end-of-string word. */
  datatype Place = At(tree: Tree) | Dead

  function Turn(root: Tree, at: Place, bit: bool): (Place, bytes) {
    match at
    case At(Node(zero, one)) =>
      var child := if bit then one else zero;
      if child.Leaf? then (At(root), [child.symbol])
      else if child.Eos? then (Dead, [])
      else (At(child), [])
    case _ => (Dead, [])
  }

  /** The place reached and the symbols met on the way. */
  function Walk(root: Tree, at: Place, bits: Bits): (Place, bytes)
    decreases |bits|
  {
    if bits == [] then (at, [])
    else
      var (next, first) := Turn(root, at, bits[0]);
      var (end, rest) := Walk(root, next, bits[1..]);
      (end, first + rest)
  }

  lemma {:induction false} WalkAppends(root: Tree, at: Place, a: Bits, b: Bits)
    ensures var (mid, first) := Walk(root, at, a);
      Walk(root, at, a + b) == (Walk(root, mid, b).0, first + Walk(root, mid, b).1)
    decreases |a|
  {
    if a == [] {
      assert a + b == b && [] + Walk(root, at, b).1 == Walk(root, at, b).1;
    } else {
      var (next, first) := Turn(root, at, a[0]);
      WalkAppends(root, next, a[1..], b);
      assert (a + b)[1..] == a[1..] + b;
      var (mid, more) := Walk(root, next, a[1..]);
      assert first + (more + Walk(root, mid, b).1) == (first + more) + Walk(root, mid, b).1;
    }
  }

  // ----- The table

  function Nibble(n: nat): Bits {
    [n / 8 % 2 == 1, n / 4 % 2 == 1, n / 2 % 2 == 1, n % 2 == 1]
  }

  function Octet(b: byte): Bits {
    Nibble(b / 16) + Nibble(b % 16)
  }

  function BitsOf(src: bytes): Bits {
    if src == [] then [] else Octet(src[0]) + BitsOf(src[1..])
  }

  datatype Entry = Entry(fstate: nat, emits: bool, symbol: byte)

  ghost predicate Agrees(e: Entry, places: seq<Place>, walked: (Place, bytes)) {
    && e.fstate < |places| && places[e.fstate] == walked.0
    && (e.emits <==> walked.1 != []) && (e.emits ==> e.symbol == walked.1[0])
  }

  /** Every entry of the table is four steps of the walk; `places` says what its rows are. */
  ghost predicate Realizes(table: seq<seq<Entry>>, places: seq<Place>, root: Tree) {
    && |table| == |places| > 0 && places[0] == At(root)
    && (forall s | 0 <= s < |table| :: |table[s]| == 16)
    && (forall s, n {:trigger table[s][n]} | 0 <= s < |table| && 0 <= n < 16 ::
          Agrees(table[s][n], places, Walk(root, places[s], Nibble(n))))
  }

  /** No word is shorter than `n` bits. */
  predicate Deep(t: Tree, n: nat) {
    n == 0 || (t.Node? && Deep(t.zero, n - 1) && Deep(t.one, n - 1))
  }

  ghost predicate LongWords(root: Tree) {
    exists n :: n >= 5 && Deep(root, n)
  }

  lemma {:induction false} DeepIsDeeper(t: Tree, n: nat, m: nat)
    requires Deep(t, n) && m <= n
    ensures Deep(t, m)
  {
    if m > 0 {
      DeepIsDeeper(t.zero, n - 1, m - 1);
      DeepIsDeeper(t.one, n - 1, m - 1);
    }
  }

  /** Inside the top of the tree nothing is emitted. */
  lemma {:induction false} TopIsSilent(root: Tree, t: Tree, bits: Bits)
    requires Deep(t, |bits| + 1)
    ensures Walk(root, At(t), bits).1 == []
  {
    if bits != [] {
      TopIsSilent(root, if bits[0] then t.one else t.zero, bits[1..]);
    }
  }

  /** With words of at least five bits, four bits emit at most one symbol. */
  lemma {:induction false} OneSymbolAtMost(root: Tree, at: Place, bits: Bits)
    requires LongWords(root) && |bits| <= 4
    ensures |Walk(root, at, bits).1| <= 1
    decreases |bits|
  {
    if bits != [] {
      var (next, first) := Turn(root, at, bits[0]);
      OneSymbolAtMost(root, next, bits[1..]);
      if first != [] {
        var n :| n >= 5 && Deep(root, n);
        DeepIsDeeper(root, n, |bits|);
        TopIsSilent(root, root, bits[1..]);
      }
    }
  }

  // ----- The decoder

  /** Everything a string decodes to, bit by bit. */
  function Decoded(root: Tree, src: bytes): bytes {
    Walk(root, At(root), BitsOf(src)).1
  }

  function Emitted(e: Entry): bytes {
    if e.emits then [e.symbol] else []
  }

  /** An entry stands for four steps. */
  lemma {:induction false} EntryIsWalk(table: seq<seq<Entry>>, places: seq<Place>, root: Tree, s: nat, n: nat)
    requires Realizes(table, places, root) && LongWords(root) && s < |table| && n < 16
    ensures |table[s]| == 16 && table[s][n].fstate < |table|
    ensures Walk(root, places[s], Nibble(n)) == (places[table[s][n].fstate], Emitted(table[s][n]))
  {
    OneSymbolAtMost(root, places[s], Nibble(n));
    assert Agrees(table[s][n], places, Walk(root, places[s], Nibble(n)));
    var walked := Walk(root, places[s], Nibble(n));
    assert walked.1 != [] ==> walked.1 == [walked.1[0]];
  }

  /** Two entries stand for the eight steps of a byte. */
  lemma {:induction false} EntriesAreWalk(table: seq<seq<Entry>>, places: seq<Place>, root: Tree, s: nat, b: byte)
    requires Realizes(table, places, root) && LongWords(root) && s < |table|
    ensures |table[s]| == 16
    ensures var t1 := table[s][b / 16];
      t1.fstate < |table| && |table[t1.fstate]| == 16 &&
      var t2 := table[t1.fstate][b % 16];
      t2.fstate < |table| && Walk(root, places[s], Octet(b)) == (places[t2.fstate], Emitted(t1) + Emitted(t2))
  {
    EntryIsWalk(table, places, root, s, b / 16);
    var t1 := table[s][b / 16];
    EntryIsWalk(table, places, root, t1.fstate, b % 16);
    WalkAppends(root, places[s], Nibble(b / 16), Nibble(b % 16));
  }

  class Output {
    const buffer: array<byte>
    var length: nat

    ghost predicate Valid()
      reads this
    {
      length < buffer.Length
    }

    constructor (buffer: array<byte>)
      requires buffer.Length > 0
      ensures Valid() && this.buffer == buffer && length == 0
    {
      this.buffer, length := buffer, 0;
    }

    /** The half of the loop body that handles one entry. */
    method Put(t: Entry) returns (ok: bool)
      requires Valid()
      modifies this, buffer
      ensures Valid() && (ok <==> old(length) + |Emitted(t)| < buffer.Length)
      ensures ok ==> buffer[..length] == old(buffer[..length]) + Emitted(t)
    {
      if t.emits {
        if length + 1 >= buffer.Length {
          return false;
        }
        buffer[length] := t.symbol;
        length := length + 1;
      }
      return true;
    }

    /** The loop body. */
    method Take(t1: Entry, t2: Entry) returns (ok: bool)
      requires Valid()
      modifies this, buffer
      ensures Valid() && (ok <==> old(length) + |Emitted(t1) + Emitted(t2)| < buffer.Length)
      ensures ok ==> buffer[..length] == old(buffer[..length]) + (Emitted(t1) + Emitted(t2))
    {
      ghost var before := buffer[..length];
      ok := Put(t1);
      if ok {
        ok := Put(t2);
        assert before + Emitted(t1) + Emitted(t2) == before + (Emitted(t1) + Emitted(t2));
      }
    }
  }

  /** What is still to come at byte `i`. */
  ghost function ToCome(root: Tree, at: Place, src: bytes, i: nat): bytes
    requires i <= |src|
  {
    Walk(root, at, BitsOf(src[i..])).1
  }

  lemma {:induction false} ByteThenRest(table: seq<seq<Entry>>, places: seq<Place>, root: Tree, s: nat, src: bytes, i: nat, before: bytes)
    requires Realizes(table, places, root) && LongWords(root) && s < |table| && i < |src|
    ensures |table[s]| == 16
    ensures var t1 := table[s][src[i] / 16];
      t1.fstate < |table| && |table[t1.fstate]| == 16 &&
      var t2 := table[t1.fstate][src[i] % 16];
      t2.fstate < |table| && before + ToCome(root, places[s], src, i)
        == before + (Emitted(t1) + Emitted(t2)) + ToCome(root, places[t2.fstate], src, i + 1)
  {
    EntriesAreWalk(table, places, root, s, src[i]);
    var rest := BitsOf(src[i + 1..]);
    assert src[i..][1..] == src[i + 1..];
    WalkAppends(root, places[s], Octet(src[i]), rest);
    var (end, out) := Walk(root, places[s], Octet(src[i]));
    assert before + (out + Walk(root, end, rest).1) == before + out + Walk(root, end, rest).1;
  }

  /** http2_huffman_decode: for every input, exactly the bit-by-bit walk, as long as what it
      emits leaves room for the final NUL. */
  method Decode(table: seq<seq<Entry>>, src: bytes, dest: array<byte>, ghost places: seq<Place>, ghost root: Tree)
      returns (ok: bool)
    requires Realizes(table, places, root) && LongWords(root)
    modifies dest
    ensures ok <==> src != [] && |Decoded(root, src)| < dest.Length
    ensures ok ==> dest[..|Decoded(root, src)|] == Decoded(root, src) && dest[|Decoded(root, src)|] == 0
  {
    if |src| == 0 || dest.Length == 0 {
      return false;
    }
    var out := new Output(dest);
    var state := 0;
    ghost var whole := Decoded(root, src);
    assert src[0..] == src && dest[..0] + whole == whole;
    for i := 0 to |src|
      invariant out.Valid() && out.buffer == dest && fresh(out) && 0 <= state < |table|
      invariant dest[..out.length] + ToCome(root, places[state], src, i) == whole
    {
      ByteThenRest(table, places, root, state, src, i, dest[..out.length]);
      var t1 := table[state][src[i] / 16];
      var t2 := table[t1.fstate][src[i] % 16];
      ok := out.Take(t1, t2);
      if !ok {
        return;
      }
      state := t2.fstate;
    }
    assert src[|src|..] == [] && dest[..out.length] + [] == dest[..out.length];
    dest[out.length] := 0;
    return true;
  }

  // ----- Encoding

  /** The subtree a word leads to. */
  function Descend(t: Tree, word: Bits): Tree {
    if word == [] || !t.Node? then t else Descend(if word[0] then t.one else t.zero, word[1..])
  }

  predicate Reaches(t: Tree, word: Bits, leaf: Tree) {
    if word == [] then t == leaf else t.Node? && Reaches(if word[0] then t.one else t.zero, word[1..], leaf)
  }

  /** Each word leads to its symbol, and not through another leaf. */
  ghost predicate Codes(code: byte -> Bits, root: Tree) {
    forall s: byte :: Reaches(root, code(s), Leaf(s))
  }

  function EncodeBits(code: byte -> Bits, text: bytes): Bits {
    if text == [] then [] else code(text[0]) + EncodeBits(code, text[1..])
  }

  function Ones(n: nat): (w: Bits)
    ensures |w| == n && forall i :: 0 <= i < n ==> w[i]
  {
    if n == 0 then [] else [true] + Ones(n - 1)
  }

  lemma {:induction false} WordEmitsSymbol(root: Tree, t: Tree, word: Bits, symbol: byte)
    requires word != [] && Reaches(t, word, Leaf(symbol))
    ensures Walk(root, At(t), word) == (At(root), [symbol])
  {
    var child := if word[0] then t.one else t.zero;
    var rest := word[1..];
    assert t.Node? && Reaches(child, rest, Leaf(symbol));
    if |word| == 1 {
      assert Walk(root, At(root), rest) == (At(root), []) && [symbol] + [] == [symbol];
    } else {
      assert child.Node?;
      WordEmitsSymbol(root, child, rest, symbol);
      assert [] + [symbol] == [symbol];
    }
  }

  lemma {:induction false} TextIsEmitted(root: Tree, code: byte -> Bits, text: bytes, more: Bits)
    requires Codes(code, root) && root.Node?
    ensures Walk(root, At(root), EncodeBits(code, text) + more) ==
      (Walk(root, At(root), more).0, text + Walk(root, At(root), more).1)
  {
    if text == [] {
      assert [] + more == more && [] + Walk(root, At(root), more).1 == Walk(root, At(root), more).1;
    } else {
      var word, rest := code(text[0]), EncodeBits(code, text[1..]);
      assert Reaches(root, word, Leaf(text[0]));
      WordEmitsSymbol(root, root, word, text[0]);
      assert EncodeBits(code, text) + more == word + (rest + more);
      WalkAppends(root, At(root), word, rest + more);
      TextIsEmitted(root, code, text[1..], more);
      assert [text[0]] + (text[1..] + Walk(root, At(root), more).1) == text + Walk(root, At(root), more).1;
    }
  }

  /** A proper prefix of the end-of-string word emits nothing. */
  lemma {:induction false} PaddingIsSilent(root: Tree, t: Tree, k: nat, n: nat)
    requires k < n && Reaches(t, Ones(n), Eos)
    ensures Walk(root, At(t), Ones(k)).1 == []
  {
    if k > 0 {
      assert Ones(n)[1..] == Ones(n - 1) && Ones(k)[1..] == Ones(k - 1);
      PaddingIsSilent(root, t.one, k - 1, n - 1);
      assert t.one.Node?;
    }
  }

  function Value(bit: bool): nat {
    if bit then 1 else 0
  }

  function Half(b: Bits): (n: nat)
    requires |b| == 4
    ensures n < 16
  {
    8 * Value(b[0]) + 4 * Value(b[1]) + 2 * Value(b[2]) + Value(b[3])
  }

  function Packed(b: Bits): byte
    requires |b| == 8
  {
    Half(b[..4]) * 16 + Half(b[4..])
  }

  /** Bits packed eight to a byte. */
  function Pack(bits: Bits): bytes
    requires |bits| % 8 == 0
    decreases |bits|
  {
    if bits == [] then [] else [Packed(bits[..8])] + Pack(bits[8..])
  }

  lemma {:induction false} HalfIsNibble(b: Bits)
    requires |b| == 4
    ensures Nibble(Half(b)) == b
  {
  }

  lemma {:induction false} PackedIsOctet(b: Bits)
    requires |b| == 8
    ensures Octet(Packed(b)) == b
  {
    var hi, lo := Half(b[..4]), Half(b[4..]);
    assert Packed(b) / 16 == hi && Packed(b) % 16 == lo;
    HalfIsNibble(b[..4]);
    HalfIsNibble(b[4..]);
    assert b == b[..4] + b[4..];
  }

  lemma {:induction false} PackedFirst(b: byte, rest: bytes)
    ensures BitsOf([b] + rest) == Octet(b) + BitsOf(rest)
  {
    assert ([b] + rest)[1..] == rest;
  }

  lemma {:induction false} PackKeepsBits(bits: Bits)
    requires |bits| % 8 == 0
    ensures BitsOf(Pack(bits)) == bits
    decreases |bits|
  {
    if bits != [] {
      PackedIsOctet(bits[..8]);
      PackKeepsBits(bits[8..]);
      PackedFirst(Packed(bits[..8]), Pack(bits[8..]));
      assert bits == bits[..8] + bits[8..];
    }
  }

  /** The encoding of a text: its words, padded with the start of the end-of-string word. */
  function EncodeText(code: byte -> Bits, text: bytes): bytes {
    var bits := EncodeBits(code, text);
    Pack(bits + Ones((8 - |bits| % 8) % 8))
  }

  /** Decoding inverts encoding, for every code whose end-of-string word is eight or more
      one-bits. With Decode: any text that fits the buffer comes back. */
  lemma {:induction false} DecodedInvertsEncode(root: Tree, code: byte -> Bits, text: bytes, eos: nat)
    requires root.Node? && Codes(code, root) && eos >= 8 && Reaches(root, Ones(eos), Eos)
    ensures Decoded(root, EncodeText(code, text)) == text
    ensures text != [] ==> EncodeText(code, text) != []
  {
    var bits := EncodeBits(code, text);
    var pad := (8 - |bits| % 8) % 8;
    PackKeepsBits(bits + Ones(pad));
    TextIsEmitted(root, code, text, Ones(pad));
    PaddingIsSilent(root, root, pad, eos);
    assert text + [] == text;
  }
}
