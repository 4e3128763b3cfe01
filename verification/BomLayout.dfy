// The byte layout of a BOM file (Libraries/libbom/Headers/bom/bom_format.h): a header, the index table, the variable
// table and the data blocks, all in one buffer. Multi-byte fields are big-endian.
module BomLayouts {
  import opened Bytes
  import opened Wrappers

  const HEADER_SIZE := 32
  const BLOCK_COUNT := 12
  const INDEX_OFFSET := 16
  const INDEX_LENGTH := 20
  const VARIABLES_OFFSET := 24
  const TRAILER_LENGTH := 28
  const INDEX_HEADER := 4
  const INDEX_ENTRY := 8
  const VARIABLES_HEADER := 4
  const VARIABLE_HEADER := 5

  // ----- Fields in a buffer -----

  function U32(d: ByteString, o: nat): uint32
    requires o + 4 <= |d|
  {
    FromBe32(d[o..o + 4])
  }

  function Put(d: ByteString, o: nat, bytes: ByteString): (r: ByteString)
    requires o + |bytes| <= |d|
    ensures |r| == |d|
  {
    d[..o] + bytes + d[o + |bytes|..]
  }

  lemma PutSame(d: ByteString, o: nat, bytes: ByteString)
    requires o + |bytes| <= |d|
    ensures Put(d, o, bytes)[o..o + |bytes|] == bytes
  {
  }

  // Bytes outside the written range keep their value.
  lemma PutOther(d: ByteString, o: nat, bytes: ByteString, a: nat, b: nat)
    requires o + |bytes| <= |d| && a <= b <= |d|
    requires b <= o || o + |bytes| <= a
    ensures Put(d, o, bytes)[a..b] == d[a..b]
  {
    var r := Put(d, o, bytes);
    forall i | a <= i < b
      ensures r[i] == d[i]
    {
    }
  }

  lemma PutTail(d: ByteString, o: nat, bytes: ByteString, a: nat)
    requires o + |bytes| <= a <= |d|
    ensures Put(d, o, bytes)[a..] == d[a..]
  {
    PutOther(d, o, bytes, a, |d|);
    assert Put(d, o, bytes)[a..] == Put(d, o, bytes)[a..|d|];
    assert d[a..] == d[a..|d|];
  }

  lemma PutField(d: ByteString, o: nat, n: uint32)
    requires o + 4 <= |d|
    ensures U32(Put(d, o, Be32(n)), o) == n
  {
    PutSame(d, o, Be32(n));
    Be32RoundTrip(n);
  }

  // The bytes before the first offset: magic number, version, and the number of useful blocks.
  function Preamble(d: ByteString): ByteString {
    if |d| >= INDEX_OFFSET then d[..INDEX_OFFSET] else d
  }

  // Of these, all but the number of blocks.
  function Signature(d: ByteString): ByteString {
    if |d| >= INDEX_OFFSET then d[..BLOCK_COUNT] else d
  }

  lemma SamePreamble(d: ByteString, f: ByteString)
    requires Preamble(d) == Preamble(f) && |d| >= INDEX_OFFSET && |f| >= INDEX_OFFSET
    ensures Signature(d) == Signature(f) && U32(d, BLOCK_COUNT) == U32(f, BLOCK_COUNT)
  {
    assert d[..BLOCK_COUNT] == Preamble(d)[..BLOCK_COUNT];
    assert f[..BLOCK_COUNT] == Preamble(f)[..BLOCK_COUNT];
    assert d[BLOCK_COUNT..BLOCK_COUNT + 4] == Preamble(d)[BLOCK_COUNT..];
    assert f[BLOCK_COUNT..BLOCK_COUNT + 4] == Preamble(f)[BLOCK_COUNT..];
  }

  lemma PreambleOther(d: ByteString, o: nat, bytes: ByteString)
    requires INDEX_OFFSET <= o && o + |bytes| <= |d|
    ensures Preamble(Put(d, o, bytes)) == Preamble(d)
  {
    PutOther(d, o, bytes, 0, INDEX_OFFSET);
    assert Put(d, o, bytes)[..INDEX_OFFSET] == Put(d, o, bytes)[0..INDEX_OFFSET];
    assert d[..INDEX_OFFSET] == d[0..INDEX_OFFSET];
  }

  lemma PreamblePrefix(r: ByteString, u: ByteString, point: nat)
    requires INDEX_OFFSET <= point <= |u| && point <= |r| && r[..point] == u[..point]
    ensures Preamble(r) == Preamble(u)
  {
    assert r[..INDEX_OFFSET] == r[..point][..INDEX_OFFSET];
    assert u[..INDEX_OFFSET] == u[..point][..INDEX_OFFSET];
  }

  // A sub-range of equal ranges is equal.
  lemma SubRange(d: ByteString, a: nat, b: nat, d': ByteString, a': nat, b': nat, from: nat, to: nat)
    requires a <= b <= |d| && a' <= b' <= |d'| && d[a..b] == d'[a'..b']
    requires from <= to <= b - a
    ensures d[a + from..a + to] == d'[a' + from..a' + to]
  {
    SliceOfSlice(d, a, b, from, to);
    SliceOfSlice(d', a', b', from, to);
  }

  lemma SubField(d: ByteString, a: nat, b: nat, d': ByteString, a': nat, b': nat, from: nat)
    requires a <= b <= |d| && a' <= b' <= |d'| && d[a..b] == d'[a'..b']
    requires from + 4 <= b - a
    ensures U32(d, a + from) == U32(d', a' + from)
  {
    SubRange(d, a, b, d', a', b', from, from + 4);
  }

  // A run of fields.
  function FieldRun(fields: seq<uint32>): (r: ByteString)
    ensures |r| == 4 * |fields|
  {
    if fields == [] then [] else Be32(fields[0]) + FieldRun(fields[1..])
  }

  lemma {:induction false} FieldOfRun(before: ByteString, fields: seq<uint32>, i: nat)
    requires i < |fields|
    ensures U32(before + FieldRun(fields), |before| + 4 * i) == fields[i]
    decreases |fields|
  {
    if i == 0 {
      assert (before + FieldRun(fields))[|before|..|before| + 4] == Be32(fields[0]);
      Be32RoundTrip(fields[0]);
    } else {
      assert before + FieldRun(fields) == (before + Be32(fields[0])) + FieldRun(fields[1..]);
      FieldOfRun(before + Be32(fields[0]), fields[1..], i - 1);
    }
  }

  // ----- The index -----

  datatype Entry = Entry(address: uint32, length: uint32)

  function EntryAt(d: ByteString, indexOffset: nat, i: nat): Entry
    requires indexOffset + INDEX_HEADER + INDEX_ENTRY * (i + 1) <= |d|
  {
    var at := indexOffset + INDEX_HEADER + INDEX_ENTRY * i;
    Entry(U32(d, at), U32(d, at + 4))
  }

  function EntriesOf(d: ByteString, indexOffset: nat, count: nat): (r: seq<Entry>)
    requires indexOffset + INDEX_HEADER + INDEX_ENTRY * count <= |d|
    ensures |r| == count
  {
    seq(count, i requires 0 <= i < count => EntryAt(d, indexOffset, i))
  }

  datatype Layout = Layout(
    indexOffset: uint32,
    indexLength: uint32,
    variablesOffset: uint32,
    trailerLength: uint32,
    entries: seq<Entry>,
    variableCount: uint32)
  {
    // The end of the used part of the index table.
    function IndexEnd(): nat {
      indexOffset + INDEX_HEADER + INDEX_ENTRY * |entries|
    }

    // Where the data blocks may begin.
    function DataStart(): nat {
      variablesOffset + trailerLength
    }
  }

  predicate FieldsFit(d: ByteString) {
    && |d| >= HEADER_SIZE
    && HEADER_SIZE <= U32(d, INDEX_OFFSET)
    && U32(d, INDEX_OFFSET) + INDEX_HEADER <= |d|
    && U32(d, INDEX_OFFSET) + INDEX_HEADER + INDEX_ENTRY * U32(d, U32(d, INDEX_OFFSET)) <= |d|
    && U32(d, VARIABLES_OFFSET) + VARIABLES_HEADER <= |d|
  }

  function LayoutOf(d: ByteString): Layout
    requires FieldsFit(d)
  {
    var indexOffset := U32(d, INDEX_OFFSET);
    var variablesOffset := U32(d, VARIABLES_OFFSET);
    Layout(indexOffset, U32(d, INDEX_LENGTH), variablesOffset, U32(d, TRAILER_LENGTH),
           EntriesOf(d, indexOffset, U32(d, indexOffset)), U32(d, variablesOffset))
  }

  // Blocks share no byte.
  predicate Disjoint(e: Entry, f: Entry) {
    e.length == 0 || f.length == 0 || e.address + e.length <= f.address || f.address + f.length <= e.address
  }

  // An entry on the free list, or one whose block lies between the variables and the end of the buffer.
  predicate EntrySound(e: Entry, dataStart: nat, size: nat) {
    e == Entry(0, 0) || (dataStart <= e.address && e.address + e.length <= size)
  }

  // Header, index, variables and blocks follow one another, in bounds and without overlap; the index area keeps room
  // for two dummy entries behind the used ones.
  ghost predicate Sound(l: Layout, size: nat) {
    && HEADER_SIZE <= l.indexOffset
    && l.indexOffset + l.indexLength == l.variablesOffset
    && l.IndexEnd() + 2 * INDEX_ENTRY <= l.variablesOffset
    && VARIABLES_HEADER <= l.trailerLength
    && l.DataStart() <= size < 0x1_0000_0000
    && (forall i :: 0 <= i < |l.entries| ==> EntrySound(l.entries[i], l.DataStart(), size))
    && (forall i, j :: 0 <= i < j < |l.entries| ==> Disjoint(l.entries[i], l.entries[j]))
  }

  function BlockOf(d: ByteString, e: Entry): ByteString {
    if e.address + e.length <= |d| then d[e.address..e.address + e.length] else []
  }

  function BlocksOf(d: ByteString, entries: seq<Entry>): (r: seq<ByteString>)
    ensures |r| == |entries|
  {
    seq(|entries|, i requires 0 <= i < |entries| => BlockOf(d, entries[i]))
  }

  // ----- The variables -----

  datatype Variable = Variable(index: uint32, name: ByteString)

  // The bytes taken by the first n variables at the start of s, if they fit.
  function VariablesSpan(s: ByteString, n: nat): (r: Option<nat>)
    ensures r.Some? ==> r.value <= |s|
  {
    if n == 0 then Some(0)
    else match VariablesSpan(s, n - 1)
      case None => None
      case Some(p) =>
        if p + VARIABLE_HEADER <= |s| && p + VARIABLE_HEADER + s[p + 4] <= |s| then Some(p + VARIABLE_HEADER + s[p + 4])
        else None
  }

  function VariableAt(s: ByteString, p: nat): Variable
    requires p + VARIABLE_HEADER <= |s| && p + VARIABLE_HEADER + s[p + 4] <= |s|
  {
    Variable(U32(s, p), s[p + VARIABLE_HEADER..p + VARIABLE_HEADER + s[p + 4]])
  }

  function VariablesIn(s: ByteString, n: nat): (r: seq<Variable>)
    requires VariablesSpan(s, n).Some?
    ensures |r| == n
  {
    if n == 0 then [] else VariablesIn(s, n - 1) + [VariableAt(s, VariablesSpan(s, n - 1).value)]
  }

  lemma {:induction false} SpanGrows(s: ByteString, n: nat)
    requires n > 0 && VariablesSpan(s, n).Some?
    ensures VariablesSpan(s, n - 1).Some?
    ensures VariablesSpan(s, n - 1).value + VARIABLE_HEADER <= VariablesSpan(s, n).value
  {
  }

  // The variables depend on nothing behind their span.
  lemma {:induction false} VariablesPrefix(s: ByteString, t: ByteString, n: nat)
    requires VariablesSpan(s, n).Some? && VariablesSpan(s, n).value <= |t|
    requires var p := VariablesSpan(s, n).value; t[..p] == s[..p]
    ensures VariablesSpan(t, n) == VariablesSpan(s, n)
    ensures VariablesIn(t, n) == VariablesIn(s, n)
  {
    if n > 0 {
      SpanGrows(s, n);
      var q := VariablesSpan(s, n - 1).value;
      var p := VariablesSpan(s, n).value;
      VariableSame(s, t, p, q);
      VariablesPrefix(s, t, n - 1);
    }
  }

  lemma VariableSame(s: ByteString, t: ByteString, p: nat, q: nat)
    requires q + VARIABLE_HEADER <= p <= |s| && p <= |t| && t[..p] == s[..p]
    requires p == q + VARIABLE_HEADER + s[q + 4]
    ensures t[..q] == s[..q] && t[q + 4] == s[q + 4]
    ensures VariableAt(t, q) == VariableAt(s, q)
  {
    SubRange(t, 0, p, s, 0, p, 0, q);
    assert t[q + 4] == t[..p][q + 4] == s[..p][q + 4] == s[q + 4];
    SubRange(t, 0, p, s, 0, p, q, q + 4);
    SubRange(t, 0, p, s, 0, p, q + VARIABLE_HEADER, p);
  }

  // The i-th variable starts where the first i end.
  lemma {:induction false} NthVariable(s: ByteString, n: nat, i: nat)
    requires VariablesSpan(s, n).Some? && i < n
    ensures VariablesSpan(s, i).Some?
    ensures var p := VariablesSpan(s, i).value;
            && p + VARIABLE_HEADER <= |s| && p + VARIABLE_HEADER + s[p + 4] <= |s|
            && VariablesIn(s, n)[i] == VariableAt(s, p)
            && VariablesSpan(s, i + 1) == Some(p + VARIABLE_HEADER + s[p + 4])
    decreases n
  {
    hide VariableAt;
    if i < n - 1 {
      NthVariable(s, n - 1, i);
    }
  }

  lemma {:induction false} SpanAtLeast(s: ByteString, n: nat)
    requires VariablesSpan(s, n).Some?
    ensures VARIABLE_HEADER * n <= VariablesSpan(s, n).value
  {
    if n > 0 {
      SpanGrows(s, n);
      SpanAtLeast(s, n - 1);
    }
  }

  function VariableBytes(v: Variable): (r: ByteString)
    requires |v.name| < 0x100
    ensures |r| == VARIABLE_HEADER + |v.name|
  {
    Be32(v.index) + [|v.name|] + v.name
  }

  // A variable written right behind the span of the others is the last in the list.
  lemma VariablesAppend(s: ByteString, t: ByteString, n: nat, v: Variable)
    requires VariablesSpan(s, n).Some? && |v.name| < 0x100
    requires var p := VariablesSpan(s, n).value;
             && p + VARIABLE_HEADER + |v.name| <= |t|
             && t[..p] == s[..p]
             && t[p..p + VARIABLE_HEADER + |v.name|] == VariableBytes(v)
    ensures VariablesSpan(t, n + 1) == Some(VariablesSpan(s, n).value + VARIABLE_HEADER + |v.name|)
    ensures VariablesIn(t, n + 1) == VariablesIn(s, n) + [v]
  {
    hide VariableAt, VariableBytes;
    VariablesPrefix(s, t, n);
    VariableReadsBack(t, VariablesSpan(s, n).value, v);
  }

  lemma VariableReadsBack(t: ByteString, p: nat, v: Variable)
    requires |v.name| < 0x100 && p + VARIABLE_HEADER + |v.name| <= |t|
    requires t[p..p + VARIABLE_HEADER + |v.name|] == VariableBytes(v)
    ensures t[p + 4] == |v.name| && VariableAt(t, p) == v
  {
    var w := VariableBytes(v);
    var end := p + VARIABLE_HEADER + |v.name|;
    assert t[p + 4] == t[p..end][4] == w[4];
    SliceOfSlice(t, p, end, 0, 4);
    assert w[0..4] == Be32(v.index);
    SliceOfSlice(t, p, end, VARIABLE_HEADER, VARIABLE_HEADER + |v.name|);
    assert w[VARIABLE_HEADER..VARIABLE_HEADER + |v.name|] == v.name;
    Be32RoundTrip(v.index);
  }

  // ----- A valid buffer and its meaning -----

  function VariablesArea(d: ByteString, l: Layout): ByteString
    requires VARIABLES_HEADER <= l.trailerLength && l.DataStart() <= |d|
  {
    d[l.variablesOffset + VARIABLES_HEADER..l.DataStart()]
  }

  ghost predicate ValidBuffer(d: ByteString) {
    && FieldsFit(d)
    && var l := LayoutOf(d);
       && Sound(l, |d|)
       && VariablesSpan(VariablesArea(d, l), l.variableCount).Some?
  }

  ghost function Blocks(d: ByteString): seq<ByteString>
    requires ValidBuffer(d)
  {
    BlocksOf(d, LayoutOf(d).entries)
  }

  ghost function Variables(d: ByteString): seq<Variable>
    requires ValidBuffer(d)
  {
    VariablesIn(VariablesArea(d, LayoutOf(d)), LayoutOf(d).variableCount)
  }

  // ----- Insertion of space -----

  function Shift(address: nat, point: nat, delta: nat): nat {
    if address >= point then address + delta else address
  }

  // Every stored address at or behind the insertion point moves along, nothing else changes.
  ghost predicate AddressesShifted(l: Layout, l': Layout, point: nat, delta: nat) {
    && l'.indexOffset == l.indexOffset && l'.indexLength == l.indexLength
    && l'.variablesOffset == Shift(l.variablesOffset, point, delta)
    && l'.trailerLength == l.trailerLength
    && l'.variableCount == l.variableCount
    && EntriesShifted(l.entries, l'.entries, point, delta)
  }

  ghost predicate EntriesShifted(entries: seq<Entry>, entries': seq<Entry>, point: nat, delta: nat) {
    && |entries'| == |entries|
    && forall i :: 0 <= i < |entries| ==> && entries'[i].address == Shift(entries[i].address, point, delta)
                                          && entries'[i].length == entries[i].length
  }

  // d' is d with delta bytes of unknown content inserted at the point, stored addresses adjusted. The point lies
  // behind the used part of the index.
  ghost predicate Resized(d: ByteString, d': ByteString, point: nat, delta: nat) {
    && FieldsFit(d) && FieldsFit(d')
    && LayoutOf(d).IndexEnd() <= point <= |d|
    && |d'| == |d| + delta
    && AddressesShifted(LayoutOf(d), LayoutOf(d'), point, delta)
    && d'[LayoutOf(d).IndexEnd()..point] == d[LayoutOf(d).IndexEnd()..point]
    && d'[point + delta..] == d[point..]
  }

  // ----- Where blocks lie -----

  // Blocks with content all moved by the same distance.
  ghost predicate MovedBy(entries: seq<Entry>, entries': seq<Entry>, distance: nat) {
    && |entries| <= |entries'|
    && forall i :: 0 <= i < |entries| && entries[i].length > 0 ==>
         && entries'[i].address == entries[i].address + distance
         && entries'[i].length == entries[i].length
  }

  // One block begins where another ends.
  ghost predicate Follows(entries: seq<Entry>, i: nat, j: nat) {
    && i < |entries| && j < |entries|
    && entries[i].length > 0 && entries[j].length > 0
    && entries[i].address + entries[i].length == entries[j].address
  }

  lemma MovedFurther(entries: seq<Entry>, entries': seq<Entry>, entries'': seq<Entry>, distance: nat, more: nat)
    requires MovedBy(entries, entries', distance) && MovedBy(entries', entries'', more)
    ensures MovedBy(entries, entries'', distance + more)
  {
  }
}
