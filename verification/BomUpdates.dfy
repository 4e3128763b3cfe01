// How the writes of bom.c act on the layout of a BOM buffer and on the blocks and variables it holds.
module BomUpdates {
  import opened Bytes
  import opened Wrappers
  import opened BomLayouts

  // ----- Single writes -----

  lemma U32Other(d: ByteString, o: nat, bytes: ByteString, p: nat)
    requires o + |bytes| <= |d| && p + 4 <= |d|
    requires p + 4 <= o || o + |bytes| <= p
    ensures U32(Put(d, o, bytes), p) == U32(d, p)
  {
    PutOther(d, o, bytes, p, p + 4);
  }

  lemma EntriesOther(d: ByteString, o: nat, bytes: ByteString, indexOffset: nat, count: nat)
    requires o + |bytes| <= |d|
    requires indexOffset + INDEX_HEADER + INDEX_ENTRY * count <= |d|
    requires o + |bytes| <= indexOffset + INDEX_HEADER || indexOffset + INDEX_HEADER + INDEX_ENTRY * count <= o
    ensures EntriesOf(Put(d, o, bytes), indexOffset, count) == EntriesOf(d, indexOffset, count)
  {
    hide U32, Put;
    forall i | 0 <= i < count
      ensures EntryAt(Put(d, o, bytes), indexOffset, i) == EntryAt(d, indexOffset, i)
    {
      var at := indexOffset + INDEX_HEADER + INDEX_ENTRY * i;
      U32Other(d, o, bytes, at);
      U32Other(d, o, bytes, at + 4);
    }
  }

  // A range of bytes that holds no field of the layout.
  predicate Unstructured(l: Layout, from: nat, to: nat) {
    || to <= INDEX_OFFSET
    || (l.IndexEnd() <= from && (to <= l.variablesOffset || l.variablesOffset + VARIABLES_HEADER <= from))
  }

  lemma PutUnstructured(d: ByteString, o: nat, bytes: ByteString)
    requires FieldsFit(d) && o + |bytes| <= |d| && HEADER_SIZE <= U32(d, VARIABLES_OFFSET)
    requires Unstructured(LayoutOf(d), o, o + |bytes|)
    ensures FieldsFit(Put(d, o, bytes)) && LayoutOf(Put(d, o, bytes)) == LayoutOf(d)
  {
    hide U32, Put, EntriesOf;
    U32Other(d, o, bytes, INDEX_OFFSET);
    U32Other(d, o, bytes, INDEX_LENGTH);
    U32Other(d, o, bytes, VARIABLES_OFFSET);
    U32Other(d, o, bytes, TRAILER_LENGTH);
    U32Other(d, o, bytes, U32(d, INDEX_OFFSET));
    U32Other(d, o, bytes, U32(d, VARIABLES_OFFSET));
    EntriesOther(d, o, bytes, U32(d, INDEX_OFFSET), U32(d, U32(d, INDEX_OFFSET)));
  }

  // The buffer is laid out with the index before the variables.
  ghost predicate Ordered(d: ByteString) {
    && FieldsFit(d)
    && LayoutOf(d).IndexEnd() <= LayoutOf(d).variablesOffset
  }

  lemma PutIndexLength(d: ByteString, n: uint32)
    requires Ordered(d)
    ensures Ordered(Put(d, INDEX_LENGTH, Be32(n)))
    ensures LayoutOf(Put(d, INDEX_LENGTH, Be32(n))) == LayoutOf(d).(indexLength := n)
  {
    hide U32, Put, EntriesOf, Be32;
    PutField(d, INDEX_LENGTH, n);
    U32Other(d, INDEX_LENGTH, Be32(n), INDEX_OFFSET);
    U32Other(d, INDEX_LENGTH, Be32(n), VARIABLES_OFFSET);
    U32Other(d, INDEX_LENGTH, Be32(n), TRAILER_LENGTH);
    U32Other(d, INDEX_LENGTH, Be32(n), U32(d, INDEX_OFFSET));
    U32Other(d, INDEX_LENGTH, Be32(n), U32(d, VARIABLES_OFFSET));
    EntriesOther(d, INDEX_LENGTH, Be32(n), U32(d, INDEX_OFFSET), U32(d, U32(d, INDEX_OFFSET)));
  }

  lemma PutTrailerLength(d: ByteString, n: uint32)
    requires Ordered(d)
    ensures Ordered(Put(d, TRAILER_LENGTH, Be32(n)))
    ensures LayoutOf(Put(d, TRAILER_LENGTH, Be32(n))) == LayoutOf(d).(trailerLength := n)
  {
    hide U32, Put, EntriesOf, Be32;
    PutField(d, TRAILER_LENGTH, n);
    U32Other(d, TRAILER_LENGTH, Be32(n), INDEX_OFFSET);
    U32Other(d, TRAILER_LENGTH, Be32(n), VARIABLES_OFFSET);
    U32Other(d, TRAILER_LENGTH, Be32(n), INDEX_LENGTH);
    U32Other(d, TRAILER_LENGTH, Be32(n), U32(d, INDEX_OFFSET));
    U32Other(d, TRAILER_LENGTH, Be32(n), U32(d, VARIABLES_OFFSET));
    EntriesOther(d, TRAILER_LENGTH, Be32(n), U32(d, INDEX_OFFSET), U32(d, U32(d, INDEX_OFFSET)));
  }

  lemma PutVariableCount(d: ByteString, n: uint32)
    requires Ordered(d)
    ensures var o := LayoutOf(d).variablesOffset;
            && Ordered(Put(d, o, Be32(n)))
            && LayoutOf(Put(d, o, Be32(n))) == LayoutOf(d).(variableCount := n)
  {
    hide U32, Put, EntriesOf, Be32;
    var o := LayoutOf(d).variablesOffset;
    PutField(d, o, n);
    U32Other(d, o, Be32(n), INDEX_OFFSET);
    U32Other(d, o, Be32(n), INDEX_LENGTH);
    U32Other(d, o, Be32(n), VARIABLES_OFFSET);
    U32Other(d, o, Be32(n), TRAILER_LENGTH);
    U32Other(d, o, Be32(n), U32(d, INDEX_OFFSET));
    EntriesOther(d, o, Be32(n), U32(d, INDEX_OFFSET), U32(d, U32(d, INDEX_OFFSET)));
  }

  // Raising the index count turns the bytes behind the used entries into entries.
  lemma PutIndexCount(d: ByteString, n: uint32)
    requires Ordered(d) && n >= |LayoutOf(d).entries|
    requires var l := LayoutOf(d); l.indexOffset + INDEX_HEADER + INDEX_ENTRY * n <= l.variablesOffset
    ensures var l := LayoutOf(d);
            && Ordered(Put(d, l.indexOffset, Be32(n)))
            && LayoutOf(Put(d, l.indexOffset, Be32(n))) == l.(entries := EntriesOf(d, l.indexOffset, n))
  {
    hide U32, Put, EntriesOf, Be32;
    var o := LayoutOf(d).indexOffset;
    PutField(d, o, n);
    U32Other(d, o, Be32(n), INDEX_OFFSET);
    U32Other(d, o, Be32(n), INDEX_LENGTH);
    U32Other(d, o, Be32(n), VARIABLES_OFFSET);
    U32Other(d, o, Be32(n), TRAILER_LENGTH);
    U32Other(d, o, Be32(n), U32(d, VARIABLES_OFFSET));
    EntriesOther(d, o, Be32(n), o, n);
  }

  // Writing one field of an entry in the used part of the index.
  lemma PutEntryAddress(d: ByteString, i: nat, n: uint32)
    requires Ordered(d) && i < |LayoutOf(d).entries|
    ensures var l := LayoutOf(d);
            var at := l.indexOffset + INDEX_HEADER + INDEX_ENTRY * i;
            && Ordered(Put(d, at, Be32(n)))
            && LayoutOf(Put(d, at, Be32(n))) == l.(entries := l.entries[i := l.entries[i].(address := n)])
  {
    hide U32, Put, Be32;
    var l := LayoutOf(d);
    var at := l.indexOffset + INDEX_HEADER + INDEX_ENTRY * i;
    PutField(d, at, n);
    PutEntryFrame(d, at, Be32(n));
    forall j | 0 <= j < |l.entries|
      ensures EntryAt(Put(d, at, Be32(n)), l.indexOffset, j)
              == if j == i then l.entries[i].(address := n) else l.entries[j]
    {
      var other := l.indexOffset + INDEX_HEADER + INDEX_ENTRY * j;
      if j != i {
        U32Other(d, at, Be32(n), other);
      }
      U32Other(d, at, Be32(n), other + 4);
    }
    assert EntriesOf(Put(d, at, Be32(n)), l.indexOffset, |l.entries|) == l.entries[i := l.entries[i].(address := n)];
  }

  lemma PutEntryLength(d: ByteString, i: nat, n: uint32)
    requires Ordered(d) && i < |LayoutOf(d).entries|
    ensures var l := LayoutOf(d);
            var at := l.indexOffset + INDEX_HEADER + INDEX_ENTRY * i + 4;
            && Ordered(Put(d, at, Be32(n)))
            && LayoutOf(Put(d, at, Be32(n))) == l.(entries := l.entries[i := l.entries[i].(length := n)])
  {
    hide U32, Put, Be32;
    var l := LayoutOf(d);
    var at := l.indexOffset + INDEX_HEADER + INDEX_ENTRY * i + 4;
    PutField(d, at, n);
    PutEntryFrame(d, at, Be32(n));
    forall j | 0 <= j < |l.entries|
      ensures EntryAt(Put(d, at, Be32(n)), l.indexOffset, j)
              == if j == i then l.entries[i].(length := n) else l.entries[j]
    {
      var other := l.indexOffset + INDEX_HEADER + INDEX_ENTRY * j;
      if j != i {
        U32Other(d, at, Be32(n), other + 4);
      }
      U32Other(d, at, Be32(n), other);
    }
    assert EntriesOf(Put(d, at, Be32(n)), l.indexOffset, |l.entries|) == l.entries[i := l.entries[i].(length := n)];
  }

  // A write among the used entries leaves all other fields alone.
  lemma PutEntryFrame(d: ByteString, at: nat, bytes: ByteString)
    requires Ordered(d)
    requires LayoutOf(d).indexOffset + INDEX_HEADER <= at && at + |bytes| <= LayoutOf(d).IndexEnd()
    ensures var r := Put(d, at, bytes);
            && FieldsFit(r)
            && U32(r, INDEX_OFFSET) == U32(d, INDEX_OFFSET)
            && U32(r, INDEX_LENGTH) == U32(d, INDEX_LENGTH)
            && U32(r, VARIABLES_OFFSET) == U32(d, VARIABLES_OFFSET)
            && U32(r, TRAILER_LENGTH) == U32(d, TRAILER_LENGTH)
            && U32(r, U32(d, INDEX_OFFSET)) == U32(d, U32(d, INDEX_OFFSET))
            && U32(r, U32(d, VARIABLES_OFFSET)) == U32(d, U32(d, VARIABLES_OFFSET))
  {
    hide U32, Put, EntriesOf;
    U32Other(d, at, bytes, INDEX_OFFSET);
    U32Other(d, at, bytes, INDEX_LENGTH);
    U32Other(d, at, bytes, VARIABLES_OFFSET);
    U32Other(d, at, bytes, TRAILER_LENGTH);
    U32Other(d, at, bytes, U32(d, INDEX_OFFSET));
    U32Other(d, at, bytes, U32(d, VARIABLES_OFFSET));
  }

  // ----- What an insertion keeps -----

  // d' is d with delta bytes inserted at p, as far as the bytes from lo on are concerned.
  ghost predicate Kept(d: ByteString, d': ByteString, lo: nat, p: nat, delta: nat) {
    && lo <= p <= |d| && |d'| == |d| + delta
    && d'[lo..p] == d[lo..p]
    && d'[p + delta..] == d[p..]
  }

  lemma KeptPut(d: ByteString, d': ByteString, lo: nat, p: nat, delta: nat, o: nat, bytes: ByteString)
    requires Kept(d, d', lo, p, delta) && o + |bytes| <= |d'|
    requires o + |bytes| <= lo || (p <= o && o + |bytes| <= p + delta)
    ensures Kept(d, Put(d', o, bytes), lo, p, delta)
  {
    hide Put;
    PutOther(d', o, bytes, lo, p);
    PutOther(d', o, bytes, p + delta, |d'|);
  }

  // Forgetting about the first bytes, or about everything before a later point.
  lemma KeptFrom(d: ByteString, d': ByteString, lo: nat, p: nat, delta: nat, lo': nat)
    requires Kept(d, d', lo, p, delta) && lo <= lo' <= p
    ensures Kept(d, d', lo', p, delta)
  {
    SubRange(d', lo, p, d, lo, p, lo' - lo, p - lo);
  }

  lemma KeptBehind(d: ByteString, d': ByteString, lo: nat, p: nat, delta: nat, p': nat)
    requires Kept(d, d', lo, p, delta) && p <= p' <= |d|
    ensures Kept(d, d', p', p', delta)
  {
    SubRange(d', p + delta, |d'|, d, p, |d|, p' - p, |d| - p);
  }

  predicate NotSplit(e: Entry, p: nat) {
    e.length == 0 || p <= e.address || e.address + e.length <= p
  }

  lemma KeptBlock(d: ByteString, d': ByteString, lo: nat, p: nat, delta: nat, e: Entry, e': Entry)
    requires Kept(d, d', lo, p, delta) && NotSplit(e, p)
    requires e == Entry(0, 0) || (lo <= e.address && e.address + e.length <= |d|)
    requires e'.address == Shift(e.address, p, delta) && e'.length == e.length
    ensures BlockOf(d', e') == BlockOf(d, e)
  {
    if e.length > 0 {
      if p <= e.address {
        SubRange(d', p + delta, |d'|, d, p, |d|, e.address - p, e.address + e.length - p);
      } else {
        SubRange(d', lo, p, d, lo, p, e.address - lo, e.address + e.length - lo);
      }
    }
  }

  // No block is split by the insertion, so every block keeps its bytes.
  lemma KeptBlocks(d: ByteString, d': ByteString, lo: nat, p: nat, delta: nat, l: Layout, entries': seq<Entry>)
    requires Kept(d, d', lo, p, delta) && Sound(l, |d|) && lo <= l.DataStart()
    requires forall i :: 0 <= i < |l.entries| ==> NotSplit(l.entries[i], p)
    requires EntriesShifted(l.entries, entries', p, delta)
    ensures BlocksOf(d', entries') == BlocksOf(d, l.entries)
  {
    forall i | 0 <= i < |l.entries|
      ensures BlockOf(d', entries'[i]) == BlockOf(d, l.entries[i])
    {
      assert EntrySound(l.entries[i], l.DataStart(), |d|);
      KeptBlock(d, d', lo, p, delta, l.entries[i], entries'[i]);
    }
  }

  // The entries of a sound layout stay in bounds and disjoint when delta bytes are inserted between blocks.
  lemma ShiftedEntriesSound(l: Layout, entries': seq<Entry>, size: nat, p: nat, delta: nat, dataStart': nat)
    requires Sound(l, size) && p > 0
    requires forall i :: 0 <= i < |l.entries| ==> NotSplit(l.entries[i], p)
    requires EntriesShifted(l.entries, entries', p, delta)
    requires dataStart' == l.DataStart() || (p <= l.DataStart() && dataStart' == l.DataStart() + delta)
    ensures forall i :: 0 <= i < |entries'| ==> EntrySound(entries'[i], dataStart', size + delta)
    ensures forall i, j :: 0 <= i < j < |entries'| ==> Disjoint(entries'[i], entries'[j])
  {
    forall i | 0 <= i < |entries'|
      ensures EntrySound(entries'[i], dataStart', size + delta)
    {
      assert EntrySound(l.entries[i], l.DataStart(), size);
    }
    forall i, j | 0 <= i < j < |entries'|
      ensures Disjoint(entries'[i], entries'[j])
    {
      assert Disjoint(l.entries[i], l.entries[j]);
      assert NotSplit(l.entries[i], p) && NotSplit(l.entries[j], p);
    }
  }

  // An insertion before all blocks moves them together.
  lemma ShiftedTogether(l: Layout, entries': seq<Entry>, size: nat, p: nat, delta: nat)
    requires Sound(l, size) && p <= l.DataStart() && EntriesShifted(l.entries, entries', p, delta)
    ensures MovedBy(l.entries, entries', delta)
  {
    forall i | 0 <= i < |l.entries| && l.entries[i].length > 0
      ensures entries'[i].address == l.entries[i].address + delta
    {
      assert EntrySound(l.entries[i], l.DataStart(), size);
    }
  }

  // ----- Address update and move -----

  // What _bom_address_update_all leaves: every address and offset at or behind the point moved, all else in place.
  ghost predicate AddressesUpdated(d: ByteString, u: ByteString, point: nat, delta: nat) {
    && FieldsFit(d) && |u| == |d|
    && var l := LayoutOf(d);
       && Preamble(u) == Preamble(d)
       && U32(u, INDEX_OFFSET) == l.indexOffset
       && U32(u, INDEX_LENGTH) == l.indexLength
       && U32(u, VARIABLES_OFFSET) == Shift(l.variablesOffset, point, delta)
       && U32(u, TRAILER_LENGTH) == l.trailerLength
       && U32(u, l.indexOffset) == |l.entries|
       && EntriesShifted(l.entries, EntriesOf(u, l.indexOffset, |l.entries|), point, delta)
       && u[l.IndexEnd()..] == d[l.IndexEnd()..]
  }

  // memmove of everything from the point on to delta bytes further, into the enlarged buffer.
  function MoveTail(u: ByteString, tail: ByteString, point: nat): (r: ByteString)
    requires point <= |u|
    ensures |r| == |u| + |tail|
  {
    Put(u + tail, point + |tail|, (u + tail)[point..|u|])
  }

  lemma MovedBytes(u: ByteString, tail: ByteString, point: nat)
    requires point <= |u|
    ensures MoveTail(u, tail, point)[..point] == u[..point]
    ensures MoveTail(u, tail, point)[point + |tail|..] == u[point..]
  {
    var big := u + tail;
    PutOther(big, point + |tail|, big[point..|u|], 0, point);
    PutSame(big, point + |tail|, big[point..|u|]);
    assert big[point..|u|] == u[point..];
    assert big[0..point] == u[..point];
  }

  lemma PrefixField(r: ByteString, u: ByteString, point: nat, o: nat)
    requires point <= |u| && point <= |r| && r[..point] == u[..point] && o + 4 <= point
    ensures U32(r, o) == U32(u, o)
  {
    SubField(r, 0, point, u, 0, point, o);
  }

  // Update and move together insert space.
  lemma UpdateAndMoveResize(d: ByteString, u: ByteString, tail: ByteString, point: nat)
    requires AddressesUpdated(d, u, point, |tail|)
    requires LayoutOf(d).IndexEnd() <= point <= |d|
    requires var v := LayoutOf(d).variablesOffset;
             LayoutOf(d).IndexEnd() <= v && (point <= v || v + VARIABLES_HEADER <= point)
    ensures Resized(d, MoveTail(u, tail, point), point, |tail|)
    ensures Preamble(MoveTail(u, tail, point)) == Preamble(d)
  {
    hide U32, MoveTail, EntriesOf, EntriesShifted;
    var l := LayoutOf(d);
    var r := MoveTail(u, tail, point);
    MovedBytes(u, tail, point);
    PreamblePrefix(r, u, point);
    PrefixField(r, u, point, INDEX_OFFSET);
    PrefixField(r, u, point, INDEX_LENGTH);
    PrefixField(r, u, point, VARIABLES_OFFSET);
    PrefixField(r, u, point, TRAILER_LENGTH);
    PrefixField(r, u, point, l.indexOffset);
    PrefixEntries(r, u, point, l.indexOffset, |l.entries|);
    var e := l.IndexEnd();
    SubRange(r, 0, point, u, 0, point, e, point);
    SubRange(u, e, |u|, d, e, |d|, 0, point - e);
    SubRange(u, e, |u|, d, e, |d|, point - e, |d| - e);
    assert r[point + |tail|..|r|] == d[point..|d|] by {
      assert r[point + |tail|..|r|] == u[point..] == u[point..|u|];
    }
    var v := l.variablesOffset;
    if point <= v {
      SubField(r, point + |tail|, |r|, d, point, |d|, v - point);
    } else {
      SubField(r, e, point, d, e, point, v - e);
    }
  }

  lemma PrefixEntries(r: ByteString, u: ByteString, point: nat, indexOffset: nat, count: nat)
    requires point <= |u| && point <= |r| && r[..point] == u[..point]
    requires indexOffset + INDEX_HEADER + INDEX_ENTRY * count <= point
    ensures EntriesOf(r, indexOffset, count) == EntriesOf(u, indexOffset, count)
  {
    hide U32;
    forall i | 0 <= i < count
      ensures EntryAt(r, indexOffset, i) == EntryAt(u, indexOffset, i)
    {
      var at := indexOffset + INDEX_HEADER + INDEX_ENTRY * i;
      PrefixField(r, u, point, at);
      PrefixField(r, u, point, at + 4);
    }
  }

  // ----- The three places where space is inserted -----

  lemma WholeEntriesNotSplit(l: Layout, size: nat, p: nat)
    requires Sound(l, size) && (p <= l.DataStart() || p == size)
    ensures forall i :: 0 <= i < |l.entries| ==> NotSplit(l.entries[i], p)
  {
    forall i | 0 <= i < |l.entries|
      ensures NotSplit(l.entries[i], p)
    {
      assert EntrySound(l.entries[i], l.DataStart(), size);
    }
  }

  // In the index area: the variables and blocks move behind it, the index gets longer.
  lemma IndexGrown(d: ByteString, r: ByteString, point: nat, delta: nat, f: ByteString)
    requires ValidBuffer(d) && |r| < 0x1_0000_0000 && Resized(d, r, point, delta)
    requires point <= LayoutOf(d).variablesOffset
    requires FieldsFit(f) && LayoutOf(f) == LayoutOf(r).(indexLength := LayoutOf(d).indexLength + delta)
    requires Kept(d, f, LayoutOf(d).variablesOffset, LayoutOf(d).variablesOffset, delta)
    ensures ValidBuffer(f) && Blocks(f) == Blocks(d) && Variables(f) == Variables(d)
    ensures LayoutOf(f).indexLength == LayoutOf(d).indexLength + delta
    ensures |LayoutOf(f).entries| == |LayoutOf(d).entries|
    ensures MovedBy(LayoutOf(d).entries, LayoutOf(f).entries, delta)
  {
    hide LayoutOf, FieldsFit, BlocksOf, VariablesSpan, VariablesIn;
    var l, l' := LayoutOf(d), LayoutOf(f);
    var v := l.variablesOffset;
    assert EntriesShifted(l.entries, l'.entries, v, delta) by {
      forall i | 0 <= i < |l.entries|
        ensures Shift(l.entries[i].address, point, delta) == Shift(l.entries[i].address, v, delta)
      {
        assert EntrySound(l.entries[i], l.DataStart(), |d|);
      }
    }
    WholeEntriesNotSplit(l, |d|, v);
    ShiftedEntriesSound(l, l'.entries, |d|, v, delta, l.DataStart() + delta);
    ShiftedTogether(l, l'.entries, |d|, v, delta);
    KeptBlocks(d, f, v, v, delta, l, l'.entries);
    SubRange(f, v + delta, |f|, d, v, |d|, VARIABLES_HEADER, l.trailerLength);
  }

  // In the variable table, behind the variables in use: a new variable is written there and the blocks move.
  lemma VariableInserted(d: ByteString, r: ByteString, span: nat, delta: nat, f: ByteString, v: Variable)
    requires ValidBuffer(d) && |r| < 0x1_0000_0000
    requires VariablesSpan(VariablesArea(d, LayoutOf(d)), LayoutOf(d).variableCount) == Some(span)
    requires var point := LayoutOf(d).variablesOffset + VARIABLES_HEADER + span;
             && Resized(d, r, point, delta)
             && Kept(d, f, LayoutOf(d).variablesOffset + VARIABLES_HEADER, point, delta)
             && |v.name| < 0x100 && VARIABLE_HEADER + |v.name| <= delta
             && f[point..point + VARIABLE_HEADER + |v.name|] == VariableBytes(v)
    requires LayoutOf(d).variableCount + 1 < 0x1_0000_0000 && LayoutOf(d).trailerLength + delta < 0x1_0000_0000
    requires FieldsFit(f)
    requires LayoutOf(f) == LayoutOf(r).(trailerLength := LayoutOf(d).trailerLength + delta,
                                         variableCount := LayoutOf(d).variableCount + 1)
    ensures ValidBuffer(f) && Blocks(f) == Blocks(d) && Variables(f) == Variables(d) + [v]
    ensures LayoutOf(f).indexLength == LayoutOf(d).indexLength
    ensures |LayoutOf(f).entries| == |LayoutOf(d).entries|
    ensures MovedBy(LayoutOf(d).entries, LayoutOf(f).entries, delta)
  {
    hide LayoutOf, FieldsFit, BlocksOf, VariablesSpan, VariablesIn, VariableBytes;
    var l, l' := LayoutOf(d), LayoutOf(f);
    var lo := l.variablesOffset + VARIABLES_HEADER;
    var point := lo + span;
    WholeEntriesNotSplit(l, |d|, point);
    ShiftedEntriesSound(l, l'.entries, |d|, point, delta, l.DataStart() + delta);
    ShiftedTogether(l, l'.entries, |d|, point, delta);
    KeptBlocks(d, f, lo, point, delta, l, l'.entries);
    var s, t := VariablesArea(d, l), VariablesArea(f, l');
    SliceOfSlice(d, lo, l.DataStart(), 0, span);
    SliceOfSlice(f, lo, l.DataStart() + delta, 0, span);
    SliceOfSlice(f, lo, l.DataStart() + delta, span, span + VARIABLE_HEADER + |v.name|);
    VariablesAppend(s, t, l.variableCount, v);
  }

  // Behind the variables, between blocks: the variables stay where they are.
  lemma DataGrown(d: ByteString, r: ByteString, point: nat, delta: nat, f: ByteString)
    requires ValidBuffer(d) && |r| < 0x1_0000_0000 && Resized(d, r, point, delta)
    requires LayoutOf(d).DataStart() <= point
    requires forall i :: 0 <= i < |LayoutOf(d).entries| ==> NotSplit(LayoutOf(d).entries[i], point)
    requires FieldsFit(f) && LayoutOf(f) == LayoutOf(r)
    requires Kept(d, f, LayoutOf(d).variablesOffset, point, delta)
    ensures ValidBuffer(f) && Blocks(f) == Blocks(d) && Variables(f) == Variables(d)
  {
    hide LayoutOf, FieldsFit, BlocksOf, VariablesSpan, VariablesIn;
    var l, l' := LayoutOf(d), LayoutOf(f);
    var v := l.variablesOffset;
    ShiftedEntriesSound(l, l'.entries, |d|, point, delta, l.DataStart());
    KeptBlocks(d, f, v, point, delta, l, l'.entries);
    SubRange(f, v, point, d, v, point, VARIABLES_HEADER, l.trailerLength);
  }

  // ----- The steps of each operation after its resize -----

  // The buffers hold the same blocks and variables.
  ghost predicate SameContent(d: ByteString, f: ByteString) {
    ValidBuffer(d) && ValidBuffer(f) && Blocks(f) == Blocks(d) && Variables(f) == Variables(d)
  }

  lemma ResizedOrdered(d: ByteString, r: ByteString, point: nat, delta: nat)
    requires Ordered(d) && Resized(d, r, point, delta)
    ensures Ordered(r) && LayoutOf(r).IndexEnd() == LayoutOf(d).IndexEnd()
    ensures Kept(d, r, LayoutOf(d).IndexEnd(), point, delta)
    ensures |r| == |d| + delta
    ensures LayoutOf(r).indexOffset == LayoutOf(d).indexOffset && LayoutOf(r).indexLength == LayoutOf(d).indexLength
    ensures LayoutOf(r).variablesOffset == Shift(LayoutOf(d).variablesOffset, point, delta)
    ensures LayoutOf(r).trailerLength == LayoutOf(d).trailerLength
    ensures LayoutOf(r).variableCount == LayoutOf(d).variableCount
  {
  }

  // Lengthening the index area: its new length is recorded and some bytes behind the used entries are cleared.
  lemma GrowSteps(d: ByteString, r: ByteString, point: nat, delta: nat, at: nat, cleared: nat, length: uint32,
                  g: ByteString, f: ByteString)
    requires HEADER_SIZE <= |r| < 0x1_0000_0000 && at + cleared <= |r|
    requires g == Put(r, INDEX_LENGTH, Be32(length)) && f == Put(g, at, Zeros(cleared))
    requires ValidBuffer(d) && Resized(d, r, point, delta)
    requires var l := LayoutOf(d);
             && point <= l.variablesOffset
             && l.IndexEnd() <= at && at + cleared <= l.variablesOffset + delta
             && (at + cleared <= l.variablesOffset || l.variablesOffset <= at)
             && length == l.indexLength + delta
    ensures SameContent(d, f)
    ensures LayoutOf(f).indexLength == length
    ensures LayoutOf(f).indexOffset == LayoutOf(d).indexOffset
    ensures |LayoutOf(f).entries| == |LayoutOf(d).entries|
    ensures MovedBy(LayoutOf(d).entries, LayoutOf(f).entries, delta)
    ensures Preamble(f) == Preamble(r)
  {
    hide LayoutOf, FieldsFit, U32, Put, Be32, Zeros, BlocksOf, VariablesSpan, VariablesIn;
    var l := LayoutOf(d);
    var v := l.variablesOffset;
    ResizedOrdered(d, r, point, delta);
    PutIndexLength(r, length);
    LayoutBounds(g);
    PutUnstructured(g, at, Zeros(cleared));
    KeptPut(d, r, l.IndexEnd(), point, delta, INDEX_LENGTH, Be32(length));
    KeptBehind(d, g, l.IndexEnd(), point, delta, v);
    KeptPut(d, g, v, v, delta, at, Zeros(cleared));
    IndexGrown(d, r, point, delta, f);
    PreambleOther(r, INDEX_LENGTH, Be32(length));
    PreambleOther(g, at, Zeros(cleared));
  }

  lemma LayoutBounds(d: ByteString)
    requires FieldsFit(d)
    ensures |d| >= HEADER_SIZE && U32(d, VARIABLES_OFFSET) == LayoutOf(d).variablesOffset
    ensures U32(d, INDEX_OFFSET) == LayoutOf(d).indexOffset >= HEADER_SIZE
    ensures LayoutOf(d).IndexEnd() <= |d| && LayoutOf(d).variablesOffset + VARIABLES_HEADER <= |d|
  {
  }

  predicate EndsBefore(e: Entry, p: nat) {
    e.length == 0 || e.address + e.length <= p
  }

  // Filling the entry behind the used ones and the data behind all others, before the count is raised.
  lemma AddDataSteps(d: ByteString, r: ByteString, bytes: ByteString, at: nat, f1: ByteString, f2: ByteString,
                     f: ByteString)
    requires |r| == |d| + |bytes| < 0x1_0000_0000 && at + INDEX_ENTRY <= |r|
    requires f1 == Put(r, at, Be32(|d|)) && f2 == Put(f1, at + 4, Be32(|bytes|)) && f == Put(f2, |d|, bytes)
    requires ValidBuffer(d) && Resized(d, r, |d|, |bytes|)
    requires at == LayoutOf(d).IndexEnd() && at + INDEX_ENTRY <= LayoutOf(d).variablesOffset
    ensures SameContent(d, f)
    ensures LayoutOf(f) == LayoutOf(r)
    ensures MovedBy(LayoutOf(d).entries, LayoutOf(f).entries, 0)
    ensures Preamble(f) == Preamble(r)
    ensures EntryAt(f, LayoutOf(d).indexOffset, |LayoutOf(d).entries|) == Entry(|d|, |bytes|)
    ensures f[|d|..] == bytes
    ensures forall i :: 0 <= i < |LayoutOf(f).entries| ==> EndsBefore(LayoutOf(f).entries[i], |d|)
  {
    hide LayoutOf, FieldsFit, U32, Put, Be32, BlocksOf, VariablesSpan, VariablesIn;
    var l := LayoutOf(d);
    var v := l.variablesOffset;
    ResizedOrdered(d, r, |d|, |bytes|);
    LayoutBounds(r);
    KeptFrom(d, r, at, |d|, |bytes|, v);
    PutUnstructured(r, at, Be32(|d|));
    KeptPut(d, r, v, |d|, |bytes|, at, Be32(|d|));
    LayoutBounds(f1);
    PutUnstructured(f1, at + 4, Be32(|bytes|));
    KeptPut(d, f1, v, |d|, |bytes|, at + 4, Be32(|bytes|));
    LayoutBounds(f2);
    PutUnstructured(f2, |d|, bytes);
    KeptPut(d, f2, v, |d|, |bytes|, |d|, bytes);
    WholeEntriesNotSplit(l, |d|, |d|);
    DataGrown(d, r, |d|, |bytes|, f);
    PreambleOther(r, at, Be32(|d|));
    PreambleOther(f1, at + 4, Be32(|bytes|));
    PreambleOther(f2, |d|, bytes);
    PutField(r, at, |d|);
    U32Other(f1, at + 4, Be32(|bytes|), at);
    PutField(f1, at + 4, |bytes|);
    U32Other(f2, |d|, bytes, at);
    U32Other(f2, |d|, bytes, at + 4);
    PutSame(f2, |d|, bytes);
    assert f[|d|..|d| + |bytes|] == f[|d|..];
    forall i | 0 <= i < |l.entries|
      ensures EndsBefore(LayoutOf(f).entries[i], |d|)
      ensures l.entries[i].length > 0 ==> LayoutOf(f).entries[i].address == l.entries[i].address
    {
      assert EntrySound(l.entries[i], l.DataStart(), |d|);
    }
  }

  // Writes before the data area keep the blocks; writes before the variables keep those too.
  lemma SameTail(d: ByteString, f: ByteString, from: nat)
    requires ValidBuffer(d) && |f| == |d| && from <= |d| && f[from..] == d[from..]
    requires from <= LayoutOf(d).variablesOffset + VARIABLES_HEADER
    ensures VariablesArea(f, LayoutOf(d)) == VariablesArea(d, LayoutOf(d))
    ensures BlocksOf(f, LayoutOf(d).entries) == BlocksOf(d, LayoutOf(d).entries)
  {
    hide LayoutOf, FieldsFit, VariablesSpan;
    var l := LayoutOf(d);
    assert Kept(d, f, from, from, 0);
    WholeEntriesNotSplit(l, |d|, from);
    KeptBlocks(d, f, from, from, 0, l, l.entries);
    var v := l.variablesOffset + VARIABLES_HEADER;
    SubRange(f, from, |f|, d, from, |d|, v - from, l.DataStart() - from);
  }

  // Raising the count by entries that are sound and disjoint makes them blocks.
  lemma CountSteps(d: ByteString, n: nat)
    requires ValidBuffer(d)
    requires var l := LayoutOf(d);
             && n >= |l.entries|
             && l.indexOffset + INDEX_HEADER + INDEX_ENTRY * n + 2 * INDEX_ENTRY <= l.variablesOffset
             && var es := EntriesOf(d, l.indexOffset, n);
                && (forall i :: 0 <= i < n ==> EntrySound(es[i], l.DataStart(), |d|))
                && (forall i, j :: 0 <= i < j < n ==> Disjoint(es[i], es[j]))
    ensures var l := LayoutOf(d);
            var f := Put(d, l.indexOffset, Be32(n));
            && ValidBuffer(f) && Variables(f) == Variables(d)
            && Blocks(f) == BlocksOf(d, EntriesOf(d, l.indexOffset, n))
            && LayoutOf(f) == l.(entries := EntriesOf(d, l.indexOffset, n))
            && Preamble(f) == Preamble(d)
  {
    hide LayoutOf, FieldsFit, U32, Put, Be32, EntriesOf, VariablesSpan, VariablesIn;
    var l := LayoutOf(d);
    LayoutBounds(d);
    PutIndexCount(d, n);
    var f := Put(d, l.indexOffset, Be32(n));
    PreambleOther(d, l.indexOffset, Be32(n));
    PutTail(d, l.indexOffset, Be32(n), l.variablesOffset);
    SameTail(d, f, l.variablesOffset);
    var es := EntriesOf(d, l.indexOffset, n);
    forall i | 0 <= i < n
      ensures BlockOf(f, es[i]) == BlockOf(d, es[i])
    {
      assert EntrySound(es[i], l.DataStart(), |d|);
      if es[i].length > 0 {
        var v := l.variablesOffset;
        SubRange(f, v, |f|, d, v, |d|, es[i].address - v, es[i].address + es[i].length - v);
      }
    }
    assert BlocksOf(f, es) == BlocksOf(d, es);
  }

  lemma EntriesNext(d: ByteString, indexOffset: nat, count: nat)
    requires indexOffset + INDEX_HEADER + INDEX_ENTRY * (count + 1) <= |d|
    ensures EntriesOf(d, indexOffset, count + 1) == EntriesOf(d, indexOffset, count) + [EntryAt(d, indexOffset, count)]
  {
  }

  // Raising the count by one takes in the block written at the end of the buffer.
  lemma CountOneMore(d: ByteString, at: nat, bytes: ByteString, indexOffset: uint32, count: uint32, f: ByteString)
    requires ValidBuffer(d) && at <= |d| && d[at..] == bytes
    requires LayoutOf(d).indexOffset == indexOffset && count == |LayoutOf(d).entries| + 1
    requires LayoutOf(d).IndexEnd() + 3 * INDEX_ENTRY <= LayoutOf(d).variablesOffset
    requires LayoutOf(d).DataStart() <= at
    requires EntryAt(d, indexOffset, |LayoutOf(d).entries|) == Entry(at, |bytes|)
    requires forall i :: 0 <= i < |LayoutOf(d).entries| ==> EndsBefore(LayoutOf(d).entries[i], at)
    requires f == Put(d, indexOffset, Be32(count))
    ensures ValidBuffer(f) && Variables(f) == Variables(d)
    ensures Blocks(f) == Blocks(d) + [bytes]
    ensures LayoutOf(f).indexLength == LayoutOf(d).indexLength && |LayoutOf(f).entries| == count
    ensures LayoutOf(f).entries == LayoutOf(d).entries + [Entry(at, |bytes|)]
    ensures Preamble(f) == Preamble(d)
  {
    hide FieldsFit, U32, Put, Be32, EntryAt, VariablesSpan, VariablesIn;
    var l := LayoutOf(d);
    var e := Entry(at, |bytes|);
    var es := EntriesOf(d, indexOffset, count);
    EntriesNext(d, indexOffset, |l.entries|);
    assert es == l.entries + [e];
    MoreEntriesSound(l, |d|, e);
    CountSteps(d, count);
    assert BlockOf(d, e) == d[at..|d|] == bytes;
    assert BlocksOf(d, es) == BlocksOf(d, l.entries) + [bytes];
  }

  lemma MoreEntriesSound(l: Layout, size: nat, e: Entry)
    requires Sound(l, size) && EntrySound(e, l.DataStart(), size)
    requires forall i :: 0 <= i < |l.entries| ==> EndsBefore(l.entries[i], e.address)
    ensures var es := l.entries + [e];
            && (forall i :: 0 <= i < |es| ==> EntrySound(es[i], l.DataStart(), size))
            && (forall i, j :: 0 <= i < j < |es| ==> Disjoint(es[i], es[j]))
  {
  }

  lemma SignatureOther(d: ByteString, n: uint32)
    requires |d| >= HEADER_SIZE
    ensures Signature(Put(d, BLOCK_COUNT, Be32(n))) == Signature(d)
  {
    assert Put(d, BLOCK_COUNT, Be32(n))[..BLOCK_COUNT] == d[..BLOCK_COUNT];
  }

  // The count of useful blocks in the header is no part of the layout.
  lemma BlockCountStep(d: ByteString, n: uint32)
    requires ValidBuffer(d)
    ensures var f := Put(d, BLOCK_COUNT, Be32(n));
            && ValidBuffer(f) && Blocks(f) == Blocks(d) && Variables(f) == Variables(d)
            && LayoutOf(f) == LayoutOf(d) && U32(f, BLOCK_COUNT) == n && Signature(f) == Signature(d)
  {
    hide LayoutOf, FieldsFit, U32, Put, Be32, BlocksOf, VariablesSpan, VariablesIn;
    LayoutBounds(d);
    PutUnstructured(d, BLOCK_COUNT, Be32(n));
    PutField(d, BLOCK_COUNT, n);
    SignatureOther(d, n);
    var f := Put(d, BLOCK_COUNT, Be32(n));
    PutTail(d, BLOCK_COUNT, Be32(n), HEADER_SIZE);
    SameTail(d, f, HEADER_SIZE);
  }

  lemma SoundEntry(l: Layout, size: nat, i: nat)
    requires Sound(l, size) && i < |l.entries|
    ensures EntrySound(l.entries[i], l.DataStart(), size)
    ensures HEADER_SIZE <= l.indexOffset && l.IndexEnd() + 2 * INDEX_ENTRY <= l.variablesOffset
    ensures VARIABLES_HEADER <= l.trailerLength && l.DataStart() <= size
  {
  }

  // One block got more bytes at its end; all others are the same.
  ghost predicate BlockExtended(before: seq<ByteString>, after: seq<ByteString>, i: nat, more: nat) {
    && |after| == |before| && i < |before|
    && before[i] <= after[i] && |after[i]| == |before[i]| + more
    && forall j :: 0 <= j < |before| && j != i ==> after[j] == before[j]
  }

  // Lengthening a non-empty block over the bytes inserted right behind it.
  lemma AppendSteps(d: ByteString, r: ByteString, i: nat, e: Entry, more: nat, at: nat, f: ByteString)
    requires |r| < 0x1_0000_0000 && at + 4 <= |r| && e.length + more < 0x1_0000_0000
    requires f == Put(r, at, Be32(e.length + more))
    requires ValidBuffer(d) && i < |LayoutOf(d).entries| && LayoutOf(d).entries[i] == e && e.length > 0
    requires at == LayoutOf(d).indexOffset + INDEX_HEADER + INDEX_ENTRY * i + 4
    requires Resized(d, r, e.address + e.length, more)
    ensures ValidBuffer(f) && Variables(f) == Variables(d)
    ensures BlockExtended(Blocks(d), Blocks(f), i, more)
    ensures LayoutOf(f).indexLength == LayoutOf(d).indexLength
    ensures NeighboursKept(LayoutOf(d).entries, LayoutOf(f).entries)
    ensures Preamble(f) == Preamble(r)
  {
    hide LayoutOf, FieldsFit, U32, Put, Be32, VariablesSpan, VariablesIn, BlocksOf, BlockExtended, Sound;
    var l := LayoutOf(d);
    var point := e.address + e.length;
    SoundEntry(l, |d|, i);
    NeighboursNotSplit(l, |d|, i);
    ResizedOrdered(d, r, point, more);
    KeptFrom(d, r, l.IndexEnd(), point, more, l.variablesOffset);
    DataGrown(d, r, point, more, r);
    var r' := LayoutOf(r);
    assert r'.entries[i] == e;
    PutEntryLength(r, i, e.length + more);
    PreambleOther(r, at, Be32(e.length + more));
    PutTail(r, at, Be32(e.length + more), l.variablesOffset);
    SameTail(r, f, l.variablesOffset);
    LengthenedSound(l, r', i, |d|, more);
    LengthenedNeighbours(l, r'.entries, i, |d|, more);
    LengthenedBlocks(f, r'.entries, i, more);
  }

  // What follows a block still does.
  ghost predicate NeighboursKept(entries: seq<Entry>, entries': seq<Entry>) {
    forall i: nat, j: nat :: Follows(entries, i, j) ==> Follows(entries', i, j)
  }

  lemma LengthenedNeighbours(l: Layout, es: seq<Entry>, i: nat, size: nat, more: nat)
    requires Sound(l, size) && i < |l.entries| && l.entries[i].length > 0
    requires EntriesShifted(l.entries, es, l.entries[i].address + l.entries[i].length, more)
    requires l.entries[i].length + more < 0x1_0000_0000
    ensures NeighboursKept(l.entries, es[i := es[i].(length := l.entries[i].length + more)])
  {
    var es' := es[i := es[i].(length := l.entries[i].length + more)];
    NeighboursNotSplit(l, size, i);
    forall j: nat, k: nat | Follows(l.entries, j, k)
      ensures Follows(es', j, k)
    {
      assert NotSplit(l.entries[j], l.entries[i].address + l.entries[i].length);
      if j < i {
        assert Disjoint(l.entries[j], l.entries[i]);
      } else if i < j {
        assert Disjoint(l.entries[i], l.entries[j]);
      }
    }
  }

  lemma LengthenedBlocks(f: ByteString, es: seq<Entry>, i: nat, more: nat)
    requires i < |es| && es[i].address + es[i].length + more <= |f| && es[i].length + more < 0x1_0000_0000
    ensures BlockExtended(BlocksOf(f, es), BlocksOf(f, es[i := es[i].(length := es[i].length + more)]), i, more)
  {
    var e := es[i];
    SliceOfSlice(f, e.address, e.address + e.length + more, 0, e.length);
  }

  lemma NeighboursNotSplit(l: Layout, size: nat, i: nat)
    requires Sound(l, size) && i < |l.entries| && l.entries[i].length > 0
    ensures forall j :: 0 <= j < |l.entries| ==> NotSplit(l.entries[j], l.entries[i].address + l.entries[i].length)
  {
    forall j | 0 <= j < |l.entries|
      ensures NotSplit(l.entries[j], l.entries[i].address + l.entries[i].length)
    {
      if j < i {
        assert Disjoint(l.entries[j], l.entries[i]);
      } else if i < j {
        assert Disjoint(l.entries[i], l.entries[j]);
      }
    }
  }

  lemma LengthenedSound(l: Layout, l': Layout, i: nat, size: nat, more: nat)
    requires Sound(l, size) && Sound(l', size + more) && i < |l.entries| && l.entries[i].length > 0
    requires l'.DataStart() == l.DataStart()
    requires EntriesShifted(l.entries, l'.entries, l.entries[i].address + l.entries[i].length, more)
    requires l'.entries[i] == l.entries[i] && l.entries[i].length + more < 0x1_0000_0000
    ensures Sound(l'.(entries := l'.entries[i := l'.entries[i].(length := l.entries[i].length + more)]), size + more)
  {
    var e := l.entries[i];
    var es := l'.entries[i := e.(length := e.length + more)];
    assert EntrySound(e, l.DataStart(), size);
    forall j, k | 0 <= j < k < |es|
      ensures Disjoint(es[j], es[k])
    {
      assert Disjoint(l.entries[j], l.entries[k]);
      assert Disjoint(l'.entries[j], l'.entries[k]);
    }
  }

  // Writing a variable behind the others, then its count and the length of the table.
  lemma VariableSteps(d: ByteString, r: ByteString, point: nat, span: nat, delta: nat, v: Variable, count: uint32,
                      length: uint32, f1: ByteString, f2: ByteString, f3: ByteString, f4: ByteString, f: ByteString)
    requires |r| < 0x1_0000_0000 && |v.name| < 0x100 && HEADER_SIZE <= point
    requires point + VARIABLE_HEADER + |v.name| <= |r|
    requires f1 == Put(r, point, Be32(v.index)) && f2 == Put(f1, point + 4, [|v.name|])
    requires f3 == Put(f2, point + VARIABLE_HEADER, v.name)
    requires ValidBuffer(d) && point == LayoutOf(d).variablesOffset + VARIABLES_HEADER + span
    requires f4 == Put(f3, LayoutOf(d).variablesOffset, Be32(count)) && f == Put(f4, TRAILER_LENGTH, Be32(length))
    requires VariablesSpan(VariablesArea(d, LayoutOf(d)), LayoutOf(d).variableCount) == Some(span)
    requires Resized(d, r, point, delta)
    requires VARIABLE_HEADER + |v.name| <= delta
    requires count == LayoutOf(d).variableCount + 1 && length == LayoutOf(d).trailerLength + delta
    ensures ValidBuffer(f) && Blocks(f) == Blocks(d) && Variables(f) == Variables(d) + [v]
    ensures LayoutOf(f).indexLength == LayoutOf(d).indexLength && |LayoutOf(f).entries| == |LayoutOf(d).entries|
    ensures MovedBy(LayoutOf(d).entries, LayoutOf(f).entries, delta)
    ensures Preamble(f) == Preamble(r)
  {
    hide LayoutOf, FieldsFit, U32, Put, Be32, BlocksOf, VariablesSpan, VariablesIn;
    var l := LayoutOf(d);
    var lo := l.variablesOffset + VARIABLES_HEADER;
    ResizedOrdered(d, r, point, delta);
    LayoutBounds(r);
    KeptFrom(d, r, l.IndexEnd(), point, delta, lo);
    PutUnstructured(r, point, Be32(v.index));
    KeptPut(d, r, lo, point, delta, point, Be32(v.index));
    LayoutBounds(f1);
    PutUnstructured(f1, point + 4, [|v.name|]);
    KeptPut(d, f1, lo, point, delta, point + 4, [|v.name|]);
    LayoutBounds(f2);
    PutUnstructured(f2, point + VARIABLE_HEADER, v.name);
    KeptPut(d, f2, lo, point, delta, point + VARIABLE_HEADER, v.name);
    VariableWritten(r, point, v);
    LayoutBounds(f3);
    PutVariableCount(f3, count);
    KeptPut(d, f3, lo, point, delta, l.variablesOffset, Be32(count));
    LayoutBounds(f4);
    PutTrailerLength(f4, length);
    KeptPut(d, f4, lo, point, delta, TRAILER_LENGTH, Be32(length));
    PutOther(f3, l.variablesOffset, Be32(count), point, point + VARIABLE_HEADER + |v.name|);
    PutOther(f4, TRAILER_LENGTH, Be32(length), point, point + VARIABLE_HEADER + |v.name|);
    VariableInserted(d, r, span, delta, f, v);
    PreambleOther(r, point, Be32(v.index));
    PreambleOther(f1, point + 4, [|v.name|]);
    PreambleOther(f2, point + VARIABLE_HEADER, v.name);
    PreambleOther(f3, l.variablesOffset, Be32(count));
    PreambleOther(f4, TRAILER_LENGTH, Be32(length));
  }

  lemma VariableWritten(r: ByteString, point: nat, v: Variable)
    requires |v.name| < 0x100 && point + VARIABLE_HEADER + |v.name| <= |r|
    ensures var f := Put(Put(Put(r, point, Be32(v.index)), point + 4, [|v.name|]), point + VARIABLE_HEADER, v.name);
            f[point..point + VARIABLE_HEADER + |v.name|] == VariableBytes(v)
  {
    hide Be32;
    var a := Be32(v.index);
    var f1 := Put(r, point, a);
    var f2 := Put(f1, point + 4, [|v.name|]);
    var f := Put(f2, point + VARIABLE_HEADER, v.name);
    forall i | 0 <= i < VARIABLE_HEADER + |v.name|
      ensures f[point + i] == VariableBytes(v)[i]
    {
      if i < 4 {
        assert f[point + i] == f1[point + i] == a[i];
      } else if i == 4 {
        assert f[point + i] == f2[point + i];
      }
    }
  }

  // The slots from the used entries up to n are clear.
  ghost predicate SlotsClear(d: ByteString, n: nat) {
    && FieldsFit(d)
    && var l := LayoutOf(d);
       && |l.entries| <= n && l.indexOffset + INDEX_HEADER + INDEX_ENTRY * n <= |d|
       && forall i :: |l.entries| <= i < n ==> EntryAt(d, l.indexOffset, i) == Entry(0, 0)
  }

  // Clearing slots behind the used entries.
  lemma ClearSlots(d: ByteString, count: nat, f: ByteString)
    requires ValidBuffer(d)
    requires LayoutOf(d).IndexEnd() + INDEX_ENTRY * count <= LayoutOf(d).variablesOffset
    requires LayoutOf(d).IndexEnd() + INDEX_ENTRY * count <= |d|
    requires f == Put(d, LayoutOf(d).IndexEnd(), Zeros(INDEX_ENTRY * count))
    ensures SameContent(d, f) && LayoutOf(f) == LayoutOf(d) && SlotsClear(f, |LayoutOf(d).entries| + count)
    ensures Preamble(f) == Preamble(d)
  {
    hide LayoutOf, FieldsFit, U32, Put, Zeros, BlocksOf, VariablesSpan, VariablesIn;
    var l := LayoutOf(d);
    var at, zeros := l.IndexEnd(), Zeros(INDEX_ENTRY * count);
    LayoutBounds(d);
    PutUnstructured(d, at, zeros);
    PreambleOther(d, at, zeros);
    PutTail(d, at, zeros, l.variablesOffset);
    SameTail(d, f, l.variablesOffset);
    forall i | |l.entries| <= i < |l.entries| + count
      ensures EntryAt(f, l.indexOffset, i) == Entry(0, 0)
    {
      var offset := INDEX_ENTRY * (i - |l.entries|);
      ZeroField(d, at, INDEX_ENTRY * count, offset);
      ZeroField(d, at, INDEX_ENTRY * count, offset + 4);
    }
  }

  lemma ZeroField(d: ByteString, at: nat, n: nat, offset: nat)
    requires at + n <= |d| && offset + 4 <= n
    ensures U32(Put(d, at, Zeros(n)), at + offset) == 0
  {
    var f := Put(d, at, Zeros(n));
    assert f[at + offset..at + offset + 4] == [0, 0, 0, 0];
  }

  // Raising the count over clear slots adds empty blocks.
  lemma CountClearSlots(d: ByteString, more: nat, indexOffset: uint32, count: uint32, f: ByteString)
    requires ValidBuffer(d) && LayoutOf(d).indexOffset == indexOffset && count == |LayoutOf(d).entries| + more
    requires SlotsClear(d, count)
    requires indexOffset + INDEX_HEADER + INDEX_ENTRY * count + 2 * INDEX_ENTRY <= LayoutOf(d).variablesOffset
    requires f == Put(d, indexOffset, Be32(count))
    ensures ValidBuffer(f) && Variables(f) == Variables(d)
    ensures Blocks(f) == Blocks(d) + seq(more, _ => [])
    ensures LayoutOf(f).indexLength == LayoutOf(d).indexLength && |LayoutOf(f).entries| == count
    ensures Preamble(f) == Preamble(d)
  {
    var l := LayoutOf(d);
    hide FieldsFit, U32, Put, Be32, VariablesSpan, VariablesIn;
    var es := EntriesOf(d, indexOffset, count);
    forall i | 0 <= i < count
      ensures es[i] == if i < |l.entries| then l.entries[i] else Entry(0, 0)
    {
      assert es[i] == EntryAt(d, indexOffset, i);
    }
    ClearEntriesSound(l, |d|, es);
    CountSteps(d, count);
    assert BlockOf(d, Entry(0, 0)) == [];
    assert BlocksOf(d, es) == BlocksOf(d, l.entries) + seq(more, _ => []);
  }

  lemma ClearEntriesSound(l: Layout, size: nat, es: seq<Entry>)
    requires Sound(l, size) && |l.entries| <= |es|
    requires forall i :: 0 <= i < |es| ==> es[i] == if i < |l.entries| then l.entries[i] else Entry(0, 0)
    ensures forall i :: 0 <= i < |es| ==> EntrySound(es[i], l.DataStart(), size)
    ensures forall i, j :: 0 <= i < j < |es| ==> Disjoint(es[i], es[j])
  {
  }

  // ----- Writing into the data area -----

  // A write behind the variables changes no field of the layout, and no byte outside its range.
  lemma DataWritten(d: ByteString, at: nat, bytes: ByteString)
    requires ValidBuffer(d) && LayoutOf(d).DataStart() <= at && at + |bytes| <= |d|
    ensures var f := Put(d, at, bytes);
            && ValidBuffer(f) && Variables(f) == Variables(d) && LayoutOf(f) == LayoutOf(d)
            && Preamble(f) == Preamble(d)
  {
    hide LayoutOf, FieldsFit, U32, Put, VariablesSpan, VariablesIn;
    var l := LayoutOf(d);
    LayoutBounds(d);
    PutUnstructured(d, at, bytes);
    PreambleOther(d, at, bytes);
    PutOther(d, at, bytes, l.variablesOffset + VARIABLES_HEADER, l.DataStart());
  }

  lemma BlockWritten(d: ByteString, index: nat, offset: nat, bytes: ByteString, at: nat, f: ByteString)
    requires ValidBuffer(d) && index < |LayoutOf(d).entries|
    requires offset + |bytes| <= LayoutOf(d).entries[index].length && bytes != []
    requires at == LayoutOf(d).entries[index].address + offset && at + |bytes| <= |d|
    requires f == Put(d, at, bytes)
    ensures index < |Blocks(d)| && offset + |bytes| <= |Blocks(d)[index]|
    ensures ValidBuffer(f) && Variables(f) == Variables(d)
    ensures Blocks(f) == Blocks(d)[index := Put(Blocks(d)[index], offset, bytes)]
    ensures LayoutOf(f) == LayoutOf(d)
    ensures Preamble(f) == Preamble(d)
  {
    hide LayoutOf, FieldsFit, U32, Put, VariablesSpan, VariablesIn;
    var l := LayoutOf(d);
    SoundEntry(l, |d|, index);
    DataWritten(d, at, bytes);
    forall i | 0 <= i < |l.entries|
      ensures BlockOf(f, l.entries[i])
              == if i == index then Put(BlockOf(d, l.entries[i]), offset, bytes) else BlockOf(d, l.entries[i])
    {
      if i == index {
        PutInSlice(d, l.entries[i].address, l.entries[i].address + l.entries[i].length, offset, bytes);
      } else {
        OtherBlockKept(d, l, index, i, at, bytes);
      }
    }
  }

  lemma OtherBlockKept(d: ByteString, l: Layout, index: nat, i: nat, at: nat, bytes: ByteString)
    requires Sound(l, |d|) && index < |l.entries| && i < |l.entries| && i != index && bytes != []
    requires l.entries[index].address <= at && at + |bytes| <= l.entries[index].address + l.entries[index].length
    requires at + |bytes| <= |d|
    ensures BlockOf(Put(d, at, bytes), l.entries[i]) == BlockOf(d, l.entries[i])
  {
    hide Put;
    var e := l.entries[i];
    SoundEntry(l, |d|, i);
    if e.length > 0 {
      if i < index {
        assert Disjoint(e, l.entries[index]);
      } else {
        assert Disjoint(l.entries[index], e);
      }
      PutOther(d, at, bytes, e.address, e.address + e.length);
    }
  }

  lemma PutInSlice(d: ByteString, a: nat, b: nat, offset: nat, bytes: ByteString)
    requires a <= b <= |d| && offset + |bytes| <= b - a
    ensures Put(d, a + offset, bytes)[a..b] == Put(d[a..b], offset, bytes)
  {
    var r := Put(d, a + offset, bytes);
    forall i | 0 <= i < b - a
      ensures r[a + i] == Put(d[a..b], offset, bytes)[i]
    {
    }
  }
}
