// Libraries/libbom/Sources/bom.c: a store of numbered data blocks and named variables in one growable buffer. Every
// insertion shifts bytes and patches the stored offsets; here it is proved that the buffer still means the same list
// of blocks and variables, extended as asked.
module Boms {
  import opened Bytes
  import opened Wrappers
  import opened BomLayouts
  import opened BomUpdates

  const MAGIC: ByteString := [66, 79, 77, 83, 116, 111, 114, 101]

  // The 60 bytes written by bom_alloc_empty: no blocks, two dummy free-list entries, no variables.
  const EMPTY_FIELDS: seq<uint32> := [1, 0, 32, 24, 56, 4, 0, 0, 0, 0, 0, 0, 0]
  const EMPTY_BOM: ByteString := MAGIC + FieldRun(EMPTY_FIELDS)

  type int32 = n: int | -0x8000_0000 <= n < 0x8000_0000

  function ToUnsigned(n: int32): uint32 {
    if n < 0 then n as int + 0x1_0000_0000 else n
  }

  function ToSigned(n: uint32): int32 {
    if n >= 0x8000_0000 then n as int - 0x1_0000_0000 else n
  }

  // The index of the first variable of that name.
  function FirstBinding(variables: seq<Variable>, name: ByteString): Option<uint32> {
    if variables == [] then None
    else if CString(variables[0].name) == name then Some(variables[0].index)
    else FirstBinding(variables[1..], name)
  }

  // The length of a name is stored in one byte.
  function StoredName(name: ByteString): (r: ByteString)
    ensures |r| < 0x100
  {
    name[..|name| % 0x100]
  }

  lemma EmptyBomIsValid()
    ensures ValidBuffer(EMPTY_BOM) && Blocks(EMPTY_BOM) == [] && Variables(EMPTY_BOM) == []
    ensures Slots(EMPTY_BOM) == 0 && |EMPTY_BOM| == 60
    ensures U32(EMPTY_BOM, BLOCK_COUNT) == 0 && Signature(EMPTY_BOM) == MAGIC + Be32(1)
  {
    hide FieldRun, U32;
    var d := EMPTY_BOM;
    FieldOfRun(MAGIC, EMPTY_FIELDS, 0);
    FieldOfRun(MAGIC, EMPTY_FIELDS, 1);
    FieldOfRun(MAGIC, EMPTY_FIELDS, 2);
    FieldOfRun(MAGIC, EMPTY_FIELDS, 3);
    FieldOfRun(MAGIC, EMPTY_FIELDS, 4);
    FieldOfRun(MAGIC, EMPTY_FIELDS, 5);
    FieldOfRun(MAGIC, EMPTY_FIELDS, 6);
    FieldOfRun(MAGIC, EMPTY_FIELDS, 12);
    SignatureOf(d, 1);
  }

  lemma SignatureOf(d: ByteString, version: uint32)
    requires |d| >= INDEX_OFFSET && d[..8] == MAGIC && U32(d, 8) == version
    ensures Signature(d) == MAGIC + Be32(version)
  {
    Be32OfField(d[8..12]);
    assert d[..12] == d[..8] + d[8..12];
  }

  // The space a call inserts must fit 32-bit offsets.
  ghost predicate Room(d: ByteString, more: nat) {
    |d| + more < 0x1_0000_0000
  }

  class BomContext {
    var data: ByteString

    ghost predicate Valid()
      reads this
    {
      ValidBuffer(data)
    }

    // bom_alloc_empty
    constructor ()
      ensures Valid() && Blocks(data) == [] && Variables(data) == []
      ensures Slots(data) == 0 && |data| == 60
      ensures Signature(data) == MAGIC + Be32(1) && U32(data, BLOCK_COUNT) == 0
    {
      hide ValidBuffer, Blocks, Variables, Slots, FieldRun, U32, LayoutOf, Signature;
      data := EMPTY_BOM;
      new;
      EmptyBomIsValid();
    }

    // _bom_address_update_all
    method AddressUpdateAll(point: nat, delta: nat)
      requires Ordered(data) && LayoutOf(data).IndexEnd() <= point
      requires |data| + delta < 0x1_0000_0000
      requires forall i :: 0 <= i < |LayoutOf(data).entries| ==> LayoutOf(data).entries[i].address <= |data|
      modifies this
      ensures AddressesUpdated(old(data), data, point, delta)
    {
      hide U32, Put, FieldsFit, LayoutOf, EntriesOf, Be32;
      ghost var l := LayoutOf(data);
      ghost var entries := l.entries;
      OrderedFields(data);
      var indexOffset := U32(data, INDEX_OFFSET);
      var i := 0;
      while i < U32(data, indexOffset)
        invariant 0 <= i <= |l.entries| && indexOffset == l.indexOffset
        invariant Updating(old(data), data, entries, point, delta, i)
      {
        OrderedFields(data);
        var at := indexOffset + INDEX_HEADER + INDEX_ENTRY * i;
        var address := Shift(U32(data, at), point, delta);
        UpdateEntry(old(data), data, entries, point, delta, i);
        data := Put(data, at, Be32(address));
        entries := entries[i := entries[i].(address := address)];
        i := i + 1;
        OrderedFields(data);
      }
      OrderedFields(data);
      UpdateHeader(old(data), data, entries, point, delta);
      data := Put(data, INDEX_OFFSET, Be32(Shift(U32(data, INDEX_OFFSET), point, delta)));
      data := Put(data, VARIABLES_OFFSET, Be32(Shift(U32(data, VARIABLES_OFFSET), point, delta)));
    }

    // _bom_address_resize: the enlarged buffer ends in bytes of unknown content.
    method AddressResize(point: nat, delta: nat)
      requires Ordered(data) && LayoutOf(data).IndexEnd() <= point <= |data|
      requires Room(data, delta)
      requires var v := LayoutOf(data).variablesOffset; point <= v || v + VARIABLES_HEADER <= point
      requires forall i :: 0 <= i < |LayoutOf(data).entries| ==> LayoutOf(data).entries[i].address <= |data|
      modifies this
      ensures Resized(old(data), data, point, delta)
      ensures Preamble(data) == Preamble(old(data))
    {
      AddressUpdateAll(point, delta);
      var tail := Unknown(delta);
      UpdateAndMoveResize(old(data), data, tail, point);
      data := MoveTail(data, tail, point);
    }

    // bom_index_reserve: more index slots, same blocks and variables.
    method IndexReserve(count: nat)
      requires Valid() && Room(data, INDEX_ENTRY * count)
      modifies this
      ensures SameContent(old(data), data)
      ensures Slots(data) == Slots(old(data)) + count
      ensures Preamble(data) == Preamble(old(data))
      ensures |data| == |old(data)| + INDEX_ENTRY * count
    {
      hide U32, Put, FieldsFit, LayoutOf, EntriesOf, Be32, Blocks, Variables, VariablesSpan, Slots;
      ValidFields(data);
      var oldLength := U32(data, INDEX_LENGTH);
      var point := U32(data, INDEX_OFFSET) + oldLength;
      var delta := INDEX_ENTRY * count;
      var newLength := oldLength + delta;
      AddressResize(point, delta);
      ghost var resized := data;
      data := Put(data, INDEX_LENGTH, Be32(newLength));
      ghost var recorded := data;
      OrderedFields(resized);
      PutIndexLength(resized, newLength);
      OrderedFields(recorded);
      var at := U32(data, INDEX_OFFSET) + oldLength;
      data := Put(data, at, Zeros(delta));
      GrowSteps(old(data), resized, point, delta, at, delta, newLength, recorded, data);
      SlotsOf(old(data));
      SlotsOf(data);
    }

    // bom_index_add: a new block at the end, under the next index. The index area grows only when no reserved slot
    // is left.
    method IndexAdd(bytes: ByteString) returns (index: uint32)
      requires Valid() && Room(data, |bytes| + INDEX_ENTRY)
      modifies this
      ensures Valid()
      ensures index == |Blocks(old(data))|
      ensures Blocks(data) == Blocks(old(data)) + [bytes]
      ensures Variables(data) == Variables(old(data))
      ensures Slots(data) == Slots(old(data)) + if |Blocks(old(data))| < Slots(old(data)) then 0 else 1
      ensures U32(data, BLOCK_COUNT) == index + 1 && Signature(data) == Signature(old(data))
      ensures |old(data)| + |bytes| <= |data| <= |old(data)| + |bytes| + INDEX_ENTRY
      ensures EntryAdded(old(data), data, |bytes|)
    {
      hide U32, Put, FieldsFit, LayoutOf, EntriesOf, Be32, Blocks, Variables, VariablesSpan, Slots, HasSpare;
      ValidFields(data);
      var indexToAdd := U32(data, U32(data, INDEX_OFFSET));
      GrowIndexIfFull(indexToAdd);
      ghost var grown := data;
      BlocksCount(old(data));
      AppendBlock(indexToAdd, bytes);
      MovedFurther(LayoutOf(old(data)).entries, LayoutOf(grown).entries, LayoutOf(data).entries, |grown| - |old(data)|,
                   0);
      SlotsOf(old(data));
      SlotsOf(data);
      return indexToAdd;
    }

    // The first half of bom_index_add.
    method GrowIndexIfFull(indexToAdd: uint32)
      requires Valid() && Room(data, INDEX_ENTRY) && indexToAdd == |LayoutOf(data).entries|
      modifies this
      ensures SameContent(old(data), data) && HasSpare(LayoutOf(data), 1)
      ensures LayoutOf(data).indexLength
              == LayoutOf(old(data)).indexLength + if HasSpare(LayoutOf(old(data)), 1) then 0 else INDEX_ENTRY
      ensures |old(data)| <= |data| <= |old(data)| + INDEX_ENTRY
      ensures |LayoutOf(data).entries| == |LayoutOf(old(data)).entries|
      ensures MovedBy(LayoutOf(old(data)).entries, LayoutOf(data).entries, |data| - |old(data)|)
      ensures Preamble(data) == Preamble(old(data))
    {
      hide U32, Put, FieldsFit, LayoutOf, EntriesOf, Be32, Blocks, Variables, VariablesSpan, Preamble;
      ValidFields(data);
      var indexPoint := U32(data, INDEX_OFFSET) + INDEX_HEADER + INDEX_ENTRY * indexToAdd;
      var newIndexLength := INDEX_HEADER + INDEX_ENTRY * (indexToAdd + 1);
      if newIndexLength > U32(data, INDEX_LENGTH) - 2 * INDEX_ENTRY {
        AddressResize(indexPoint, INDEX_ENTRY);
        ghost var resized := data;
        OrderedFields(resized);
        var length := U32(data, INDEX_LENGTH) + INDEX_ENTRY;
        data := Put(data, INDEX_LENGTH, Be32(length));
        ghost var recorded := data;
        PutIndexLength(resized, length);
        OrderedFields(recorded);
        var at := U32(data, INDEX_OFFSET) + INDEX_HEADER + INDEX_ENTRY * (indexToAdd + 1);
        data := Put(data, at, Zeros(INDEX_ENTRY));
        GrowSteps(old(data), resized, indexPoint, INDEX_ENTRY, at, INDEX_ENTRY, length, recorded, data);
        ValidFields(data);
      }
    }

    // The second half of bom_index_add: the data goes to the very end of the buffer.
    method AppendBlock(indexToAdd: uint32, bytes: ByteString)
      requires Valid() && Room(data, |bytes|) && indexToAdd == |LayoutOf(data).entries|
      requires HasSpare(LayoutOf(data), 1)
      modifies this
      ensures Valid()
      ensures Blocks(data) == Blocks(old(data)) + [bytes]
      ensures Variables(data) == Variables(old(data))
      ensures LayoutOf(data).indexLength == LayoutOf(old(data)).indexLength
      ensures U32(data, BLOCK_COUNT) == indexToAdd + 1 && Signature(data) == Signature(old(data))
      ensures |data| == |old(data)| + |bytes|
      ensures EntryAdded(old(data), data, |bytes|)
    {
      hide U32, Put, FieldsFit, LayoutOf, EntriesOf, EntryAt, Be32, Blocks, Variables, VariablesSpan;
      ValidFields(data);
      var dataPoint := |data|;
      AddressResize(dataPoint, |bytes|);
      ghost var resized := data;
      ResizedOrdered(old(data), resized, dataPoint, |bytes|);
      OrderedFields(resized);
      var indexOffset := U32(data, INDEX_OFFSET);
      var at := indexOffset + INDEX_HEADER + INDEX_ENTRY * indexToAdd;
      data := Put(data, at, Be32(dataPoint));
      ghost var f1 := data;
      data := Put(data, at + 4, Be32(|bytes|));
      ghost var f2 := data;
      data := Put(data, dataPoint, bytes);
      ghost var f3 := data;
      AddDataSteps(old(data), resized, bytes, at, f1, f2, f3);
      ValidFields(f3);
      var count := U32(data, indexOffset) + 1;
      data := Put(data, indexOffset, Be32(count));
      ghost var f4 := data;
      CountOneMore(f3, dataPoint, bytes, indexOffset, count, f4);
      BlockCountStep(f4, count);
      data := Put(data, BLOCK_COUNT, Be32(count));
    }

    // bom_index_get: the bytes stored under an index. In a valid buffer the bounds warning is never reached.
    method IndexGet(index: uint32) returns (block: Option<ByteString>)
      requires Valid()
      ensures block == if index < |Blocks(data)| then Some(Blocks(data)[index]) else None
    {
      hide U32, FieldsFit, LayoutOf, EntriesOf, EntryAt, BlocksOf, BlockOf, VariablesSpan, Sound;
      ValidFields(data);
      BlocksCount(data);
      var indexOffset := U32(data, INDEX_OFFSET);
      if index >= U32(data, indexOffset) {
        return None;
      }
      var at := indexOffset + INDEX_HEADER + INDEX_ENTRY * index;
      var offset, length := U32(data, at), U32(data, at + 4);
      StoredBlock(data, index, at);
      if offset + length > |data| {
        return None;
      }
      return Some(data[offset..offset + length]);
    }

    // Where the pointer returned by bom_index_get points to.
    method AddressOf(index: uint32) returns (address: nat)
      requires Valid() && index < |Blocks(data)|
      ensures index < |LayoutOf(data).entries| && address == LayoutOf(data).entries[index].address
    {
      hide U32, FieldsFit, LayoutOf, EntriesOf, EntryAt, BlocksOf, BlockOf, VariablesSpan, Sound;
      ValidFields(data);
      BlocksCount(data);
      BlockLength(data, index);
      address := U32(data, U32(data, INDEX_OFFSET) + INDEX_HEADER + INDEX_ENTRY * index);
    }

    // A write through such a pointer, wherever in the data area it ends up.
    method WriteAt(address: nat, bytes: ByteString)
      requires Valid() && LayoutOf(data).DataStart() <= address && address + |bytes| <= |data|
      modifies this
      ensures data == Put(old(data), address, bytes)
      ensures Valid() && LayoutOf(data) == LayoutOf(old(data))
      ensures Variables(data) == Variables(old(data)) && Preamble(data) == Preamble(old(data))
    {
      DataWritten(data, address, bytes);
      data := Put(data, address, bytes);
    }

    // A write through such a pointer that stays inside the block.
    method WriteBlock(index: uint32, offset: nat, bytes: ByteString)
      requires Valid() && index < |Blocks(data)| && offset + |bytes| <= |Blocks(data)[index]|
      modifies this
      ensures Valid()
      ensures Blocks(data) == Blocks(old(data))[index := Put(Blocks(old(data))[index], offset, bytes)]
      ensures Variables(data) == Variables(old(data))
      ensures LayoutOf(data) == LayoutOf(old(data))
      ensures bytes != [] ==> var at := LayoutOf(old(data)).entries[index].address + offset;
                              at + |bytes| <= |old(data)| && data == Put(old(data), at, bytes)
      ensures |data| == |old(data)|
      ensures Preamble(data) == Preamble(old(data))
    {
      hide U32, Put, FieldsFit, LayoutOf, EntriesOf, EntryAt, BlocksOf, BlockOf, VariablesSpan, Sound;
      if bytes == [] {
        PutEmpty(Blocks(data)[index], offset);
        return;
      }
      ValidFields(data);
      BlocksCount(data);
      BlockLength(data, index);
      StoredBlock(data, index, U32(data, INDEX_OFFSET) + INDEX_HEADER + INDEX_ENTRY * index);
      var address := AddressOf(index);
      ghost var before := data;
      data := Put(data, address + offset, bytes);
      BlockWritten(before, index, offset, bytes, address + offset, data);
    }

    // bom_index_append: room of unknown content at the end of a block. An empty block gets no room, but moves away from
    // it: with something behind it, or at the end of the buffer, the buffer is not valid any more. A free entry is no
    // block.
    method IndexAppend(index: uint32, more: nat)
      requires Valid() && Room(data, more) && IsPlaced(data, index)
      modifies this
      ensures |data| == |old(data)| + more
      ensures Blocks(old(data))[index] != [] ==>
                && Valid()
                && BlockExtended(Blocks(old(data)), Blocks(data), index, more)
                && Variables(data) == Variables(old(data))
                && Slots(data) == Slots(old(data))
                && Preamble(data) == Preamble(old(data))
                && NeighboursKept(LayoutOf(old(data)).entries, LayoutOf(data).entries)
      ensures Blocks(old(data))[index] == [] && more > 0
              && IsBlockEnd(LayoutOf(old(data)), |old(data)|, LayoutOf(old(data)).entries[index].address) ==>
                !Valid()
    {
      hide U32, Put, FieldsFit, LayoutOf, EntriesOf, Be32, Blocks, Variables, VariablesSpan, ValidBuffer, Ordered,
        Resized, BlockExtended, Slots;
      ghost var e := PlacedEntry(data, index);
      ValidFields(data);
      var at := U32(data, INDEX_OFFSET) + INDEX_HEADER + INDEX_ENTRY * index;
      var dataPoint := U32(data, at) + U32(data, at + 4);
      AddressResize(dataPoint, more);
      ghost var resized := data;
      ResizedOrdered(old(data), resized, dataPoint, more);
      ResizedEntry(old(data), resized, dataPoint, more, index, e);
      OrderedFields(resized);
      at := U32(data, INDEX_OFFSET) + INDEX_HEADER + INDEX_ENTRY * index;
      data := Put(data, at + 4, Be32(U32(data, at + 4) + more));
      if e.length > 0 {
        AppendSteps(old(data), resized, index, e, more, at + 4, data);
        SlotsOf(old(data));
        SlotsOf(data);
      } else if more > 0 && IsBlockEnd(LayoutOf(old(data)), |old(data)|, e.address) {
        AppendNeedsContent(old(data), resized, index, e, more, at + 4, data);
      }
    }

    // bom_free_indices_add: empty entries behind the others, not counted as blocks in the header. Without enough
    // reserved slots the buffer is made longer by one entry whatever the count, while the recorded length of the index
    // grows by as many as are asked for: the buffer stays valid exactly when there are slots or one entry is asked for.
    method FreeIndicesAdd(count: nat) returns (last: uint32)
      requires Valid() && count > 0 && Room(data, INDEX_ENTRY)
      requires || |Blocks(data)| + count <= Slots(data) || count == 1
               || (&& Room(data, INDEX_ENTRY * count)
                   && LayoutOf(data).IndexEnd() + INDEX_ENTRY * count <= |data| + INDEX_ENTRY)
      modifies this
      ensures Valid() <==> |Blocks(old(data))| + count <= Slots(old(data)) || count == 1
      ensures Valid() ==>
                && Blocks(data) == Blocks(old(data)) + seq(count, _ => [])
                && Variables(data) == Variables(old(data))
                && Slots(data) == Slots(old(data)) + (if |Blocks(old(data))| + count <= Slots(old(data)) then 0 else 1)
                && Preamble(data) == Preamble(old(data))
      ensures last as int == |Blocks(old(data))| + count - 1
    {
      hide U32, Put, FieldsFit, LayoutOf, EntriesOf, EntryAt, Be32, Blocks, Variables, VariablesSpan, Ordered, Sound,
        Slots, Zeros, Resized, ClearedAndCounted, ValidBuffer;
      SlotsOf(data);
      ValidFields(data);
      BlocksCount(data);
      ghost var l := LayoutOf(data);
      var indexOffset := U32(data, INDEX_OFFSET);
      var firstNew := U32(data, indexOffset);
      var indexPoint := indexOffset + INDEX_HEADER + INDEX_ENTRY * firstNew;
      var newIndexLength := INDEX_HEADER + INDEX_ENTRY * (firstNew + count);
      if newIndexLength > U32(data, INDEX_LENGTH) - 2 * INDEX_ENTRY {
        AddressResize(indexPoint, INDEX_ENTRY);
        ghost var resized := data;
        ResizedOrdered(old(data), resized, indexPoint, INDEX_ENTRY);
        OrderedFields(resized);
        var length := U32(data, INDEX_LENGTH) + count * INDEX_ENTRY;
        data := Put(data, INDEX_LENGTH, Be32(length));
        ghost var grown := data;
        PutIndexLength(resized, length);
        OrderedFields(grown);
        ClearAndCount(indexOffset, firstNew, count);
        FreeGrowthIsConsistentForOne(old(data), resized, count, length, grown, data);
      } else {
        ClearAndCount(indexOffset, firstNew, count);
        FreeSteps(old(data), count, data);
      }
      if count == 1 || newIndexLength <= l.indexLength - 2 * INDEX_ENTRY {
        SlotsOf(data);
      }
      return firstNew + (count - 1);
    }

    // The second half of bom_free_indices_add, the same in a buffer that is not valid any more.
    method ClearAndCount(indexOffset: uint32, firstNew: uint32, count: nat)
      requires HEADER_SIZE <= indexOffset && firstNew + count < 0x1_0000_0000
      requires indexOffset + INDEX_HEADER + INDEX_ENTRY * (firstNew + count) <= |data|
      requires U32(data, indexOffset) == firstNew
      modifies this
      ensures data == ClearedAndCounted(old(data), indexOffset, firstNew, count)
    {
      hide U32, Put, Be32, Zeros;
      var first := indexOffset + INDEX_HEADER + INDEX_ENTRY * firstNew;
      PutZeros(data, first);
      for i := 0 to count
        invariant |data| == |old(data)| && data == Put(old(data), first, Zeros(INDEX_ENTRY * i))
      {
        var at := indexOffset + INDEX_HEADER + INDEX_ENTRY * (firstNew + i);
        MoreZeros(old(data), first, INDEX_ENTRY * i);
        data := Put(data, at, Be32(0));
        MoreZeros(old(data), first, INDEX_ENTRY * i + 4);
        data := Put(data, at + 4, Be32(0));
      }
      U32Other(old(data), first, Zeros(INDEX_ENTRY * count), indexOffset);
      var newCount := U32(data, indexOffset) + count;
      data := Put(data, indexOffset, Be32(newCount));
    }

    // The walk over the variables that bom_variable_add starts with.
    method VariablesEnd() returns (offset: nat)
      requires Valid()
      ensures VariablesSpan(VariablesArea(data, LayoutOf(data)), LayoutOf(data).variableCount) == Some(offset)
    {
      hide U32, FieldsFit, LayoutOf, VariablesSpan, VariablesIn;
      ValidFields(data);
      ghost var l := LayoutOf(data);
      ghost var s := VariablesArea(data, l);
      var variables := U32(data, VARIABLES_OFFSET);
      offset := 0;
      SpanOfNone(s);
      for i := 0 to U32(data, variables)
        invariant VariablesSpan(s, i) == Some(offset)
      {
        NthVariable(s, l.variableCount, i);
        offset := offset + VARIABLE_HEADER + data[variables + VARIABLES_HEADER + offset + 4];
      }
    }

    // bom_variable_add: one more variable behind the others. The length byte keeps only the low eight bits of the
    // name's length, and as many bytes of the name are stored.
    method VariableAdd(name: ByteString, index: int32)
      requires Valid() && 0 !in name && Room(data, |name| + 9)
      modifies this
      ensures Valid()
      ensures Blocks(data) == Blocks(old(data))
      ensures Variables(data) == Variables(old(data)) + [Variable(ToUnsigned(index), StoredName(name))]
      ensures Slots(data) == Slots(old(data)) && |old(data)| <= |data| <= |old(data)| + |name| + 9
      ensures Preamble(data) == Preamble(old(data))
      ensures MovedBy(LayoutOf(old(data)).entries, LayoutOf(data).entries, |data| - |old(data)|)
    {
      hide U32, Put, FieldsFit, LayoutOf, EntriesOf, EntryAt, Be32, Blocks, Variables, VariablesSpan, StoredName,
        ValidBuffer, Ordered, Resized, Slots;
      ValidFields(data);
      ghost var l := LayoutOf(data);
      var variableOffset := VariablesEnd();
      SpanAtLeast(VariablesArea(data, l), l.variableCount);
      var point := U32(data, VARIABLES_OFFSET) + VARIABLES_HEADER + variableOffset;
      var delta := VARIABLE_HEADER + |name|;
      delta := delta + (4 - delta % 4);
      AddressResize(point, delta);
      ghost var resized := data;
      ResizedOrdered(old(data), resized, point, delta);
      OrderedFields(resized);
      ghost var v := Variable(ToUnsigned(index), StoredName(name));
      StoredNameLength(name);
      var variables := U32(data, VARIABLES_OFFSET);
      var at := variables + VARIABLES_HEADER + variableOffset;
      data := Put(data, at, Be32(ToUnsigned(index)));
      ghost var f1 := data;
      var length: byte := |name| % 0x100;
      data := Put(data, at + 4, [length]);
      ghost var f2 := data;
      data := Put(data, at + VARIABLE_HEADER, name[..length]);
      ghost var f3 := data;
      VariableFields(resized, at, v, f1, f2, f3);
      var count := U32(data, variables) + 1;
      data := Put(data, variables, Be32(count));
      ghost var f4 := data;
      TrailerKept(f3, variables, count);
      var trailer := U32(data, TRAILER_LENGTH) + delta;
      data := Put(data, TRAILER_LENGTH, Be32(trailer));
      VariableSteps(old(data), resized, at, variableOffset, delta, v, count, trailer, f1, f2, f3, f4, data);
      SlotsOf(old(data));
      SlotsOf(data);
    }

    // bom_variable_get: the index bound to a name by the first variable of that name, or -1.
    method VariableGet(name: ByteString) returns (index: int32)
      requires Valid()
      ensures index == match FirstBinding(Variables(data), name) case None => -1 case Some(i) => ToSigned(i)
    {
      hide U32, FieldsFit, LayoutOf, VariablesSpan, VariablesIn, CString;
      ValidFields(data);
      ghost var l := LayoutOf(data);
      ghost var s := VariablesArea(data, l);
      ghost var all := Variables(data);
      var variables := U32(data, VARIABLES_OFFSET);
      var offset := 0;
      SpanOfNone(s);
      for i := 0 to U32(data, variables)
        invariant VariablesSpan(s, i) == Some(offset)
        invariant FirstBinding(all, name) == FirstBinding(all[i..], name)
      {
        NthVariable(s, l.variableCount, i);
        var at := variables + VARIABLES_HEADER + offset;
        var length := data[at + 4];
        VariableInArea(data, l, offset);
        var variableName := CString(data[at + VARIABLE_HEADER..at + VARIABLE_HEADER + length]);
        if variableName == name {
          return ToSigned(U32(data, at));
        }
        assert all[i..][1..] == all[i + 1..];
        offset := offset + VARIABLE_HEADER + length;
      }
      return -1;
    }
  }

  // The index area has room for n more entries besides the two dummy ones.
  predicate HasSpare(l: Layout, n: nat) {
    l.IndexEnd() + INDEX_ENTRY * n + 2 * INDEX_ENTRY <= l.indexOffset + l.indexLength
  }

  // The last entry is new and ends at the end of the buffer; what was inserted elsewhere moved all other blocks.
  ghost predicate EntryAdded(d: ByteString, f: ByteString, length: nat)
    requires ValidBuffer(d) && ValidBuffer(f)
  {
    var entries, entries' := LayoutOf(d).entries, LayoutOf(f).entries;
    && |entries'| == |entries| + 1
    && entries'[|entries|].length == length && entries'[|entries|].address + length == |f|
    && |d| + length <= |f| && MovedBy(entries, entries', |f| - |d| - length)
  }

  lemma BlocksCount(d: ByteString)
    requires ValidBuffer(d)
    ensures |Blocks(d)| == |LayoutOf(d).entries|
  {
  }

  lemma StoredBlock(d: ByteString, index: nat, at: nat)
    requires ValidBuffer(d) && index < |LayoutOf(d).entries|
    requires at == LayoutOf(d).indexOffset + INDEX_HEADER + INDEX_ENTRY * index && at + 8 <= |d|
    ensures U32(d, at) + U32(d, at + 4) <= |d|
    ensures index < |Blocks(d)| && Blocks(d)[index] == d[U32(d, at)..U32(d, at) + U32(d, at + 4)]
  {
    hide U32, VariablesSpan;
    var l := LayoutOf(d);
    assert l.entries[index] == EntryAt(d, l.indexOffset, index);
    assert EntrySound(l.entries[index], l.DataStart(), |d|);
  }

  lemma BlockLength(d: ByteString, index: nat)
    requires ValidBuffer(d) && index < |LayoutOf(d).entries|
    ensures var at := LayoutOf(d).indexOffset + INDEX_HEADER + INDEX_ENTRY * index;
            && at + 8 <= |d|
            && LayoutOf(d).entries[index] == Entry(U32(d, at), U32(d, at + 4))
    ensures index < |Blocks(d)| && |Blocks(d)[index]| == LayoutOf(d).entries[index].length
  {
    hide U32, VariablesSpan;
    var l := LayoutOf(d);
    assert l.entries[index] == EntryAt(d, l.indexOffset, index);
    assert EntrySound(l.entries[index], l.DataStart(), |d|);
  }

  lemma PutEmpty(d: ByteString, at: nat)
    requires at <= |d|
    ensures Put(d, at, []) == d
  {
  }

  lemma PutNothing(d: ByteString, at: nat)
    requires at <= |d|
    ensures Put(d, at, Zeros(0)) == d
  {
  }

  lemma SpanOfNone(s: ByteString)
    ensures VariablesSpan(s, 0) == Some(0)
  {
  }

  lemma StoredNameLength(name: ByteString)
    ensures StoredName(name) == name[..|name| % 0x100] && |StoredName(name)| == |name| % 0x100
  {
  }

  // The variable count is still in place after the variable has been written behind it.
  lemma VariableFields(r: ByteString, at: nat, v: Variable, f1: ByteString, f2: ByteString, f3: ByteString)
    requires Ordered(r) && |v.name| < 0x100 && at + VARIABLE_HEADER + |v.name| <= |r|
    requires LayoutOf(r).variablesOffset + VARIABLES_HEADER <= at
    requires f1 == Put(r, at, Be32(v.index)) && f2 == Put(f1, at + 4, [|v.name|])
    requires f3 == Put(f2, at + VARIABLE_HEADER, v.name)
    ensures |f3| == |r|
    ensures U32(f3, LayoutOf(r).variablesOffset) == LayoutOf(r).variableCount
    ensures U32(f3, TRAILER_LENGTH) == LayoutOf(r).trailerLength
    ensures HEADER_SIZE <= LayoutOf(r).variablesOffset
  {
    hide U32, Put;
    var o := LayoutOf(r).variablesOffset;
    U32Other(r, at, Be32(v.index), o);
    U32Other(f1, at + 4, [|v.name|], o);
    U32Other(f2, at + VARIABLE_HEADER, v.name, o);
    U32Other(r, at, Be32(v.index), TRAILER_LENGTH);
    U32Other(f1, at + 4, [|v.name|], TRAILER_LENGTH);
    U32Other(f2, at + VARIABLE_HEADER, v.name, TRAILER_LENGTH);
  }

  lemma TrailerKept(d: ByteString, at: nat, n: uint32)
    requires HEADER_SIZE <= at && at + 4 <= |d|
    ensures U32(Put(d, at, Be32(n)), TRAILER_LENGTH) == U32(d, TRAILER_LENGTH)
  {
    U32Other(d, at, Be32(n), TRAILER_LENGTH);
  }

  // A variable read at its place in the buffer.
  lemma VariableInArea(d: ByteString, l: Layout, p: nat)
    requires VARIABLES_HEADER <= l.trailerLength && l.DataStart() <= |d|
    requires var s := VariablesArea(d, l); p + VARIABLE_HEADER <= |s| && p + VARIABLE_HEADER + s[p + 4] <= |s|
    ensures var s := VariablesArea(d, l);
            var at := l.variablesOffset + VARIABLES_HEADER + p;
            && d[at + 4] == s[p + 4]
            && VariableAt(s, p) == Variable(U32(d, at), d[at + VARIABLE_HEADER..at + VARIABLE_HEADER + d[at + 4]])
  {
    var lo := l.variablesOffset + VARIABLES_HEADER;
    var s := VariablesArea(d, l);
    SliceOfSlice(d, lo, l.DataStart(), p, p + 4);
    SliceOfSlice(d, lo, l.DataStart(), p + VARIABLE_HEADER, p + VARIABLE_HEADER + s[p + 4]);
  }

  // How many blocks fit before the index area has to grow.
  ghost function Slots(d: ByteString): nat
    requires ValidBuffer(d)
  {
    (LayoutOf(d).indexLength - INDEX_HEADER - 2 * INDEX_ENTRY) / INDEX_ENTRY
  }

  lemma SlotsOf(d: ByteString)
    requires ValidBuffer(d)
    ensures |Blocks(d)| <= Slots(d)
    ensures LayoutOf(d).indexLength >= 20 && Slots(d) == (LayoutOf(d).indexLength - 20) / 8
    ensures forall n :: HasSpare(LayoutOf(d), n) <==> |Blocks(d)| + n <= Slots(d)
  {
  }

  // The entry lies in the data area, as the entry of every block with content does.
  ghost predicate IsPlaced(d: ByteString, index: nat)
    requires ValidBuffer(d)
  {
    index < |Blocks(d)| && (Blocks(d)[index] != [] || LayoutOf(d).DataStart() <= LayoutOf(d).entries[index].address)
  }

  // Such an entry, and what can be read of it.
  lemma PlacedEntry(d: ByteString, index: nat) returns (e: Entry)
    requires ValidBuffer(d) && IsPlaced(d, index)
    ensures var l := LayoutOf(d);
            && index < |l.entries| && e == l.entries[index] && (e.length > 0 <==> Blocks(d)[index] != [])
            && l.DataStart() <= e.address && e.address + e.length <= |d|
            && var at := l.indexOffset + INDEX_HEADER + INDEX_ENTRY * index;
               at + 8 <= |d| && U32(d, at) == e.address && U32(d, at + 4) == e.length
  {
    var l := LayoutOf(d);
    e := l.entries[index];
    assert Blocks(d)[index] == BlockOf(d, e);
    assert EntrySound(e, l.DataStart(), |d|);
  }

  lemma ResizedEntry(d: ByteString, r: ByteString, point: nat, delta: nat, index: nat, e: Entry)
    requires Resized(d, r, point, delta) && index < |LayoutOf(d).entries| && LayoutOf(d).entries[index] == e
    ensures var at := LayoutOf(d).indexOffset + INDEX_HEADER + INDEX_ENTRY * index;
            at + 8 <= |r| && U32(r, at + 4) == e.length
  {
    assert LayoutOf(r).entries[index] == EntryAt(r, LayoutOf(d).indexOffset, index);
  }

  // What a valid buffer says about its fields.
  lemma ValidFields(d: ByteString)
    requires ValidBuffer(d)
    ensures Ordered(d)
    ensures var l := LayoutOf(d);
            && |d| >= HEADER_SIZE
            && l.indexOffset == U32(d, INDEX_OFFSET)
            && l.variablesOffset == U32(d, VARIABLES_OFFSET)
            && l.indexLength == U32(d, INDEX_LENGTH)
            && l.trailerLength == U32(d, TRAILER_LENGTH)
            && HEADER_SIZE <= l.indexOffset && l.IndexEnd() + 2 * INDEX_ENTRY <= l.variablesOffset
            && l.indexOffset + l.indexLength == l.variablesOffset
            && VARIABLES_HEADER <= l.trailerLength && l.DataStart() <= |d|
            && |l.entries| == U32(d, l.indexOffset)
            && l.variableCount == U32(d, l.variablesOffset)
            && forall i :: 0 <= i < |l.entries| ==> l.entries[i].address <= |d|
  {
    var l := LayoutOf(d);
    forall i | 0 <= i < |l.entries|
      ensures l.entries[i].address <= |d|
    {
      assert EntrySound(l.entries[i], l.DataStart(), |d|);
    }
  }

  // Freshly allocated memory: any bytes at all.
  method Unknown(n: nat) returns (bytes: ByteString)
    ensures |bytes| == n
  {
    bytes := Zeros(n);
    var other: ByteString := *;
    if |other| == n {
      bytes := other;
    }
  }

  lemma OrderedFields(d: ByteString)
    requires Ordered(d)
    ensures FieldsFit(d)
    ensures var l := LayoutOf(d);
            && |d| >= HEADER_SIZE
            && l.indexOffset == U32(d, INDEX_OFFSET)
            && l.variablesOffset == U32(d, VARIABLES_OFFSET)
            && l.indexLength == U32(d, INDEX_LENGTH)
            && l.trailerLength == U32(d, TRAILER_LENGTH)
            && HEADER_SIZE <= l.indexOffset && l.IndexEnd() <= |d| && l.variablesOffset + VARIABLES_HEADER <= |d|
            && |l.entries| == U32(d, l.indexOffset)
            && l.variableCount == U32(d, l.variablesOffset)
  {
  }

  // The first n entries are updated; apart from entries nothing has changed yet.
  ghost predicate Updating(d: ByteString, u: ByteString, entries: seq<Entry>, point: nat, delta: nat, n: nat) {
    && Ordered(d) && Ordered(u) && |u| == |d|
    && LayoutOf(u) == LayoutOf(d).(entries := entries)
    && |entries| == |LayoutOf(d).entries|
    && (forall i :: 0 <= i < |entries| ==>
          && entries[i].length == LayoutOf(d).entries[i].length
          && entries[i].address == if i < n then Shift(LayoutOf(d).entries[i].address, point, delta)
                                   else LayoutOf(d).entries[i].address)
    && Preamble(u) == Preamble(d)
    && u[LayoutOf(d).IndexEnd()..] == d[LayoutOf(d).IndexEnd()..]
  }

  lemma UpdateEntry(d: ByteString, u: ByteString, entries: seq<Entry>, point: nat, delta: nat, i: nat)
    requires Updating(d, u, entries, point, delta, i) && i < |entries|
    requires |d| + delta < 0x1_0000_0000 && LayoutOf(d).entries[i].address <= |d|
    ensures var at := LayoutOf(d).indexOffset + INDEX_HEADER + INDEX_ENTRY * i;
            && at + 4 <= |u| && U32(u, at) == entries[i].address
            && var address := Shift(U32(u, at), point, delta);
               && address < 0x1_0000_0000
               && Updating(d, Put(u, at, Be32(address)), entries[i := entries[i].(address := address)], point, delta,
                           i + 1)
  {
    hide U32, Put, Be32;
    var l := LayoutOf(d);
    var at := l.indexOffset + INDEX_HEADER + INDEX_ENTRY * i;
    assert entries[i] == EntryAt(u, l.indexOffset, i);
    var address := Shift(U32(u, at), point, delta);
    PutEntryAddress(u, i, address);
    PreambleOther(u, at, Be32(address));
    PutTail(u, at, Be32(address), l.IndexEnd());
  }

  lemma UpdateHeader(d: ByteString, u: ByteString, entries: seq<Entry>, point: nat, delta: nat)
    requires FieldsFit(d) && Updating(d, u, entries, point, delta, |LayoutOf(d).entries|)
    requires LayoutOf(d).IndexEnd() <= point && |d| + delta < 0x1_0000_0000
    ensures |u| >= HEADER_SIZE && Shift(U32(u, INDEX_OFFSET), point, delta) == U32(u, INDEX_OFFSET)
    ensures var u1 := Put(u, INDEX_OFFSET, Be32(U32(u, INDEX_OFFSET)));
            && Shift(U32(u1, VARIABLES_OFFSET), point, delta) < 0x1_0000_0000
            && AddressesUpdated(d, Put(u1, VARIABLES_OFFSET, Be32(Shift(U32(u1, VARIABLES_OFFSET), point, delta))),
                                point, delta)
  {
    hide U32, Put, Be32, EntriesOf;
    var l := LayoutOf(d);
    PutSameField(u, INDEX_OFFSET);
    var v := Shift(U32(u, VARIABLES_OFFSET), point, delta);
    var r := Put(u, VARIABLES_OFFSET, Be32(v));
    PutField(u, VARIABLES_OFFSET, v);
    PreambleOther(u, VARIABLES_OFFSET, Be32(v));
    U32Other(u, VARIABLES_OFFSET, Be32(v), INDEX_OFFSET);
    U32Other(u, VARIABLES_OFFSET, Be32(v), INDEX_LENGTH);
    U32Other(u, VARIABLES_OFFSET, Be32(v), TRAILER_LENGTH);
    U32Other(u, VARIABLES_OFFSET, Be32(v), l.indexOffset);
    EntriesOther(u, VARIABLES_OFFSET, Be32(v), l.indexOffset, |l.entries|);
    PutTail(u, VARIABLES_OFFSET, Be32(v), l.IndexEnd());
  }

  // Writing back the value of a field changes nothing.
  lemma PutSameField(d: ByteString, o: nat)
    requires o + 4 <= |d|
    ensures Put(d, o, Be32(U32(d, o))) == d
  {
    Be32OfField(d[o..o + 4]);
  }

  // ----- What the operations mean for lookups -----

  // Adding a variable changes no earlier binding; it binds its own stored name only if that was unbound.
  lemma {:induction false} BindingAfterAdd(variables: seq<Variable>, v: Variable, name: ByteString)
    ensures FirstBinding(variables + [v], name)
            == match FirstBinding(variables, name)
               case Some(i) => Some(i)
               case None => if CString(v.name) == name then Some(v.index) else None
  {
    if variables == [] {
      assert [v][1..] == [];
    } else {
      assert (variables + [v])[1..] == variables[1..] + [v];
      BindingAfterAdd(variables[1..], v, name);
    }
  }

  // A new name is found again after bom_variable_add exactly when its length fits the length byte.
  lemma AddedVariableIsFound(variables: seq<Variable>, name: ByteString, index: uint32)
    requires 0 !in name && FirstBinding(variables, name).None?
    ensures FirstBinding(variables + [Variable(index, StoredName(name))], name) == Some(index) <==> |name| < 0x100
  {
    BindingAfterAdd(variables, Variable(index, StoredName(name)), name);
    CStringWhole(StoredName(name));
    if |name| < 0x100 {
      assert StoredName(name) == name;
    }
  }

  lemma PutZeros(d: ByteString, at: nat)
    requires at <= |d|
    ensures Put(d, at, Zeros(0)) == d
  {
  }

  lemma MoreZeros(d: ByteString, at: nat, n: nat)
    requires at + n + 4 <= |d|
    ensures Put(Put(d, at, Zeros(n)), at + n, Be32(0)) == Put(d, at, Zeros(n + 4))
  {
    assert Be32(0) == [0, 0, 0, 0];
  }

  // Clear entries behind the used ones, and a count that takes them in.
  function ClearedAndCounted(d: ByteString, indexOffset: nat, n: nat, count: nat): (r: ByteString)
    requires n + count < 0x1_0000_0000 && indexOffset + INDEX_HEADER + INDEX_ENTRY * (n + count) <= |d|
    ensures |r| == |d|
  {
    var cleared := Put(d, indexOffset + INDEX_HEADER + INDEX_ENTRY * n, Zeros(INDEX_ENTRY * count));
    Put(cleared, indexOffset, Be32(n + count))
  }

  // With enough room in the index the clear entries become empty blocks.
  lemma FreeSteps(d: ByteString, count: nat, f: ByteString)
    requires ValidBuffer(d) && HasSpare(LayoutOf(d), count)
    requires var l := LayoutOf(d);
             && |l.entries| + count < 0x1_0000_0000
             && l.indexOffset + INDEX_HEADER + INDEX_ENTRY * (|l.entries| + count) <= |d|
             && f == ClearedAndCounted(d, l.indexOffset, |l.entries|, count)
    ensures ValidBuffer(f) && Variables(f) == Variables(d)
    ensures Blocks(f) == Blocks(d) + seq(count, _ => [])
    ensures LayoutOf(f).indexLength == LayoutOf(d).indexLength
    ensures Preamble(f) == Preamble(d)
  {
    hide U32, Put, LayoutOf, FieldsFit, EntriesOf, Be32, VariablesSpan, Zeros;
    var l := LayoutOf(d);
    var cleared := Put(d, l.IndexEnd(), Zeros(INDEX_ENTRY * count));
    ClearSlots(d, count, cleared);
    CountClearSlots(cleared, count, l.indexOffset, |l.entries| + count, f);
  }

  // Growing the index for free entries without reserved slots leaves a valid buffer only for a single entry: the
  // variables move by one entry, but the recorded length grows by as many as were asked for.
  lemma FreeGrowthIsConsistentForOne(d: ByteString, r: ByteString, count: nat, length: uint32, g: ByteString,
                                     f: ByteString)
    requires ValidBuffer(d) && |r| < 0x1_0000_0000 && count > 0
    requires Resized(d, r, LayoutOf(d).IndexEnd(), INDEX_ENTRY)
    requires length == LayoutOf(d).indexLength + INDEX_ENTRY * count && |r| >= HEADER_SIZE
    requires g == Put(r, INDEX_LENGTH, Be32(length))
    requires var l := LayoutOf(d);
             && |l.entries| + count < 0x1_0000_0000
             && l.indexOffset + INDEX_HEADER + INDEX_ENTRY * (|l.entries| + count) <= |g|
             && f == ClearedAndCounted(g, l.indexOffset, |l.entries|, count)
    ensures ValidBuffer(f) <==> count == 1
    ensures count == 1 ==>
              && Variables(f) == Variables(d) && Blocks(f) == Blocks(d) + seq(1, _ => [])
              && LayoutOf(f).indexLength == length
              && Preamble(f) == Preamble(r)
  {
    hide U32, Put, LayoutOf, FieldsFit, EntriesOf, Be32, VariablesSpan, Blocks, Variables, ClearedAndCounted;
    var l := LayoutOf(d);
    ValidFields(d);
    ResizedOrdered(d, r, l.IndexEnd(), INDEX_ENTRY);
    PutIndexLength(r, length);
    if count == 1 {
      PutNothing(g, l.IndexEnd());
      GrowSteps(d, r, l.IndexEnd(), INDEX_ENTRY, l.IndexEnd(), 0, length, g, g);
      FreeSteps(g, 1, f);
    } else {
      OrderedFields(g);
      HeaderKept(g, l.indexOffset, |l.entries|, count);
      WrongLength(f);
    }
  }

  lemma HeaderKept(d: ByteString, indexOffset: nat, n: nat, count: nat)
    requires HEADER_SIZE <= indexOffset
    requires n + count < 0x1_0000_0000 && indexOffset + INDEX_HEADER + INDEX_ENTRY * (n + count) <= |d|
    ensures var f := ClearedAndCounted(d, indexOffset, n, count);
            && U32(f, INDEX_OFFSET) == U32(d, INDEX_OFFSET)
            && U32(f, INDEX_LENGTH) == U32(d, INDEX_LENGTH)
            && U32(f, VARIABLES_OFFSET) == U32(d, VARIABLES_OFFSET)
  {
    hide U32, Put, Be32;
    var at, zeros := indexOffset + INDEX_HEADER + INDEX_ENTRY * n, Zeros(INDEX_ENTRY * count);
    var cleared := Put(d, at, zeros);
    U32Other(d, at, zeros, INDEX_OFFSET);
    U32Other(d, at, zeros, INDEX_LENGTH);
    U32Other(d, at, zeros, VARIABLES_OFFSET);
    U32Other(cleared, indexOffset, Be32(n + count), INDEX_OFFSET);
    U32Other(cleared, indexOffset, Be32(n + count), INDEX_LENGTH);
    U32Other(cleared, indexOffset, Be32(n + count), VARIABLES_OFFSET);
  }

  // In a valid buffer the variables follow the index.
  lemma WrongLength(d: ByteString)
    requires |d| >= HEADER_SIZE && U32(d, INDEX_OFFSET) + U32(d, INDEX_LENGTH) != U32(d, VARIABLES_OFFSET)
    ensures !ValidBuffer(d)
  {
  }

  // A place where a block ends: the end of the buffer, or the start of another block.
  ghost predicate IsBlockEnd(l: Layout, size: nat, p: nat) {
    p == size || exists i :: 0 <= i < |l.entries| && l.entries[i].length > 0 && l.entries[i].address == p
  }

  lemma EmptyLengthened(l: Layout, l': Layout, size: nat, i: nat, more: nat)
    requires i < |l.entries| && l.entries[i].length == 0 && 0 < more && IsBlockEnd(l, size, l.entries[i].address)
    requires |l'.entries| == |l.entries| && l'.entries[i].address == l.entries[i].address + more
    requires l'.entries[i].length == more
    requires forall j :: 0 <= j < |l.entries| && j != i && l.entries[j].address >= l.entries[i].address ==>
               && l'.entries[j].address == l.entries[j].address + more
               && l'.entries[j].length == l.entries[j].length
    ensures !Sound(l', size + more)
  {
    var e := l.entries[i];
    if e.address == size {
      assert !EntrySound(l'.entries[i], l'.DataStart(), size + more);
    } else {
      var j :| 0 <= j < |l.entries| && l.entries[j].length > 0 && l.entries[j].address == e.address;
      assert !Disjoint(l'.entries[i], l'.entries[j]) && !Disjoint(l'.entries[j], l'.entries[i]);
    }
  }

  // Lengthening a block keeps the layout valid exactly when the block is not empty: the address of an empty one moves
  // along with the bytes behind it, so that it then covers bytes of the next block, or none that exist.
  lemma AppendNeedsContent(d: ByteString, r: ByteString, i: nat, e: Entry, more: nat, at: nat, f: ByteString)
    requires ValidBuffer(d) && |r| < 0x1_0000_0000 && 0 < more && e.length + more < 0x1_0000_0000
    requires i < |LayoutOf(d).entries| && LayoutOf(d).entries[i] == e && LayoutOf(d).DataStart() <= e.address
    requires IsBlockEnd(LayoutOf(d), |d|, e.address + e.length)
    requires Resized(d, r, e.address + e.length, more)
    requires at == LayoutOf(d).indexOffset + INDEX_HEADER + INDEX_ENTRY * i + 4 && at + 4 <= |r|
    requires f == Put(r, at, Be32(e.length + more))
    ensures ValidBuffer(f) <==> e.length > 0
  {
    hide U32, Put, FieldsFit, LayoutOf, EntriesOf, Be32, VariablesSpan, Blocks, Variables, BlockExtended;
    if e.length > 0 {
      AppendSteps(d, r, i, e, more, at, f);
    } else {
      ValidFields(d);
      ResizedOrdered(d, r, e.address, more);
      PutEntryLength(r, i, more);
      var es := LayoutOf(f).entries;
      assert es[i] == Entry(e.address + more, more);
      EmptyLengthened(LayoutOf(d), LayoutOf(f), |d|, i, more);
    }
  }
}
