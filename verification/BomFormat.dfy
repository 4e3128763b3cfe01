// The bytes of a BOM file at their places (Libraries/libbom/Headers/bom/bom_format.h): what the other modules read
// through named offsets and fields, said with plain numbers.
module BomFormats {
  import opened Bytes
  import opened BomLayouts
  import opened BomUpdates
  import opened Boms
  import opened BomTrees
  import opened CarWriters

  // Four bytes, the highest first.
  function BigEndian(d: ByteString, at: nat): int
    requires at + 4 <= |d|
  {
    16777216 * d[at] as int + 65536 * d[at + 1] as int + 256 * d[at + 2] as int + d[at + 3] as int
  }

  function Short(d: ByteString, at: nat): int
    requires at + 2 <= |d|
  {
    256 * d[at] as int + d[at + 1] as int
  }

  ghost predicate IsText(d: ByteString, at: nat, text: string) {
    at + |text| <= |d| && forall i :: 0 <= i < |text| ==> d[at + i] == text[i] as int
  }

  lemma FieldIsBigEndian(d: ByteString, at: nat)
    requires at + 4 <= |d|
    ensures U32(d, at) == BigEndian(d, at)
  {
  }

  // The header, and the count in front of the index.
  lemma HeaderFormat(d: ByteString)
    requires ValidBuffer(d)
    ensures |d| >= 32
    ensures var l := LayoutOf(d);
            && BigEndian(d, 16) == l.indexOffset && BigEndian(d, 20) == l.indexLength
            && BigEndian(d, 24) == l.variablesOffset && BigEndian(d, 28) == l.trailerLength
            && l.indexOffset + l.indexLength == l.variablesOffset
            && l.indexOffset + 4 <= |d| && BigEndian(d, l.indexOffset) == |l.entries| == |Blocks(d)|
            && l.variablesOffset + 4 <= |d| && BigEndian(d, l.variablesOffset) == |Variables(d)|
  {
    hide U32, VariablesSpan, EntriesOf;
    var l := LayoutOf(d);
    FieldIsBigEndian(d, 16);
    FieldIsBigEndian(d, 20);
    FieldIsBigEndian(d, 24);
    FieldIsBigEndian(d, 28);
    FieldIsBigEndian(d, l.indexOffset);
    FieldIsBigEndian(d, l.variablesOffset);
  }

  // Block i: its address and its length, eight bytes per block, tell where its bytes are.
  lemma IndexFormat(d: ByteString, i: nat)
    requires ValidBuffer(d) && i < |Blocks(d)|
    ensures var at := LayoutOf(d).indexOffset + 4 + 8 * i;
            && at + 8 <= |d|
            && BigEndian(d, at) + BigEndian(d, at + 4) <= |d|
            && Blocks(d)[i] == d[BigEndian(d, at)..BigEndian(d, at) + BigEndian(d, at + 4)]
  {
    hide U32, VariablesSpan;
    var at := LayoutOf(d).indexOffset + 4 + 8 * i;
    BlocksCount(d);
    BlockLength(d, i);
    StoredBlock(d, i, at);
    FieldIsBigEndian(d, at);
    FieldIsBigEndian(d, at + 4);
  }

  // The place of variable i: a variable takes five bytes and its name.
  ghost function VariablePlace(d: ByteString, from: nat, i: nat): nat {
    if i == 0 then from
    else
      var p := VariablePlace(d, from, i - 1);
      if p + 4 < |d| then p + 5 + d[p + 4] else p
  }

  // Variable i: an index, a byte for the length of the name, and the name.
  lemma VariableFormat(d: ByteString, i: nat)
    requires ValidBuffer(d) && i < |Variables(d)|
    ensures var p := VariablePlace(d, LayoutOf(d).variablesOffset + 4, i);
            && p + 5 <= |d| && p + 5 + d[p + 4] <= |d|
            && Variables(d)[i] == Variable(BigEndian(d, p), d[p + 5..p + 5 + d[p + 4]])
  {
    hide U32, VariablesSpan, VariablesIn, VariableAt, EntriesOf;
    var l := LayoutOf(d);
    var s := VariablesArea(d, l);
    NthVariable(s, l.variableCount, i);
    PlaceIsSpan(d, l, i);
    VariableInArea(d, l, VariablesSpan(s, i).value);
    FieldIsBigEndian(d, l.variablesOffset + 4 + VariablesSpan(s, i).value);
  }

  lemma {:induction false} PlaceIsSpan(d: ByteString, l: Layout, i: nat)
    requires VARIABLES_HEADER <= l.trailerLength && l.DataStart() <= |d|
    requires VariablesSpan(VariablesArea(d, l), i).Some?
    ensures VariablePlace(d, l.variablesOffset + 4, i)
            == l.variablesOffset + 4 + VariablesSpan(VariablesArea(d, l), i).value
  {
    if i > 0 {
      PlaceIsSpan(d, l, i - 1);
    }
  }

  // A new store: the magic number, version 1, no blocks, the index at 32, 24 bytes long, the variables at 56, and
  // nothing but zeros from the index on.
  lemma EmptyFormat()
    ensures |EMPTY_BOM| == 60 && IsText(EMPTY_BOM, 0, "BOMStore")
    ensures BigEndian(EMPTY_BOM, 8) == 1 && BigEndian(EMPTY_BOM, 12) == 0
    ensures BigEndian(EMPTY_BOM, 16) == 32 && BigEndian(EMPTY_BOM, 20) == 24
    ensures BigEndian(EMPTY_BOM, 24) == 56 && BigEndian(EMPTY_BOM, 28) == 4
    ensures forall i :: 32 <= i < 60 ==> EMPTY_BOM[i] == 0
  {
    hide U32, FieldRun, BigEndian;
    EmptyField(0);
    EmptyField(1);
    EmptyField(2);
    EmptyField(3);
    EmptyField(4);
    EmptyField(5);
    forall i | 32 <= i < 60
      ensures EMPTY_BOM[i] == 0
    {
      EmptyField((i - 8) / 4);
      ZeroBytes(EMPTY_BOM, 8 + 4 * ((i - 8) / 4), (i - 8) % 4);
    }
    var d := EMPTY_BOM;
    assert forall i :: 0 <= i < 8 ==> d[i] == MAGIC[i];
  }

  lemma EmptyField(i: nat)
    requires i < 13
    ensures |EMPTY_BOM| == 60 && BigEndian(EMPTY_BOM, 8 + 4 * i) == EMPTY_FIELDS[i]
  {
    hide FieldRun, U32, BigEndian;
    FieldOfRun(MAGIC, EMPTY_FIELDS, i);
    FieldIsBigEndian(EMPTY_BOM, 8 + 4 * i);
  }

  lemma ZeroBytes(d: ByteString, at: nat, i: nat)
    requires at + 4 <= |d| && i < 4 && BigEndian(d, at) == 0
    ensures d[at + i] == 0
  {
  }

  // Every store that grew out of a new one still begins with the magic number and the version.
  lemma SignatureFormat(d: ByteString)
    requires ValidBuffer(d) && Signature(d) == MAGIC + Be32(1)
    ensures |d| >= 32 && IsText(d, 0, "BOMStore") && BigEndian(d, 8) == 1 && BigEndian(d, 12) == U32(d, BLOCK_COUNT)
  {
    hide U32, LayoutOf, VariablesSpan;
    FieldIsBigEndian(d, 12);
    var signature := MAGIC + Be32(1);
    assert forall i :: 0 <= i < 12 ==> d[i] == signature[i];
    assert Be32(1) == [0, 0, 0, 1];
  }

  // ----- Trees -----

  // Pair i of a leaf: the index of the value, then that of the key.
  lemma PairFormat(leaf: ByteString, n: nat, i: nat)
    requires IsLeaf(leaf, n) && i < n
    ensures Short(leaf, 0) != 0 && Short(leaf, 2) == n && BigEndian(leaf, 4) == 0
    ensures 12 + 8 * i + 8 <= |leaf|
    ensures IndexPairs(leaf, n)[i].value == BigEndian(leaf, 12 + 8 * i)
    ensures IndexPairs(leaf, n)[i].key == BigEndian(leaf, 12 + 8 * i + 4)
  {
    FieldIsBigEndian(leaf, 12 + 8 * i);
    FieldIsBigEndian(leaf, 12 + 8 * i + 4);
  }

  lemma TreeFormat(tree: ByteString, leaf: nat, n: nat)
    requires IsTree(tree, leaf, n)
    ensures |tree| == 21 && IsText(tree, 0, "tree") && BigEndian(tree, 8) == leaf && BigEndian(tree, 16) == n
  {
    assert forall i :: 0 <= i < 4 ==> tree[i] == tree[..4][i];
  }

  // The two blocks that bom_tree_alloc_empty writes.
  lemma NewTreeFormat(leafIndex: uint32)
    ensures ghost var leaf := NewLeaf();
            && |leaf| == 12 && Short(leaf, 0) == 1 && forall i :: 2 <= i < 12 ==> leaf[i] == 0
    ensures ghost var tree := NewTree(leafIndex);
            && |tree| == 21 && IsText(tree, 0, "tree") && BigEndian(tree, 4) == 1 && BigEndian(tree, 8) == leafIndex
            && BigEndian(tree, 12) == 4096 && forall i :: 16 <= i < 21 ==> tree[i] == 0
  {
    Be32RoundTrip(leafIndex);
    var tree := NewTree(leafIndex);
    assert tree[8..12] == Be32(leafIndex);
    assert BigEndian(tree, 8) == FromBe32(tree[8..12]);
  }

  // ----- Asset catalogs -----

  lemma CarNames()
    ensures |CAR_HEADER| == 9 && IsText(CAR_HEADER, 0, "CARHEADER")
    ensures |CAR_KEY_FORMAT| == 9 && IsText(CAR_KEY_FORMAT, 0, "KEYFORMAT")
    ensures |CAR_FACET_KEYS| == 9 && IsText(CAR_FACET_KEYS, 0, "FACETKEYS")
    ensures |CAR_RENDITIONS| == 10 && IsText(CAR_RENDITIONS, 0, "RENDITIONS")
  {
  }
}
