// Libraries/libcar/Sources/Writer.cpp: writing an asset catalog into a BOM. All index slots are reserved up front.
module CarWriters {
  import opened Bytes
  import opened Wrappers
  import opened BomLayouts
  import opened BomUpdates
  import opened Boms
  import opened BomTrees

  // The variable names of Libraries/libcar/Sources/car_format.c.
  const CAR_HEADER: ByteString := [67, 65, 82, 72, 69, 65, 68, 69, 82]
  const CAR_KEY_FORMAT: ByteString := [75, 69, 89, 70, 79, 82, 77, 65, 84]
  const CAR_FACET_KEYS: ByteString := [70, 65, 67, 69, 84, 75, 69, 89, 83]
  const CAR_RENDITIONS: ByteString := [82, 69, 78, 68, 73, 84, 73, 79, 78, 83]

  // The bytes a list of pairs takes: each one two blocks, two index slots and a place in the leaf.
  function Weight(pairs: seq<Pair>): nat {
    if pairs == [] then 0
    else Weight(pairs[..|pairs| - 1]) + |pairs[|pairs| - 1].key| + |pairs[|pairs| - 1].value| + 2 * INDEX_ENTRY
  }

  // The blocks of `after` extend those of `before` and agree with them.
  ghost predicate Extends(before: seq<ByteString>, after: seq<ByteString>) {
    OthersKept(before, after, {})
  }

  // Adding pairs to a tree one by one stores exactly these pairs, and touches no other block.
  method AddAll(t: BomTreeContext, pairs: seq<Pair>)
    requires t.Valid() && PairsIn(t.context.data, t.tree, t.leaf) == []
    requires |pairs| < 0x1_0000 && Room(t.context.data, Weight(pairs))
    requires LEAF_HEADER + PAIR_SIZE * |pairs| <= |Blocks(t.context.data)[t.leaf]|
    requires |Blocks(t.context.data)| + 2 * |pairs| <= Slots(t.context.data)
    modifies t.context
    ensures t.Valid()
    ensures PairsIn(t.context.data, t.tree, t.leaf) == Stored(pairs)
    ensures multiset(Stored(pairs)) == multiset(pairs)
    ensures OthersKept(Blocks(old(t.context.data)), Blocks(t.context.data), {t.tree, t.leaf})
    ensures |Blocks(t.context.data)| == |Blocks(old(t.context.data))| + 2 * |pairs|
    ensures Variables(t.context.data) == Variables(old(t.context.data))
    ensures Slots(t.context.data) == Slots(old(t.context.data))
    ensures Signature(t.context.data) == Signature(old(t.context.data))
    ensures |t.context.data| <= |old(t.context.data)| + Weight(pairs)
  {
    hide ValidBuffer, Blocks, Variables, Slots, TreeAt, TreePairs, FirstBinding, LastProbe, Weight;
    WeightOfNone(pairs);
    LeafInside(Blocks(t.context.data), t.tree, t.leaf);
    for i := 0 to |pairs|
      invariant t.Valid()
      invariant PairsIn(t.context.data, t.tree, t.leaf) == Stored(pairs[..i])
      invariant OthersKept(Blocks(old(t.context.data)), Blocks(t.context.data), {t.tree, t.leaf})
      invariant |Blocks(t.context.data)| == |Blocks(old(t.context.data))| + 2 * i
      invariant t.leaf < |Blocks(old(t.context.data))|
      invariant |Blocks(t.context.data)[t.leaf]| == |Blocks(old(t.context.data))[t.leaf]|
      invariant Variables(t.context.data) == Variables(old(t.context.data))
      invariant Slots(t.context.data) == Slots(old(t.context.data))
      invariant Signature(t.context.data) == Signature(old(t.context.data))
      invariant |t.context.data| <= |old(t.context.data)| + Weight(pairs[..i])
    {
      WeightNext(pairs, i);
      RoomInLeaf(t.context.data, t.leaf, i);
      t.Add(pairs[i].key, pairs[i].value);
      StoredNext(pairs[..i], pairs[i]);
      assert pairs[..i + 1] == pairs[..i] + [pairs[i]];
    }
    assert pairs[..|pairs|] == pairs;
    StoredIsPermutation(pairs);
  }

  lemma LeafInside(blocks: seq<ByteString>, tree: nat, leaf: nat)
    requires TreeAt(blocks, tree, leaf, |blocks|)
    ensures leaf < |blocks|
  {
  }

  lemma WeightOfNone(pairs: seq<Pair>)
    ensures Weight(pairs[..0]) == 0
  {
  }

  lemma WeightNext(pairs: seq<Pair>, i: nat)
    requires i < |pairs|
    ensures Weight(pairs[..i + 1]) == Weight(pairs[..i]) + |pairs[i].key| + |pairs[i].value| + 2 * INDEX_ENTRY
    ensures Weight(pairs[..i + 1]) <= Weight(pairs)
    decreases |pairs| - i
  {
    assert pairs[..i + 1][..i] == pairs[..i];
    if i + 1 < |pairs| {
      WeightNext(pairs, i + 1);
    } else {
      assert pairs[..i + 1] == pairs;
    }
  }

  lemma {:induction false} StoredIsPermutation(pairs: seq<Pair>)
    ensures multiset(Stored(pairs)) == multiset(pairs)
  {
    if pairs != [] {
      var n := |pairs| - 1;
      var before := Stored(pairs[..n]);
      StoredIsPermutation(pairs[..n]);
      InsertAtKeeps(before, LastProbe(Keys(before), pairs[n].key, 0, n, 0), pairs[n]);
      assert pairs == pairs[..n] + [pairs[n]];
    }
  }

  // The block bound to a name.
  ghost predicate Stores(d: ByteString, name: ByteString, content: ByteString) {
    && ValidBuffer(d)
    && var bound := FirstBinding(Variables(d), name);
       bound.Some? && bound.value < |Blocks(d)| && Blocks(d)[bound.value] == content
  }

  // A tree under that name holds exactly these pairs, in the order in which adding them one by one stores them.
  ghost predicate StoresTree(d: ByteString, name: ByteString, pairs: seq<Pair>) {
    exists tree: nat, leaf: nat :: HoldsTree(d, name, tree, leaf) && PairsIn(d, tree, leaf) == Stored(pairs)
  }

  // Blocks and variables are only added; the magic number and the version stay.
  ghost predicate Grown(d: ByteString, f: ByteString) {
    && ValidBuffer(d) && ValidBuffer(f)
    && Extends(Blocks(d), Blocks(f))
    && Variables(d) <= Variables(f)
    && Signature(f) == Signature(d)
  }

  lemma {:induction false} BindingKept(variables: seq<Variable>, more: seq<Variable>, name: ByteString)
    requires FirstBinding(variables, name).Some?
    ensures FirstBinding(variables + more, name) == FirstBinding(variables, name)
    decreases |more|
  {
    if more == [] {
      assert variables + more == variables;
    } else {
      var n := |more| - 1;
      BindingKept(variables, more[..n], name);
      BindingAfterAdd(variables + more[..n], more[n], name);
      assert variables + more == variables + more[..n] + [more[n]];
    }
  }

  lemma GrownKeepsBinding(d: ByteString, f: ByteString, name: ByteString)
    requires Grown(d, f) && FirstBinding(Variables(d), name).Some?
    ensures FirstBinding(Variables(f), name) == FirstBinding(Variables(d), name)
  {
    hide ValidBuffer, Blocks, Variables;
    var more := Variables(f)[|Variables(d)|..];
    assert Variables(f) == Variables(d) + more;
    BindingKept(Variables(d), more, name);
  }

  lemma GrownKeepsStored(d: ByteString, f: ByteString, name: ByteString, content: ByteString)
    requires Grown(d, f) && Stores(d, name, content)
    ensures Stores(f, name, content)
  {
    hide ValidBuffer, Blocks, Variables, FirstBinding;
    GrownKeepsBinding(d, f, name);
  }

  lemma GrownKeepsTree(d: ByteString, f: ByteString, name: ByteString, pairs: seq<Pair>)
    requires Grown(d, f) && StoresTree(d, name, pairs)
    ensures StoresTree(f, name, pairs)
  {
    hide ValidBuffer, Blocks, Variables, FirstBinding, TreeAt, TreePairs;
    var tree: nat, leaf: nat :| HoldsTree(d, name, tree, leaf) && PairsIn(d, tree, leaf) == Stored(pairs);
    GrownKeepsBinding(d, f, name);
    TreeFrame(Blocks(d), Blocks(f), tree, leaf, |Blocks(d)|);
    assert HoldsTree(f, name, tree, leaf);
  }

  lemma GrownTransitive(d: ByteString, e: ByteString, f: ByteString)
    requires Grown(d, e) && Grown(e, f)
    ensures Grown(d, f)
  {
    hide ValidBuffer, Blocks, Variables;
    var b, c, g := Blocks(d), Blocks(e), Blocks(f);
    forall i | 0 <= i < |b|
      ensures g[i] == b[i]
    {
      assert c[i] == b[i];
    }
  }

  // Write a block and bind it to a name.
  method AddNamed(bom: BomContext, name: ByteString, content: ByteString)
    requires bom.Valid() && 0 !in name && |name| < 0x100 && FirstBinding(Variables(bom.data), name).None?
    requires Room(bom.data, |content| + |name| + 20) && |Blocks(bom.data)| < Slots(bom.data)
    modifies bom
    ensures bom.Valid() && Grown(old(bom.data), bom.data) && Stores(bom.data, name, content)
    ensures |Blocks(bom.data)| == |Blocks(old(bom.data))| + 1 && Slots(bom.data) == Slots(old(bom.data))
    ensures |bom.data| <= |old(bom.data)| + |content| + |name| + 20
    ensures Unbound(Variables(old(bom.data)), Variables(bom.data), name)
  {
    hide ValidBuffer, Blocks, Variables, Slots, FirstBinding, StoredName;
    ghost var variables := Variables(bom.data);
    var index := bom.IndexAdd(content);
    bom.VariableAdd(name, ToSigned(index));
    NewBinding(variables, name, index);
    StaysUnbound(variables, Variable(index, name));
  }

  // Names other than the new one that were unbound still are.
  ghost predicate Unbound(before: seq<Variable>, after: seq<Variable>, name: ByteString) {
    forall other {:trigger FirstBinding(after, other)} ::
      other != name && FirstBinding(before, other).None? ==> FirstBinding(after, other).None?
  }

  lemma StaysUnbound(variables: seq<Variable>, v: Variable)
    requires 0 !in v.name
    ensures Unbound(variables, variables + [v], v.name)
  {
    CStringWhole(v.name);
    forall other | other != v.name && FirstBinding(variables, other).None?
      ensures FirstBinding(variables + [v], other).None?
    {
      BindingAfterAdd(variables, v, other);
    }
  }

  // Build a tree of the given pairs under a name.
  method AddTree(bom: BomContext, name: ByteString, pairs: seq<Pair>)
    requires bom.Valid() && 0 !in name && |name| < 0x100 && FirstBinding(Variables(bom.data), name).None?
    requires |pairs| < 0x1_0000
    requires Room(bom.data, 100 + |name| + PAIR_SIZE * |pairs| + Weight(pairs))
    requires |Blocks(bom.data)| + 2 + 2 * |pairs| <= Slots(bom.data)
    modifies bom
    ensures bom.Valid() && Grown(old(bom.data), bom.data) && StoresTree(bom.data, name, pairs)
    ensures |Blocks(bom.data)| == |Blocks(old(bom.data))| + 2 + 2 * |pairs| && Slots(bom.data) == Slots(old(bom.data))
    ensures |bom.data| <= |old(bom.data)| + 100 + |name| + PAIR_SIZE * |pairs| + Weight(pairs)
    ensures Unbound(Variables(old(bom.data)), Variables(bom.data), name)
  {
    hide ValidBuffer, Blocks, Variables, Slots, FirstBinding, TreeAt, TreePairs, Weight;
    var t := new BomTreeContext(bom, name);
    ghost var created := bom.data;
    ShortName(name);
    StaysUnbound(Variables(old(bom.data)), Variable(t.tree, name));
    t.Reserve(|pairs|);
    ghost var reserved := bom.data;
    AddAll(t, pairs);
    TreeGrown(Blocks(old(bom.data)), Blocks(created), Blocks(reserved), Blocks(bom.data), t.tree, t.leaf);
    assert HoldsTree(bom.data, name, t.tree, t.leaf);
  }

  lemma ShortName(name: ByteString)
    requires |name| < 0x100
    ensures StoredName(name) == name
  {
  }

  lemma TreeGrown(before: seq<ByteString>, created: seq<ByteString>, reserved: seq<ByteString>, after: seq<ByteString>,
                  tree: nat, leaf: nat)
    requires Extends(before, created) && leaf == |before| && tree == leaf + 1
    requires OthersKept(created, reserved, {leaf}) && OthersKept(reserved, after, {tree, leaf})
    ensures Extends(before, after)
  {
    forall i | 0 <= i < |before|
      ensures after[i] == before[i]
    {
      assert created[i] == before[i];
      assert reserved[i] == created[i];
    }
  }

  // The slots that Writer::write reserves.
  function Reserved(facets: nat, renditions: nat): nat {
    8 + facets * 2 + renditions * 2
  }

  // A bound on the bytes that are added.
  function Total(header: ByteString, keyFormat: ByteString, facets: seq<Pair>, renditions: seq<Pair>): nat {
    1000 + |header| + |keyFormat| + Weight(facets) + Weight(renditions) + 24 * (|facets| + |renditions|)
  }

  ghost predicate NamesUnbound(variables: seq<Variable>) {
    && FirstBinding(variables, CAR_HEADER).None?
    && FirstBinding(variables, CAR_KEY_FORMAT).None?
    && FirstBinding(variables, CAR_FACET_KEYS).None?
    && FirstBinding(variables, CAR_RENDITIONS).None?
  }

  // Writer::write, from the serialized header, key format, facets and renditions (raw ones last). The reserved slots
  // are used up exactly: the index area is not resized again, and what was stored before stays.
  method Write(bom: BomContext, header: ByteString, keyFormat: ByteString, facets: seq<Pair>, renditions: seq<Pair>)
    requires bom.Valid() && NamesUnbound(Variables(bom.data))
    requires |facets| < 0x1_0000 && |renditions| < 0x1_0000
    requires Room(bom.data, Total(header, keyFormat, facets, renditions))
    modifies bom
    ensures bom.Valid() && Grown(old(bom.data), bom.data)
    ensures |Blocks(bom.data)| == |Blocks(old(bom.data))| + Reserved(|facets|, |renditions|)
    ensures Slots(bom.data) == Slots(old(bom.data)) + Reserved(|facets|, |renditions|)
    ensures Stores(bom.data, CAR_HEADER, header)
    ensures Stores(bom.data, CAR_KEY_FORMAT, keyFormat)
    ensures StoresTree(bom.data, CAR_FACET_KEYS, facets)
    ensures StoresTree(bom.data, CAR_RENDITIONS, renditions)
  {
    hide ValidBuffer, Blocks, Variables, Slots, FirstBinding, Stores, StoresTree, Weight;
    BlocksWithinSlots(bom.data);
    bom.IndexReserve(Reserved(|facets|, |renditions|));
    ghost var d0 := bom.data;
    AddNamed(bom, CAR_HEADER, header);
    ghost var d1 := bom.data;
    AddNamed(bom, CAR_KEY_FORMAT, keyFormat);
    ghost var d2 := bom.data;
    AddTree(bom, CAR_FACET_KEYS, facets);
    ghost var d3 := bom.data;
    AddTree(bom, CAR_RENDITIONS, renditions);
    ghost var d4 := bom.data;
    var _ := bom.FreeIndicesAdd(2);
    FreeGrown(d4, bom.data);
    ContentsKept(d0, d1, d2, d3, d4, bom.data, header, keyFormat, facets, renditions);
  }

  lemma BlocksWithinSlots(d: ByteString)
    requires ValidBuffer(d)
    ensures |Blocks(d)| <= Slots(d)
  {
    SlotsOf(d);
  }

  lemma FreeGrown(d: ByteString, f: ByteString)
    requires ValidBuffer(d) && ValidBuffer(f) && Blocks(f) == Blocks(d) + seq(2, _ => [])
    requires Variables(f) == Variables(d) && Signature(f) == Signature(d)
    ensures Grown(d, f)
  {
    hide ValidBuffer, Blocks, Variables;
  }

  lemma ContentsKept(d0: ByteString, d1: ByteString, d2: ByteString, d3: ByteString, d4: ByteString, d5: ByteString,
                     header: ByteString, keyFormat: ByteString, facets: seq<Pair>, renditions: seq<Pair>)
    requires Grown(d0, d1) && Grown(d1, d2) && Grown(d2, d3) && Grown(d3, d4) && Grown(d4, d5)
    requires Stores(d1, CAR_HEADER, header) && Stores(d2, CAR_KEY_FORMAT, keyFormat)
    requires StoresTree(d3, CAR_FACET_KEYS, facets) && StoresTree(d4, CAR_RENDITIONS, renditions)
    ensures Grown(d0, d5)
    ensures Stores(d5, CAR_HEADER, header) && Stores(d5, CAR_KEY_FORMAT, keyFormat)
    ensures StoresTree(d5, CAR_FACET_KEYS, facets) && StoresTree(d5, CAR_RENDITIONS, renditions)
  {
    hide Grown, Stores, StoresTree;
    GrownTransitive(d3, d4, d5);
    GrownTransitive(d2, d3, d5);
    GrownTransitive(d1, d2, d5);
    GrownTransitive(d0, d1, d5);
    GrownKeepsStored(d1, d5, CAR_HEADER, header);
    GrownKeepsStored(d2, d5, CAR_KEY_FORMAT, keyFormat);
    GrownKeepsTree(d3, d5, CAR_FACET_KEYS, facets);
    GrownKeepsTree(d4, d5, CAR_RENDITIONS, renditions);
  }
}
