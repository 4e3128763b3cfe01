// Libraries/libbom/Sources/bom_tree.c: a tree is a variable naming a tree block, which names a leaf block of index
// pairs, each pair naming a key block and a value block.
module BomTrees {
  import opened Bytes
  import opened Wrappers
  import opened BomLayouts
  import opened BomUpdates
  import opened Boms

  const TREE_MAGIC: ByteString := [116, 114, 101, 101]
  const TREE_SIZE := 21
  const TREE_CHILD := 8
  const TREE_PATH_COUNT := 16
  const LEAF_COUNT := 2
  const LEAF_FORWARD := 4
  const LEAF_HEADER := 12
  const PAIR_SIZE := 8

  datatype Pair = Pair(key: ByteString, value: ByteString)

  // bom_tree_entry_indexes: the value index comes first in memory.
  datatype IndexPair = IndexPair(key: uint32, value: uint32)

  function U16(d: ByteString, o: nat): uint16
    requires o + 2 <= |d|
  {
    FromBe16(d[o..o + 2])
  }

  function IndexPairAt(leaf: ByteString, i: nat): IndexPair
    requires LEAF_HEADER + PAIR_SIZE * (i + 1) <= |leaf|
  {
    var at := LEAF_HEADER + PAIR_SIZE * i;
    IndexPair(U32(leaf, at + 4), U32(leaf, at))
  }

  function IndexPairs(leaf: ByteString, n: nat): (r: seq<IndexPair>)
    requires LEAF_HEADER + PAIR_SIZE * n <= |leaf|
    ensures |r| == n
  {
    seq(n, i requires 0 <= i < n => IndexPairAt(leaf, i))
  }

  // A leaf with n pairs in use that is no inner node and has no successor.
  predicate IsLeaf(leaf: ByteString, n: nat) {
    && LEAF_HEADER + PAIR_SIZE * n <= |leaf|
    && U16(leaf, 0) != 0
    && U16(leaf, LEAF_COUNT) == n
    && U32(leaf, LEAF_FORWARD) == 0
  }

  predicate IsTree(tree: ByteString, leafIndex: nat, n: nat) {
    && |tree| == TREE_SIZE
    && tree[..4] == TREE_MAGIC
    && U32(tree, TREE_CHILD) == leafIndex
    && U32(tree, TREE_PATH_COUNT) == n
  }

  function LeafSize(leaf: ByteString): nat {
    if |leaf| >= LEAF_HEADER then U16(leaf, LEAF_COUNT) else 0
  }

  predicate PairsBelow(pairs: seq<IndexPair>, bound: nat, tree: nat, leaf: nat) {
    forall i :: 0 <= i < |pairs| ==>
      && pairs[i].key < bound && pairs[i].value < bound
      && pairs[i].key != tree && pairs[i].value != tree
      && pairs[i].key != leaf && pairs[i].value != leaf
  }

  // The blocks hold a tree whose own blocks and whose keys and values all lie below the bound.
  ghost predicate TreeAt(blocks: seq<ByteString>, tree: nat, leaf: nat, bound: nat) {
    && tree < bound <= |blocks| && leaf < bound && tree != leaf
    && IsLeaf(blocks[leaf], LeafSize(blocks[leaf]))
    && IsTree(blocks[tree], leaf, LeafSize(blocks[leaf]))
    && PairsBelow(IndexPairs(blocks[leaf], LeafSize(blocks[leaf])), bound, tree, leaf)
  }

  ghost function PairsOf(blocks: seq<ByteString>, pairs: seq<IndexPair>): (r: seq<Pair>)
    requires forall i :: 0 <= i < |pairs| ==> pairs[i].key < |blocks| && pairs[i].value < |blocks|
    ensures |r| == |pairs|
  {
    seq(|pairs|, i requires 0 <= i < |pairs| => Pair(blocks[pairs[i].key], blocks[pairs[i].value]))
  }

  // What the tree means: its key and value contents, in stored order.
  ghost function TreePairs(blocks: seq<ByteString>, tree: nat, leaf: nat): seq<Pair>
    requires TreeAt(blocks, tree, leaf, |blocks|)
  {
    PairsOf(blocks, IndexPairs(blocks[leaf], LeafSize(blocks[leaf])))
  }

  ghost predicate TreeBound(variables: seq<Variable>, name: ByteString, tree: nat) {
    FirstBinding(variables, name) == Some(tree)
  }

  // Blocks below the bound decide what the tree means.
  lemma TreeFrame(before: seq<ByteString>, after: seq<ByteString>, tree: nat, leaf: nat, bound: nat)
    requires TreeAt(before, tree, leaf, bound) && bound <= |after|
    requires forall i :: 0 <= i < bound ==> after[i] == before[i]
    ensures TreeAt(before, tree, leaf, |before|)
    ensures TreeAt(after, tree, leaf, bound) && TreeAt(after, tree, leaf, |after|)
    ensures TreePairs(after, tree, leaf) == TreePairs(before, tree, leaf)
  {
  }

  // ----- Inserting a pair into a leaf -----

  function InsertAt<T>(s: seq<T>, n: nat, x: T): (r: seq<T>)
    requires n <= |s|
    ensures |r| == |s| + 1
  {
    s[..n] + [x] + s[n..]
  }

  // An insertion adds one element and keeps the others, in their order.
  lemma InsertAtKeeps<T>(s: seq<T>, n: nat, x: T)
    requires n <= |s|
    ensures multiset(InsertAt(s, n, x)) == multiset(s) + multiset{x}
    ensures InsertAt(s, n, x)[..n] + InsertAt(s, n, x)[n + 1..] == s
  {
    assert s == s[..n] + s[n..];
  }

  lemma PutU16(d: ByteString, o: nat, n: uint16)
    requires o + 2 <= |d|
    ensures U16(Put(d, o, Be16(n)), o) == n
  {
    PutSame(d, o, Be16(n));
  }

  lemma U16Other(d: ByteString, o: nat, bytes: ByteString, p: nat)
    requires o + |bytes| <= |d| && p + 2 <= |d|
    requires p + 2 <= o || o + |bytes| <= p
    ensures U16(Put(d, o, bytes), p) == U16(d, p)
  {
    PutOther(d, o, bytes, p, p + 2);
  }

  // A write outside the leaf's header keeps the header.
  lemma HeaderOther(d: ByteString, o: nat, bytes: ByteString)
    requires LEAF_HEADER <= o && o + |bytes| <= |d|
    ensures var r := Put(d, o, bytes);
            && U16(r, 0) == U16(d, 0) && U16(r, LEAF_COUNT) == U16(d, LEAF_COUNT)
            && U32(r, LEAF_FORWARD) == U32(d, LEAF_FORWARD)
  {
    U16Other(d, o, bytes, 0);
    U16Other(d, o, bytes, LEAF_COUNT);
    U32Other(d, o, bytes, LEAF_FORWARD);
  }

  lemma PairOther(d: ByteString, o: nat, bytes: ByteString, i: nat)
    requires o + |bytes| <= |d| && LEAF_HEADER + PAIR_SIZE * (i + 1) <= |d|
    requires LEAF_HEADER + PAIR_SIZE * (i + 1) <= o || o + |bytes| <= LEAF_HEADER + PAIR_SIZE * i
    ensures IndexPairAt(Put(d, o, bytes), i) == IndexPairAt(d, i)
  {
    hide U32, Put;
    U32Other(d, o, bytes, LEAF_HEADER + PAIR_SIZE * i);
    U32Other(d, o, bytes, LEAF_HEADER + PAIR_SIZE * i + 4);
  }

  // The memmove that makes room at position e.
  lemma PairShifted(leaf: ByteString, n: nat, e: nat, i: nat, f: ByteString)
    requires LEAF_HEADER + PAIR_SIZE * (n + 1) <= |leaf| && e <= i < n
    requires f == Put(leaf, LEAF_HEADER + PAIR_SIZE * (e + 1),
                     leaf[LEAF_HEADER + PAIR_SIZE * e..LEAF_HEADER + PAIR_SIZE * n])
    ensures IndexPairAt(f, i + 1) == IndexPairAt(leaf, i)
  {
    hide U32, Put;
    var from, to := LEAF_HEADER + PAIR_SIZE * e, LEAF_HEADER + PAIR_SIZE * n;
    PutSame(leaf, from + PAIR_SIZE, leaf[from..to]);
    var k := PAIR_SIZE * (i - e);
    SubField(f, from + PAIR_SIZE, to + PAIR_SIZE, leaf, from, to, k);
    SubField(f, from + PAIR_SIZE, to + PAIR_SIZE, leaf, from, to, k + 4);
  }

  // The writes of bom_tree_add into the leaf: make room, fill in the pair, raise the count.
  lemma LeafInserted(leaf: ByteString, n: nat, e: nat, pair: IndexPair, f1: ByteString, f2: ByteString, f3: ByteString,
                     f: ByteString)
    requires IsLeaf(leaf, n) && n + 1 < 0x1_0000 && e <= n && LEAF_HEADER + PAIR_SIZE * (n + 1) <= |leaf|
    requires f1 == Put(leaf, LEAF_HEADER + PAIR_SIZE * (e + 1),
                      leaf[LEAF_HEADER + PAIR_SIZE * e..LEAF_HEADER + PAIR_SIZE * n])
    requires f2 == Put(f1, LEAF_HEADER + PAIR_SIZE * e + 4, Be32(pair.key))
    requires f3 == Put(f2, LEAF_HEADER + PAIR_SIZE * e, Be32(pair.value))
    requires f == Put(f3, LEAF_COUNT, Be16(n + 1))
    ensures |f| == |leaf| && IsLeaf(f, n + 1)
    ensures IndexPairs(f, n + 1) == InsertAt(IndexPairs(leaf, n), e, pair)
  {
    hide U32, U16, Put, Be32, Be16;
    var at := LEAF_HEADER + PAIR_SIZE * e;
    HeaderOther(leaf, at + PAIR_SIZE, leaf[at..LEAF_HEADER + PAIR_SIZE * n]);
    HeaderOther(f1, at + 4, Be32(pair.key));
    HeaderOther(f2, at, Be32(pair.value));
    PutU16(f3, LEAF_COUNT, n + 1);
    U16Other(f3, LEAF_COUNT, Be16(n + 1), 0);
    U32Other(f3, LEAF_COUNT, Be16(n + 1), LEAF_FORWARD);
    forall i | 0 <= i < n + 1
      ensures IndexPairAt(f, i) == InsertAt(IndexPairs(leaf, n), e, pair)[i]
    {
      LeafPair(leaf, n, e, pair, f1, f2, f3, f, i);
    }
  }

  lemma LeafPair(leaf: ByteString, n: nat, e: nat, pair: IndexPair, f1: ByteString, f2: ByteString, f3: ByteString,
                 f: ByteString, i: nat)
    requires e <= n && LEAF_HEADER + PAIR_SIZE * (n + 1) <= |leaf| && i <= n < 0xFFFF
    requires f1 == Put(leaf, LEAF_HEADER + PAIR_SIZE * (e + 1),
                      leaf[LEAF_HEADER + PAIR_SIZE * e..LEAF_HEADER + PAIR_SIZE * n])
    requires f2 == Put(f1, LEAF_HEADER + PAIR_SIZE * e + 4, Be32(pair.key))
    requires f3 == Put(f2, LEAF_HEADER + PAIR_SIZE * e, Be32(pair.value))
    requires f == Put(f3, LEAF_COUNT, Be16(n + 1))
    ensures IndexPairAt(f, i)
            == if i < e then IndexPairAt(leaf, i) else if i == e then pair else IndexPairAt(leaf, i - 1)
  {
    hide U32, Put, Be32, Be16;
    var at := LEAF_HEADER + PAIR_SIZE * e;
    PairOther(f3, LEAF_COUNT, Be16(n + 1), i);
    if i == e {
      PutField(f2, at, pair.value);
      U32Other(f2, at, Be32(pair.value), at + 4);
      PutField(f1, at + 4, pair.key);
    } else {
      PairOther(f2, at, Be32(pair.value), i);
      PairOther(f1, at + 4, Be32(pair.key), i);
      if i < e {
        PairOther(leaf, at + PAIR_SIZE, leaf[at..LEAF_HEADER + PAIR_SIZE * n], i);
      } else {
        PairShifted(leaf, n, e, i - 1, f1);
      }
    }
  }

  // ----- Where a key goes -----

  // memcmp over the common length, then the shorter key first.
  function Compare(a: ByteString, b: ByteString): int {
    if a == [] then (if b == [] then 0 else -1)
    else if b == [] then 1
    else if a[0] != b[0] then (if a[0] < b[0] then -1 else 1)
    else Compare(a[1..], b[1..])
  }

  // The binary search of bom_tree_add. It yields the last position it probed, not the end of the search.
  function LastProbe(keys: seq<ByteString>, key: ByteString, start: nat, end: nat, last: nat): (e: nat)
    requires start <= end <= |keys| && last <= |keys|
    ensures e <= |keys| && (last < |keys| ==> e < |keys|)
    decreases end - start
  {
    if start >= end then last
    else
      var middle := (end - start) / 2 + start;
      var c := Compare(key, keys[middle]);
      if c < 0 then LastProbe(keys, key, start, middle, middle)
      else if c > 0 then LastProbe(keys, key, middle + 1, end, middle)
      else middle
  }

  lemma LastProbeStep(keys: seq<ByteString>, key: ByteString, start: nat, end: nat, middle: nat, other: ByteString)
    requires start < end <= |keys| && middle == (end - start) / 2 + start && other == keys[middle]
    ensures forall last: nat :: last <= |keys| ==>
              LastProbe(keys, key, start, end, last)
              == if Compare(key, other) < 0 then LastProbe(keys, key, start, middle, middle)
                 else if Compare(key, other) > 0 then LastProbe(keys, key, middle + 1, end, middle)
                 else middle
  {
  }

  lemma LastProbeEnd(keys: seq<ByteString>, key: ByteString, at: nat, last: nat)
    requires at <= |keys| && last <= |keys|
    ensures LastProbe(keys, key, at, at, last) == last
  {
  }

  lemma KeysElement(pairs: seq<Pair>, i: nat)
    requires i < |pairs|
    ensures Keys(pairs)[i] == pairs[i].key
  {
  }

  lemma {:induction false} CompareAntisymmetric(a: ByteString, b: ByteString)
    ensures Compare(a, b) < 0 <==> Compare(b, a) > 0
    ensures Compare(a, b) == 0 <==> a == b
  {
    if a != [] && b != [] && a[0] == b[0] {
      CompareAntisymmetric(a[1..], b[1..]);
      assert a == [a[0]] + a[1..];
      assert b == [b[0]] + b[1..];
    }
  }

  lemma {:induction false} CompareTransitive(a: ByteString, b: ByteString, c: ByteString)
    requires Compare(a, b) <= 0 && Compare(b, c) <= 0
    ensures Compare(a, c) <= 0
    ensures Compare(a, b) < 0 || Compare(b, c) < 0 ==> Compare(a, c) < 0
  {
    if a != [] && b != [] && c != [] && a[0] == b[0] == c[0] {
      CompareTransitive(a[1..], b[1..], c[1..]);
    }
  }

  // The lower byte at the first difference decides, and a proper prefix comes first.
  lemma {:induction false} CompareIsLexicographic(a: ByteString, b: ByteString)
    ensures Compare(a, b) < 0 <==> (|a| < |b| && a == b[..|a|]) || exists p: nat :: DiffersAt(a, b, p) && a[p] < b[p]
  {
    if a != [] && b != [] {
      if a[0] == b[0] {
        CompareIsLexicographic(a[1..], b[1..]);
        PrefixOfTail(a, b);
        forall p: nat
          ensures DiffersAt(a, b, p + 1) <==> DiffersAt(a[1..], b[1..], p)
        {
          DiffersInTail(a, b, p);
        }
        if p: nat :| DiffersAt(a, b, p) && a[p] < b[p] {
          assert DiffersAt(a[1..], b[1..], p - 1);
        }
        if p: nat :| DiffersAt(a[1..], b[1..], p) && a[1..][p] < b[1..][p] {
          assert DiffersAt(a, b, p + 1);
        }
      } else {
        assert DiffersAt(a, b, 0);
      }
    }
  }

  ghost predicate DiffersAt(a: ByteString, b: ByteString, p: nat) {
    p < |a| && p < |b| && a[..p] == b[..p] && a[p] != b[p]
  }

  lemma DiffersInTail(a: ByteString, b: ByteString, p: nat)
    requires a != [] && b != [] && a[0] == b[0]
    ensures DiffersAt(a, b, p + 1) <==> DiffersAt(a[1..], b[1..], p)
  {
    if p + 1 < |a| && p + 1 < |b| {
      assert a[..p + 1] == [a[0]] + a[1..][..p];
      assert b[..p + 1] == [b[0]] + b[1..][..p];
      assert a[1..][..p] == a[..p + 1][1..];
      assert b[1..][..p] == b[..p + 1][1..];
    }
  }

  lemma PrefixOfTail(a: ByteString, b: ByteString)
    requires a != [] && b != [] && a[0] == b[0]
    ensures |a| < |b| && a == b[..|a|] <==> |a[1..]| < |b[1..]| && a[1..] == b[1..][..|a[1..]|]
  {
    if |a| < |b| {
      assert a == [a[0]] + a[1..];
      assert b[..|a|] == [b[0]] + b[1..][..|a[1..]|];
      assert b[1..][..|a[1..]|] == b[..|a|][1..];
    }
  }

  // The search halves: it looks at the key in the middle, then goes on in the half that it points to. It ends at the
  // middle when that half is empty.
  lemma SearchHalves(keys: seq<ByteString>, key: ByteString)
    requires keys != []
    ensures var m := |keys| / 2;
            var c := Compare(key, keys[m]);
            LastProbe(keys, key, 0, |keys|, 0)
            == if c < 0 && m > 0 then LastProbe(keys[..m], key, 0, m, 0)
               else if c > 0 && m + 1 < |keys| then m + 1 + LastProbe(keys[m + 1..], key, 0, |keys| - (m + 1), 0)
               else m
  {
    hide Compare, LastProbe;
    var m := |keys| / 2;
    ProbeOnce(keys, key, 0, |keys|, 0);
    FrontHalf(keys, key, m);
    BackHalf(keys, key, m);
  }

  lemma FrontHalf(keys: seq<ByteString>, key: ByteString, m: nat)
    requires m < |keys|
    ensures LastProbe(keys, key, 0, m, m) == if m == 0 then m else LastProbe(keys[..m], key, 0, m, 0)
  {
    hide Compare, LastProbe;
    if m == 0 {
      LastProbeEnd(keys, key, 0, m);
    } else {
      SearchInPart(keys, key, 0, m, 0, m, m, 0);
      assert keys[0..m] == keys[..m];
    }
  }

  lemma BackHalf(keys: seq<ByteString>, key: ByteString, m: nat)
    requires m < |keys|
    ensures LastProbe(keys, key, m + 1, |keys|, m)
            == if m + 1 == |keys| then m
               else m + 1 + LastProbe(keys[m + 1..], key, 0, |keys| - (m + 1), 0)
  {
    hide Compare, LastProbe;
    if m + 1 == |keys| {
      LastProbeEnd(keys, key, m + 1, m);
    } else {
      SearchInPart(keys, key, m + 1, |keys|, 0, |keys| - (m + 1), m, 0);
      assert keys[m + 1..|keys|] == keys[m + 1..];
    }
  }

  lemma ProbeOnce(keys: seq<ByteString>, key: ByteString, start: nat, end: nat, last: nat)
    requires start < end <= |keys| && last <= |keys|
    ensures var middle := (end - start) / 2 + start;
            var c := Compare(key, keys[middle]);
            LastProbe(keys, key, start, end, last)
            == if c < 0 then LastProbe(keys, key, start, middle, middle)
               else if c > 0 then LastProbe(keys, key, middle + 1, end, middle)
               else middle
  {
    hide Compare;
  }

  // Searching part of the keys is searching them with shifted positions.
  lemma {:induction false} SearchInPart(keys: seq<ByteString>, key: ByteString, from: nat, to: nat, start: nat,
                                        end: nat, last: nat, lastInPart: nat)
    requires from <= to <= |keys| && start <= end <= to - from && last <= |keys| && lastInPart <= to - from
    requires start == end ==> last == from + lastInPart
    ensures LastProbe(keys, key, from + start, from + end, last)
            == from + LastProbe(keys[from..to], key, start, end, lastInPart)
    decreases end - start
  {
    hide Compare, LastProbe;
    var part := keys[from..to];
    if start < end {
      var m := (end - start) / 2 + start;
      ProbeOnce(keys, key, from + start, from + end, last);
      ProbeOnce(part, key, start, end, lastInPart);
      assert (from + end - (from + start)) / 2 + (from + start) == from + m;
      assert part[m] == keys[from + m];
      SearchInPart(keys, key, from, to, start, m, from + m, m);
      SearchInPart(keys, key, from, to, m + 1, end, from + m, m);
    } else {
      LastProbeEnd(keys, key, from + start, last);
      LastProbeEnd(part, key, start, lastInPart);
    }
  }

  // Ascending keys, where equal ones may repeat.
  ghost predicate KeysOrdered(keys: seq<ByteString>) {
    forall i, j :: 0 <= i < j < |keys| ==> Compare(keys[i], keys[j]) <= 0
  }

  // Strictly ascending keys.
  ghost predicate KeysSorted(keys: seq<ByteString>) {
    forall i, j :: 0 <= i < j < |keys| ==> Compare(keys[i], keys[j]) < 0
  }

  // All keys in front of a position are less than the key, all others are greater.
  ghost predicate Splits(keys: seq<ByteString>, key: ByteString, p: nat) {
    && p <= |keys|
    && (forall i :: 0 <= i < p ==> Compare(keys[i], key) < 0)
    && (forall i :: p <= i < |keys| ==> Compare(key, keys[i]) < 0)
  }

  // Where a search over ordered keys looked last: at an equal key, the first greater one, or the last smaller one.
  ghost predicate BesideKey(keys: seq<ByteString>, key: ByteString, e: nat) {
    && e < |keys|
    && (Compare(key, keys[e]) < 0 ==> Splits(keys, key, e))
    && (Compare(key, keys[e]) > 0 ==> Splits(keys, key, e + 1))
  }

  // A key less than one of ordered keys is less than all later ones, a greater one is greater than all earlier ones.
  lemma KeysBeside(keys: seq<ByteString>, key: ByteString, n: nat)
    requires KeysOrdered(keys) && n < |keys|
    ensures Compare(key, keys[n]) < 0 ==> forall i :: n <= i < |keys| ==> Compare(key, keys[i]) < 0
    ensures Compare(key, keys[n]) > 0 ==> forall i :: 0 <= i <= n ==> Compare(keys[i], key) < 0
  {
    hide Compare;
    CompareAntisymmetric(keys[n], key);
    forall i | n < i < |keys| && Compare(key, keys[n]) < 0
      ensures Compare(key, keys[i]) < 0
    {
      CompareTransitive(key, keys[n], keys[i]);
    }
    forall i | 0 <= i < n && Compare(key, keys[n]) > 0
      ensures Compare(keys[i], key) < 0
    {
      CompareTransitive(keys[i], keys[n], key);
    }
  }

  lemma {:induction false} ProbeIsBeside(keys: seq<ByteString>, key: ByteString, start: nat, end: nat, last: nat)
    requires KeysOrdered(keys) && start <= end <= |keys|
    requires forall i :: 0 <= i < start ==> Compare(keys[i], key) < 0
    requires forall i :: end <= i < |keys| ==> Compare(key, keys[i]) < 0
    requires last <= |keys| && (start == end ==> BesideKey(keys, key, last))
    ensures BesideKey(keys, key, LastProbe(keys, key, start, end, last))
    decreases end - start
  {
    hide Compare;
    if start < end {
      var middle := (end - start) / 2 + start;
      KeysBeside(keys, key, middle);
      if Compare(key, keys[middle]) < 0 {
        ProbeIsBeside(keys, key, start, middle, middle);
      } else if Compare(key, keys[middle]) > 0 {
        ProbeIsBeside(keys, key, middle + 1, end, middle);
      }
    }
  }

  // The keys after bom_tree_add are in order exactly when the key is not greater than the one it is put in front of.
  // They stay distinct exactly when it is less.
  lemma OrderAfterAdd(keys: seq<ByteString>, key: ByteString, e: nat)
    requires KeysOrdered(keys) && e == LastProbe(keys, key, 0, |keys|, 0)
    ensures keys != [] ==> BesideKey(keys, key, e)
    ensures KeysOrdered(InsertAt(keys, e, key)) <==> keys == [] || Compare(key, keys[e]) <= 0
    ensures KeysSorted(keys) ==> (KeysSorted(InsertAt(keys, e, key)) <==> keys == [] || Compare(key, keys[e]) < 0)
  {
    hide Compare;
    if keys == [] {
      assert InsertAt(keys, e, key) == [key];
    } else {
      ProbeIsBeside(keys, key, 0, |keys|, 0);
      var after := InsertAt(keys, e, key);
      assert after[e] == key && after[e + 1] == keys[e];
      if Compare(key, keys[e]) <= 0 {
        OrderKept(keys, key, e);
      }
    }
  }

  lemma OrderKept(keys: seq<ByteString>, key: ByteString, e: nat)
    requires KeysOrdered(keys) && BesideKey(keys, key, e) && Compare(key, keys[e]) <= 0
    ensures KeysOrdered(InsertAt(keys, e, key))
    ensures KeysSorted(keys) && Compare(key, keys[e]) < 0 ==> KeysSorted(InsertAt(keys, e, key))
  {
    hide Compare;
    CompareAntisymmetric(key, keys[e]);
    var after := InsertAt(keys, e, key);
    forall i, j | 0 <= i < j < |after|
      ensures Compare(after[i], after[j]) <= 0
      ensures KeysSorted(keys) && Compare(key, keys[e]) < 0 ==> Compare(after[i], after[j]) < 0
    {
    }
  }

  // A key greater than all others always loses the order, a key less than all others never does.
  lemma GreatestKeyLosesOrder(keys: seq<ByteString>, key: ByteString, e: nat)
    requires KeysOrdered(keys) && keys != [] && e == LastProbe(keys, key, 0, |keys|, 0)
    ensures Splits(keys, key, |keys|) ==> !KeysOrdered(InsertAt(keys, e, key))
    ensures Splits(keys, key, 0) ==> e == 0 && KeysOrdered(InsertAt(keys, e, key))
  {
    hide Compare;
    OrderAfterAdd(keys, key, e);
    CompareAntisymmetric(key, keys[e]);
    if Splits(keys, key, 0) && e > 0 {
      CompareAntisymmetric(key, keys[0]);
    }
  }

  // The pairs of a tree to which pairs were added one by one.
  ghost function Stored(pairs: seq<Pair>): (r: seq<Pair>)
    ensures |r| == |pairs|
  {
    if pairs == [] then []
    else
      var before, pair := Stored(pairs[..|pairs| - 1]), pairs[|pairs| - 1];
      InsertAt(before, LastProbe(Keys(before), pair.key, 0, |before|, 0), pair)
  }

  lemma StoredNext(pairs: seq<Pair>, pair: Pair)
    ensures var before := Stored(pairs);
            Stored(pairs + [pair]) == InsertAt(before, LastProbe(Keys(before), pair.key, 0, |before|, 0), pair)
  {
    assert (pairs + [pair])[..|pairs|] == pairs;
  }

  lemma KeysInserted(pairs: seq<Pair>, e: nat, pair: Pair)
    requires e <= |pairs|
    ensures Keys(InsertAt(pairs, e, pair)) == InsertAt(Keys(pairs), e, pair.key)
  {
  }

  // Order that is lost does not come back.
  lemma OrderIsNotRegained(keys: seq<ByteString>, key: ByteString, e: nat)
    requires e <= |keys| && KeysOrdered(InsertAt(keys, e, key))
    ensures KeysOrdered(keys)
  {
    hide Compare;
    var after := InsertAt(keys, e, key);
    forall i, j | 0 <= i < j < |keys|
      ensures Compare(keys[i], keys[j]) <= 0
    {
      var i', j' := if i < e then i else i + 1, if j < e then j else j + 1;
      assert after[i'] == keys[i] && after[j'] == keys[j];
    }
  }

  // Over a whole run: the tree is in order exactly when it was before the last pair, and the last key was not greater
  // than the one it was put in front of.
  lemma StoredInOrder(pairs: seq<Pair>, pair: Pair)
    ensures var before := Keys(Stored(pairs));
            KeysOrdered(Keys(Stored(pairs + [pair])))
            <==> KeysOrdered(before)
                 && (before == [] || Compare(pair.key, before[LastProbe(before, pair.key, 0, |before|, 0)]) <= 0)
  {
    hide Compare;
    StoredNext(pairs, pair);
    var before := Keys(Stored(pairs));
    var e := LastProbe(before, pair.key, 0, |before|, 0);
    KeysInserted(Stored(pairs), e, pair);
    if KeysOrdered(InsertAt(before, e, pair.key)) {
      OrderIsNotRegained(before, pair.key, e);
    }
    if KeysOrdered(before) {
      OrderAfterAdd(before, pair.key, e);
    }
  }

  // Pairs added by descending keys are stored in ascending order.
  lemma {:induction false} DescendingKeysAreSorted(pairs: seq<Pair>)
    requires forall i, j :: 0 <= i < j < |pairs| ==> Compare(pairs[j].key, pairs[i].key) < 0
    ensures forall i :: 0 <= i < |pairs| ==> Keys(Stored(pairs))[i] == pairs[|pairs| - 1 - i].key
    ensures KeysSorted(Keys(Stored(pairs)))
  {
    hide Compare, Stored, LastProbe;
    if pairs != [] {
      var n := |pairs| - 1;
      DescendingKeysAreSorted(pairs[..n]);
      assert pairs == pairs[..n] + [pairs[n]];
      LeastKeyGoesFirst(pairs[..n], pairs[n]);
    }
  }

  lemma LeastKeyGoesFirst(pairs: seq<Pair>, pair: Pair)
    requires KeysSorted(Keys(Stored(pairs))) && Splits(Keys(Stored(pairs)), pair.key, 0)
    ensures Keys(Stored(pairs + [pair])) == [pair.key] + Keys(Stored(pairs))
    ensures KeysSorted(Keys(Stored(pairs + [pair])))
  {
    hide Compare;
    var before := Keys(Stored(pairs));
    var e := LastProbe(before, pair.key, 0, |before|, 0);
    StoredNext(pairs, pair);
    KeysInserted(Stored(pairs), e, pair);
    OrderAfterAdd(before, pair.key, e);
    if before != [] {
      GreatestKeyLosesOrder(before, pair.key, e);
    }
  }

  // Pairs added by ascending keys are stored out of order as soon as there are two.
  lemma {:induction false} AscendingKeysAreNotSorted(pairs: seq<Pair>)
    requires forall i, j :: 0 <= i < j < |pairs| ==> Compare(pairs[i].key, pairs[j].key) < 0
    ensures KeysOrdered(Keys(Stored(pairs))) <==> |pairs| <= 1
  {
    hide Compare;
    if |pairs| > 1 {
      var n := |pairs| - 1;
      var pair := pairs[n];
      assert pairs == pairs[..n] + [pair];
      StoredInOrder(pairs[..n], pair);
      AscendingKeysAreNotSorted(pairs[..n]);
      if n == 1 {
        StoredNext([], pairs[0]);
        assert pairs[..1] == [] + [pairs[0]];
        CompareAntisymmetric(pairs[0].key, pair.key);
        assert Keys(Stored(pairs[..1])) == [pairs[0].key];
      }
    }
  }

  // The blocks of an empty tree.
  function NewLeaf(): ByteString {
    Be16(1) + Be16(0) + Be32(0) + Be32(0)
  }

  function NewTree(leafIndex: uint32): ByteString {
    TREE_MAGIC + Be32(1) + Be32(leafIndex) + Be32(4096) + Be32(0) + [0]
  }

  lemma NewTreeBlocks(blocks: seq<ByteString>, leaf: ByteString, tree: ByteString)
    requires |blocks| + 2 < 0x1_0000_0000
    requires leaf == NewLeaf() && tree == NewTree(|blocks|)
    ensures var all := blocks + [leaf] + [tree];
            && TreeAt(all, |blocks| + 1, |blocks|, |all|)
            && TreePairs(all, |blocks| + 1, |blocks|) == []
  {
    assert leaf[0..2] == Be16(1);
    assert leaf[2..4] == Be16(0);
    assert leaf[4..8] == Be32(0);
    assert tree[..4] == TREE_MAGIC;
    assert tree[8..12] == Be32(|blocks|);
    assert tree[16..20] == Be32(0);
    Be32RoundTrip(|blocks|);
    Be32RoundTrip(0);
  }

  lemma NewBinding(variables: seq<Variable>, name: ByteString, index: uint32)
    requires 0 !in name && |name| < 0x100 && FirstBinding(variables, name).None?
    ensures StoredName(name) == name && ToUnsigned(ToSigned(index)) == index
    ensures FirstBinding(variables + [Variable(index, name)], name) == Some(index)
  {
    AddedVariableIsFound(variables, name, index);
    assert StoredName(name) == name;
  }

  // Everything of a buffer with a tree in it, as the operations see it.
  ghost predicate HoldsTree(d: ByteString, name: ByteString, tree: nat, leaf: nat) {
    && ValidBuffer(d)
    && TreeBound(Variables(d), name, tree)
    && TreeAt(Blocks(d), tree, leaf, |Blocks(d)|)
  }

  // The tree block begins where the leaf ends.
  ghost predicate TreeFollows(d: ByteString, leaf: nat, tree: nat) {
    ValidBuffer(d) && Follows(LayoutOf(d).entries, leaf, tree)
  }

  lemma TreeBehindLeaf(before: ByteString, withLeaf: ByteString, withTree: ByteString)
    requires ValidBuffer(before) && ValidBuffer(withLeaf) && ValidBuffer(withTree)
    requires EntryAdded(before, withLeaf, LEAF_HEADER) && EntryAdded(withLeaf, withTree, TREE_SIZE)
    ensures TreeFollows(withTree, |Blocks(before)|, |Blocks(before)| + 1)
  {
  }

  lemma TreeStaysBehindLeaf(d: ByteString, f: ByteString, leaf: nat, tree: nat)
    requires TreeFollows(d, leaf, tree) && ValidBuffer(f)
    requires |d| <= |f| && MovedBy(LayoutOf(d).entries, LayoutOf(f).entries, |f| - |d|)
    ensures TreeFollows(f, leaf, tree)
  {
  }

  ghost function PairsIn(d: ByteString, tree: nat, leaf: nat): seq<Pair>
    requires ValidBuffer(d) && TreeAt(Blocks(d), tree, leaf, |Blocks(d)|)
  {
    TreePairs(Blocks(d), tree, leaf)
  }

  // Blocks present before are the same, but for the listed ones.
  ghost predicate OthersKept(before: seq<ByteString>, after: seq<ByteString>, changed: set<nat>) {
    |before| <= |after| && forall i :: 0 <= i < |before| && i !in changed ==> after[i] == before[i]
  }

  // ----- The writes of bom_tree_add, in the buffer -----

  // Room in the leaf for one pair more than the n it holds.
  predicate Fits(leaf: ByteString, n: nat) {
    LEAF_HEADER + PAIR_SIZE * (n + 1) <= |leaf|
  }

  // Room is reserved for whole pairs.
  predicate WholePairs(leaf: ByteString) {
    |leaf| >= LEAF_HEADER && (|leaf| - LEAF_HEADER) % PAIR_SIZE == 0
  }

  // The check compares the pairs against the whole block length and forgets the leaf header, so in a leaf that holds
  // its pairs it never asks for more room.
  lemma RoomCheckNeverFires(leaf: ByteString, n: nat)
    requires IsLeaf(leaf, n)
    ensures PAIR_SIZE * (n + 1) <= |leaf|
  {
  }

  // Whether or not they fit the leaf, n + 1 pairs behind its header end inside the buffer.
  ghost predicate WritesInBuffer(d: ByteString, leaf: nat, n: nat)
    requires ValidBuffer(d)
  {
    && leaf < |LayoutOf(d).entries|
    && LayoutOf(d).entries[leaf].address + LEAF_HEADER + PAIR_SIZE * (n + 1) <= |d|
  }

  ghost predicate WritableTree(d: ByteString, tree: nat, leaf: nat, n: nat) {
    && ValidBuffer(d) && WritesInBuffer(d, leaf, n)
    && tree < |Blocks(d)| && leaf < |Blocks(d)| && tree != leaf
    && IsLeaf(Blocks(d)[leaf], n) && IsTree(Blocks(d)[tree], leaf, n)
  }

  // What is known of the places of the two blocks.
  lemma WritableAddresses(d: ByteString, tree: nat, leaf: nat, n: nat)
    requires WritableTree(d, tree, leaf, n)
    ensures tree < |LayoutOf(d).entries| && leaf < |LayoutOf(d).entries| && n < 0x1_0000
    ensures var l, a, t := LayoutOf(d), LayoutOf(d).entries[leaf], LayoutOf(d).entries[tree];
            && l.DataStart() <= a.address && a.length == |Blocks(d)[leaf]|
            && l.DataStart() <= t.address && t.length == TREE_SIZE && t.address + TREE_SIZE <= |d|
            && a.address + LEAF_HEADER + PAIR_SIZE * n <= a.address + a.length <= |d|
            && a.address + LEAF_HEADER + PAIR_SIZE * (n + 1) <= |d|
            && Disjoint(a, t)
            && d[a.address..a.address + a.length] == Blocks(d)[leaf]
            && d[t.address..t.address + TREE_SIZE] == Blocks(d)[tree]
  {
    hide U32, U16, FieldsFit, LayoutOf, VariablesSpan;
    var l := LayoutOf(d);
    BlocksCount(d);
    SoundEntry(l, |d|, leaf);
    SoundEntry(l, |d|, tree);
    if tree < leaf {
      assert Disjoint(l.entries[tree], l.entries[leaf]);
    }
  }

  // Making room and filling in the pair.
  function LeafWrites(d: ByteString, a: nat, n: nat, e: nat, pair: IndexPair): (r: ByteString)
    requires e <= n && a + LEAF_HEADER + PAIR_SIZE * (n + 1) <= |d|
    ensures |r| == |d|
  {
    var at := a + LEAF_HEADER + PAIR_SIZE * e;
    var shifted := Put(d, at + PAIR_SIZE, d[at..a + LEAF_HEADER + PAIR_SIZE * n]);
    Put(Put(shifted, at + 4, Be32(pair.key)), at, Be32(pair.value))
  }

  // The number of pairs is stored in 16 bits.
  function NextCount(n: nat): uint16 {
    (n + 1) % 0x1_0000
  }

  // All writes, in their order.
  ghost function PairWrites(d: ByteString, tree: nat, leaf: nat, n: nat, e: nat, pair: IndexPair): (r: ByteString)
    requires WritableTree(d, tree, leaf, n) && e <= n
    ensures |r| == |d|
  {
    WritableAddresses(d, tree, leaf, n);
    var a, t := LayoutOf(d).entries[leaf].address, LayoutOf(d).entries[tree].address;
    var f := LeafWrites(d, a, n, e, pair);
    Put(Put(f, t + TREE_PATH_COUNT, Be32(n + 1)), a + LEAF_COUNT, Be16(NextCount(n)))
  }

  // Nothing changes outside the n + 1 pairs.
  lemma LeafWritesConfined(d: ByteString, a: nat, n: nat, e: nat, pair: IndexPair, from: nat, to: nat)
    requires e <= n && a + LEAF_HEADER + PAIR_SIZE * (n + 1) <= |d| && from <= to <= |d|
    requires to <= a + LEAF_HEADER || a + LEAF_HEADER + PAIR_SIZE * (n + 1) <= from
    ensures LeafWrites(d, a, n, e, pair)[from..to] == d[from..to]
  {
    hide Put;
    var at := a + LEAF_HEADER + PAIR_SIZE * e;
    var bytes := d[at..a + LEAF_HEADER + PAIR_SIZE * n];
    var shifted := Put(d, at + PAIR_SIZE, bytes);
    PutOther(d, at + PAIR_SIZE, bytes, from, to);
    PutOther(shifted, at + 4, Be32(pair.key), from, to);
    PutOther(Put(shifted, at + 4, Be32(pair.key)), at, Be32(pair.value), from, to);
  }

  // Both counts are still there when they are raised.
  lemma CountsKept(d: ByteString, tree: nat, leaf: nat, n: nat, e: nat, pair: IndexPair)
    requires WritableTree(d, tree, leaf, n) && e <= n
    ensures tree < |LayoutOf(d).entries| && leaf < |LayoutOf(d).entries|
    ensures var a, t := LayoutOf(d).entries[leaf].address, LayoutOf(d).entries[tree].address;
            && a + LEAF_HEADER + PAIR_SIZE * (n + 1) <= |d| && t + TREE_SIZE <= |d|
            && var f := LeafWrites(d, a, n, e, pair);
               && U32(f, t + TREE_PATH_COUNT) == n
               && n < 0x1_0000 && U16(Put(f, t + TREE_PATH_COUNT, Be32(n + 1)), a + LEAF_COUNT) == n
  {
    hide U32, U16, LeafWrites, Put, Be32, LayoutOf, FieldsFit, Sound, VariablesSpan, Blocks, WritesInBuffer;
    WritableAddresses(d, tree, leaf, n);
    var l := LayoutOf(d);
    var a, t := l.entries[leaf].address, l.entries[tree].address;
    var f := LeafWrites(d, a, n, e, pair);
    LeafWritesConfined(d, a, n, e, pair, t + TREE_PATH_COUNT, t + TREE_PATH_COUNT + 4);
    FieldInBlock(d, t, TREE_SIZE, TREE_PATH_COUNT);
    LeafWritesConfined(d, a, n, e, pair, a + LEAF_COUNT, a + LEAF_COUNT + 2);
    U16Other(f, t + TREE_PATH_COUNT, Be32(n + 1), a + LEAF_COUNT);
    ShortFieldInBlock(d, a, l.entries[leaf].length, LEAF_COUNT);
    SameFields(f, d, t + TREE_PATH_COUNT, a + LEAF_COUNT);
  }

  // With room the writes are writes into the two blocks.
  lemma WritesInside(d: ByteString, tree: nat, leaf: nat, n: nat, e: nat, pair: IndexPair)
    requires WritableTree(d, tree, leaf, n) && e <= n && n + 1 < 0x1_0000 && Fits(Blocks(d)[leaf], n)
    ensures var f := PairWrites(d, tree, leaf, n, e, pair);
            ValidBuffer(f) && PairWritten(Blocks(d), Blocks(f), tree, leaf, n, e, pair)
  {
    hide FieldsFit, Sound, VariablesSpan, Blocks, U32, U16, Put, Be32, Be16, LayoutOf, WritesInBuffer;
    WritableAddresses(d, tree, leaf, n);
    var a, t := LayoutOf(d).entries[leaf].address, LayoutOf(d).entries[tree].address;
    var leafBytes, treeBytes := Blocks(d)[leaf], Blocks(d)[tree];
    var at, end := LEAF_HEADER + PAIR_SIZE * e, LEAF_HEADER + PAIR_SIZE * n;
    SliceOfSlice(d, a, a + |leafBytes|, at, end);
    var d1, f1 := InBlock(d, leaf, at + PAIR_SIZE, leafBytes[at..end]);
    var d2, f2 := InBlock(d1, leaf, at + 4, Be32(pair.key));
    var d3, f3 := InBlock(d2, leaf, at, Be32(pair.value));
    var d4, t1 := InBlock(d3, tree, TREE_PATH_COUNT, Be32(n + 1));
    var d5, f4 := InBlock(d4, leaf, LEAF_COUNT, Be16(NextCount(n)));
    assert d5 == PairWrites(d, tree, leaf, n, e, pair);
    LeafInserted(leafBytes, n, e, pair, f1, f2, f3, f4);
    PathCountWritten(treeBytes, leaf, n, n + 1, t1);
  }

  lemma InBlock(d: ByteString, index: nat, offset: nat, bytes: ByteString) returns (f: ByteString, block: ByteString)
    requires ValidBuffer(d) && index < |Blocks(d)| && offset + |bytes| <= |Blocks(d)[index]|
    ensures ValidBuffer(f) && LayoutOf(f) == LayoutOf(d) && index < |LayoutOf(d).entries|
    ensures LayoutOf(d).entries[index].address + offset + |bytes| <= |d|
    ensures f == Put(d, LayoutOf(d).entries[index].address + offset, bytes)
    ensures block == Put(Blocks(d)[index], offset, bytes) && Blocks(f) == Blocks(d)[index := block]
  {
    hide U32, FieldsFit, LayoutOf, VariablesSpan, Put;
    BlocksCount(d);
    var e := LayoutOf(d).entries[index];
    SoundEntry(LayoutOf(d), |d|, index);
    block := Put(Blocks(d)[index], offset, bytes);
    f := Put(d, e.address + offset, bytes);
    if bytes == [] {
      PutEmpty(d, e.address + offset);
      PutEmpty(Blocks(d)[index], offset);
    } else {
      BlockWritten(d, index, offset, bytes, e.address + offset, f);
    }
  }

  // The value index of the pair that comes last.
  lemma LastPairWritten(d: ByteString, a: nat, n: nat, e: nat, pair: IndexPair)
    requires e <= n && a + LEAF_HEADER + PAIR_SIZE * (n + 1) <= |d| && (n > 0 ==> e < n)
    ensures U32(LeafWrites(d, a, n, e, pair), a + LEAF_HEADER + PAIR_SIZE * n)
            == if n == 0 then pair.value else U32(d, a + LEAF_HEADER + PAIR_SIZE * (n - 1))
  {
    hide U32, Put, Be32;
    var at, end := a + LEAF_HEADER + PAIR_SIZE * e, a + LEAF_HEADER + PAIR_SIZE * n;
    var f1 := Put(d, at + PAIR_SIZE, d[at..end]);
    var f2 := Put(f1, at + 4, Be32(pair.key));
    if n == 0 {
      PutField(f2, at, pair.value);
    } else {
      U32Other(f2, at, Be32(pair.value), end);
      U32Other(f1, at + 4, Be32(pair.key), end);
      PutSame(d, at + PAIR_SIZE, d[at..end]);
      SubField(f1, at + PAIR_SIZE, end + PAIR_SIZE, d, at, end, end - PAIR_SIZE - at);
    }
  }

  // Bytes away from the pairs and from both counts.
  lemma WritesConfined(d: ByteString, tree: nat, leaf: nat, n: nat, e: nat, pair: IndexPair, from: nat, to: nat)
    requires WritableTree(d, tree, leaf, n) && e <= n && from <= to <= |d|
    requires tree < |LayoutOf(d).entries| && leaf < |LayoutOf(d).entries|
    requires var a, t := LayoutOf(d).entries[leaf].address, LayoutOf(d).entries[tree].address;
             && (to <= a || a + LEAF_HEADER + PAIR_SIZE * (n + 1) <= from)
             && (to <= t + TREE_PATH_COUNT || t + TREE_SIZE <= from)
    ensures PairWrites(d, tree, leaf, n, e, pair)[from..to] == d[from..to]
  {
    hide FieldsFit, Sound, VariablesSpan, U32, U16, Put, Be32, Be16, LayoutOf, LeafWrites, Blocks;
    WritableAddresses(d, tree, leaf, n);
    var a, t := LayoutOf(d).entries[leaf].address, LayoutOf(d).entries[tree].address;
    var f := LeafWrites(d, a, n, e, pair);
    LeafWritesConfined(d, a, n, e, pair, from, to);
    PutOther(f, t + TREE_PATH_COUNT, Be32(n + 1), from, to);
    PutOther(Put(f, t + TREE_PATH_COUNT, Be32(n + 1)), a + LEAF_COUNT, Be16(NextCount(n)), from, to);
  }

  // When the tree follows the leaf, the writes touch no other block, room or not.
  lemma OnlyTheTreeIsHit(d: ByteString, tree: nat, leaf: nat, n: nat, e: nat, pair: IndexPair, f: ByteString)
    requires WritableTree(d, tree, leaf, n) && e <= n && TreeFollows(d, leaf, tree)
    requires f == PairWrites(d, tree, leaf, n, e, pair) && ValidBuffer(f) && LayoutOf(f) == LayoutOf(d)
    ensures |Blocks(f)| == |Blocks(d)| && OthersKept(Blocks(d), Blocks(f), {tree, leaf})
  {
    hide FieldsFit, Sound, VariablesSpan, U32, U16, LayoutOf, PairWrites, WritesInBuffer;
    WritableAddresses(d, tree, leaf, n);
    BlocksCount(d);
    BlocksCount(f);
    var l := LayoutOf(d);
    var a, t := l.entries[leaf], l.entries[tree];
    forall i | 0 <= i < |Blocks(d)| && i !in {tree, leaf}
      ensures Blocks(f)[i] == Blocks(d)[i]
    {
      var b := l.entries[i];
      SoundEntry(l, |d|, i);
      if b.length > 0 {
        EntriesDisjoint(l, |d|, i, leaf);
        EntriesDisjoint(l, |d|, i, tree);
        WritesConfined(d, tree, leaf, n, e, pair, b.address, b.address + b.length);
      }
    }
  }

  // Without room the tree block is no tree afterwards: its magic number became a block index.
  lemma TreeIsOverwritten(d: ByteString, tree: nat, leaf: nat, n: nat, e: nat, pair: IndexPair, f: ByteString)
    requires WritableTree(d, tree, leaf, n) && e <= n && (n > 0 ==> e < n)
    requires TreeFollows(d, leaf, tree) && WholePairs(Blocks(d)[leaf]) && !Fits(Blocks(d)[leaf], n)
    requires pair.value < |Blocks(d)| && PairsBelow(IndexPairs(Blocks(d)[leaf], n), |Blocks(d)|, tree, leaf)
    requires f == PairWrites(d, tree, leaf, n, e, pair) && ValidBuffer(f) && LayoutOf(f) == LayoutOf(d)
    ensures tree < |Blocks(f)| && |Blocks(f)[tree]| >= 4 && Blocks(f)[tree][..4] != TREE_MAGIC
  {
    hide FieldsFit, Sound, VariablesSpan, U32, U16, LayoutOf, LeafWrites, WritesInBuffer, Put, Be32, Be16;
    WritableAddresses(d, tree, leaf, n);
    BlocksCount(d);
    BlocksCount(f);
    var l := LayoutOf(d);
    var a, t := l.entries[leaf], l.entries[tree];
    assert t.address == a.address + LEAF_HEADER + PAIR_SIZE * n;
    LastPairWritten(d, a.address, n, e, pair);
    if n > 0 {
      FieldInBlock(d, a.address, a.length, LEAF_HEADER + PAIR_SIZE * (n - 1));
      assert IndexPairs(Blocks(d)[leaf], n)[n - 1].value == U32(d, a.address + LEAF_HEADER + PAIR_SIZE * (n - 1));
    }
    var f1 := LeafWrites(d, a.address, n, e, pair);
    U32Other(f1, t.address + TREE_PATH_COUNT, Be32(n + 1), t.address);
    U32Other(Put(f1, t.address + TREE_PATH_COUNT, Be32(n + 1)), a.address + LEAF_COUNT, Be16(NextCount(n)), t.address);
    assert U32(f, t.address) < |Blocks(d)|;
    IndexIsNoMagic(f, t.address);
    SliceOfSlice(f, t.address, t.address + TREE_SIZE, 0, 4);
  }

  // New blocks at the end leave the writes inside the buffer, and the tree behind its leaf.
  lemma StaysWritable(d0: ByteString, d1: ByteString, d2: ByteString, tree: nat, leaf: nat, n: nat, more: nat,
                      evenMore: nat)
    requires ValidBuffer(d0) && ValidBuffer(d1) && ValidBuffer(d2)
    requires EntryAdded(d0, d1, more) && EntryAdded(d1, d2, evenMore)
    requires WritesInBuffer(d0, leaf, n) && Blocks(d0)[leaf] != []
    ensures WritesInBuffer(d2, leaf, n)
    ensures TreeFollows(d0, leaf, tree) ==> TreeFollows(d2, leaf, tree)
  {
    hide FieldsFit, LayoutOf, VariablesSpan;
    MovedFurther(LayoutOf(d0).entries, LayoutOf(d1).entries, LayoutOf(d2).entries, |d1| - |d0| - more,
                 |d2| - |d1| - evenMore);
  }

  // What bom_tree_add makes of the blocks.
  lemma PairAdded(before: seq<ByteString>, d: ByteString, tree: nat, leaf: nat, n: nat, key: ByteString,
                  value: ByteString, e: nat, f: ByteString)
    requires TreeAt(before, tree, leaf, |before|) && n == LeafSize(before[leaf])
    requires ValidBuffer(d) && Blocks(d) == before + [key] + [value] && |before| + 1 < 0x1_0000_0000
    requires WritesInBuffer(d, leaf, n) && e <= n && (n > 0 ==> e < n)
    requires WritableTree(d, tree, leaf, n) && f == PairWrites(d, tree, leaf, n, e, IndexPair(|before|, |before| + 1))
    requires ValidBuffer(f) && LayoutOf(f) == LayoutOf(d)
    ensures |Blocks(f)| == |before| + 2 && |Blocks(f)[leaf]| == |before[leaf]|
    ensures e <= |TreePairs(before, tree, leaf)|
    ensures n + 1 == 0x1_0000 ==> !TreeAt(Blocks(f), tree, leaf, |Blocks(f)|)
    ensures Fits(before[leaf], n) && n + 1 < 0x1_0000 ==>
              && TreeAt(Blocks(f), tree, leaf, |Blocks(f)|)
              && TreePairs(Blocks(f), tree, leaf) == InsertAt(TreePairs(before, tree, leaf), e, Pair(key, value))
              && OthersKept(before, Blocks(f), {tree, leaf})
    ensures TreeFollows(d, leaf, tree) ==>
              && OthersKept(before, Blocks(f), {tree, leaf})
              && TreeFollows(f, leaf, tree)
              && (WholePairs(before[leaf]) && !Fits(before[leaf], n) ==> !TreeAt(Blocks(f), tree, leaf, |Blocks(f)|))
  {
    hide FieldsFit, Sound, VariablesSpan, U32, U16, LayoutOf, PairWrites, WritesInBuffer, TreePairs;
    var pair := IndexPair(|before|, |before| + 1);
    BlocksCount(d);
    BlocksCount(f);
    WritableAddresses(d, tree, leaf, n);
    PairCount(before, tree, leaf);
    if n + 1 == 0x1_0000 {
      CountWraps(d, tree, leaf, n, e, pair, f);
    } else if Fits(before[leaf], n) {
      WritesInside(d, tree, leaf, n, e, pair);
      PairInserted(before, Blocks(d), tree, leaf, key, value, e, Blocks(f));
    }
    if TreeFollows(d, leaf, tree) {
      OnlyTheTreeIsHit(d, tree, leaf, n, e, pair, f);
      if WholePairs(before[leaf]) && !Fits(before[leaf], n) {
        TreeIsOverwritten(d, tree, leaf, n, e, pair, f);
      }
    }
    SoundEntry(LayoutOf(d), |d|, leaf);
  }

  // The count of the leaf starts again at 0 while that of the tree does not.
  lemma CountWraps(d: ByteString, tree: nat, leaf: nat, n: nat, e: nat, pair: IndexPair, f: ByteString)
    requires WritableTree(d, tree, leaf, n) && e <= n && n + 1 == 0x1_0000
    requires f == PairWrites(d, tree, leaf, n, e, pair) && ValidBuffer(f) && LayoutOf(f) == LayoutOf(d)
    ensures !TreeAt(Blocks(f), tree, leaf, |Blocks(f)|)
  {
    hide FieldsFit, Sound, VariablesSpan, U32, U16, LayoutOf, LeafWrites, WritesInBuffer, Put, Be32, Be16, IsLeaf;
    WritableAddresses(d, tree, leaf, n);
    BlocksCount(d);
    BlocksCount(f);
    var a, t := LayoutOf(d).entries[leaf], LayoutOf(d).entries[tree];
    var f1 := LeafWrites(d, a.address, n, e, pair);
    var f2 := Put(f1, t.address + TREE_PATH_COUNT, Be32(n + 1));
    PutU16(f2, a.address + LEAF_COUNT, 0);
    PutField(f1, t.address + TREE_PATH_COUNT, n + 1);
    U32Other(f2, a.address + LEAF_COUNT, Be16(0), t.address + TREE_PATH_COUNT);
    ShortFieldInBlock(f, a.address, a.length, LEAF_COUNT);
    FieldInBlock(f, t.address, TREE_SIZE, TREE_PATH_COUNT);
    assert Blocks(f)[leaf] == f[a.address..a.address + a.length];
    assert Blocks(f)[tree] == f[t.address..t.address + TREE_SIZE];
    assert LeafSize(Blocks(f)[leaf]) == 0;
  }

  // As a block index the magic number of a tree is too large for a buffer with 32-bit offsets.
  lemma IndexIsNoMagic(f: ByteString, at: nat)
    requires ValidBuffer(f) && at + 4 <= |f| && U32(f, at) < |Blocks(f)|
    ensures f[at..at + 4] != TREE_MAGIC
  {
    assert FromBe32(TREE_MAGIC) == 0x7472_6565;
  }

  lemma EntriesDisjoint(l: Layout, size: nat, i: nat, j: nat)
    requires Sound(l, size) && i < |l.entries| && j < |l.entries| && i != j
    ensures Disjoint(l.entries[i], l.entries[j])
  {
    if j < i {
      assert Disjoint(l.entries[j], l.entries[i]);
    }
  }

  lemma SameFields(f: ByteString, d: ByteString, o: nat, p: nat)
    requires |f| == |d| && o + 4 <= |d| && p + 2 <= |d| && f[o..o + 4] == d[o..o + 4] && f[p..p + 2] == d[p..p + 2]
    ensures U32(f, o) == U32(d, o) && U16(f, p) == U16(d, p)
  {
  }

  lemma FieldInBlock(d: ByteString, a: nat, length: nat, o: nat)
    requires a + length <= |d| && o + 4 <= length
    ensures U32(d[a..a + length], o) == U32(d, a + o)
  {
    SliceOfSlice(d, a, a + length, o, o + 4);
  }

  lemma ShortFieldInBlock(d: ByteString, a: nat, length: nat, o: nat)
    requires a + length <= |d| && o + 2 <= length
    ensures U16(d[a..a + length], o) == U16(d, a + o)
  {
    SliceOfSlice(d, a, a + length, o, o + 2);
  }

  class BomTreeContext {
    const context: BomContext
    const name: ByteString

    // The tree's own blocks; the original looks them up again in every call.
    ghost const tree: nat
    ghost const leaf: nat

    ghost predicate Valid()
      reads context
    {
      HoldsTree(context.data, name, tree, leaf)
    }

    // bom_tree_alloc_empty: two new blocks, the leaf first, and a variable. The tree can be found again under a new
    // name that fits its length byte; a name that is bound already stays bound to what it was.
    constructor (context: BomContext, name: ByteString)
      requires context.Valid() && 0 !in name && Room(context.data, 100 + |name|)
      modifies context
      ensures this.context == context && this.name == name && context.Valid()
      ensures TreeAt(Blocks(context.data), tree, leaf, |Blocks(context.data)|)
      ensures PairsIn(context.data, tree, leaf) == []
      ensures FirstBinding(Variables(old(context.data)), name).None? ==> (Valid() <==> |name| < 0x100)
      ensures FirstBinding(Variables(old(context.data)), name).Some? ==>
                FirstBinding(Variables(context.data), name) == FirstBinding(Variables(old(context.data)), name)
      ensures leaf == |Blocks(old(context.data))| && tree == leaf + 1
      ensures OthersKept(Blocks(old(context.data)), Blocks(context.data), {}) && |Blocks(context.data)| == leaf + 2
      ensures Blocks(context.data)[leaf] == NewLeaf() && leaf < 0x1_0000_0000
      ensures Blocks(context.data)[tree] == NewTree(leaf)
      ensures TreeFollows(context.data, leaf, tree)
      ensures Variables(context.data) == Variables(old(context.data)) + [Variable(tree, StoredName(name))]
      ensures leaf + 2 <= Slots(old(context.data)) ==> Slots(context.data) == Slots(old(context.data))
      ensures |context.data| <= |old(context.data)| + 100 + |name|
      ensures Signature(context.data) == Signature(old(context.data))
    {
      this.context := context;
      this.name := name;
      hide ValidBuffer, Blocks, Variables, Slots, TreeAt, TreePairs, FirstBinding, StoredName, Be32, Be16, LayoutOf,
        EntryAdded, MovedBy, Follows;
      ghost var blocks := Blocks(context.data);
      ghost var variables := Variables(context.data);
      this.leaf := |blocks|;
      this.tree := |blocks| + 1;
      new;
      var leafBytes := NewLeaf();
      var leafIndex := context.IndexAdd(leafBytes);
      ghost var withLeaf := context.data;
      var treeBytes := NewTree(leafIndex);
      var treeIndex := context.IndexAdd(treeBytes);
      ghost var withTree := context.data;
      TreeBehindLeaf(old(context.data), withLeaf, withTree);
      NewTreeBlocks(blocks, leafBytes, treeBytes);
      context.VariableAdd(name, ToSigned(treeIndex));
      TreeStaysBehindLeaf(withTree, context.data, leaf, tree);
      BindingAfterAdd(variables, Variable(treeIndex, StoredName(name)), name);
      if FirstBinding(variables, name).None? {
        AddedVariableIsFound(variables, name, treeIndex);
      }
    }

    // The lookups every call starts with: the tree block by its variable, then its leaf.
    method Fetch() returns (treeIndex: uint32, treeBytes: ByteString, leafIndex: uint32, leafBytes: ByteString)
      requires Valid()
      ensures treeIndex == tree && leafIndex == leaf
      ensures treeBytes == Blocks(context.data)[tree] && leafBytes == Blocks(context.data)[leaf]
      ensures IsLeaf(leafBytes, LeafSize(leafBytes)) && IsTree(treeBytes, leafIndex, LeafSize(leafBytes))
    {
      hide ValidBuffer, Blocks, Variables, FirstBinding, U32, U16;
      var bound := context.VariableGet(name);
      BoundIndex(tree);
      treeIndex := ToUnsigned(bound);
      var treeBlock := context.IndexGet(treeIndex);
      treeBytes := treeBlock.value;
      leafIndex := U32(treeBytes, TREE_CHILD);
      var leafBlock := context.IndexGet(leafIndex);
      leafBytes := leafBlock.value;
    }

    // bom_tree_iterate: every pair of the tree, in stored order. The tree has a single leaf.
    method Iterate() returns (pairs: seq<Pair>)
      requires Valid()
      ensures pairs == PairsIn(context.data, tree, leaf)
    {
      hide ValidBuffer, Blocks, U32, U16;
      var _, _, _, leafBytes := Fetch();
      pairs := [];
      ghost var indexes := IndexPairs(leafBytes, LeafSize(leafBytes));
      for i := 0 to U16(leafBytes, LEAF_COUNT)
        invariant pairs == PairsIn(context.data, tree, leaf)[..i]
      {
        var at := LEAF_HEADER + PAIR_SIZE * i;
        assert indexes[i] == IndexPair(U32(leafBytes, at + 4), U32(leafBytes, at));
        var key := context.IndexGet(U32(leafBytes, at + 4));
        var value := context.IndexGet(U32(leafBytes, at));
        pairs := pairs + [Pair(key.value, value.value)];
      }
    }

    // bom_tree_reserve: room for more pairs at the end of the leaf.
    method Reserve(count: nat)
      requires Valid() && Room(context.data, PAIR_SIZE * count)
      modifies context
      ensures Valid()
      ensures PairsIn(context.data, tree, leaf) == PairsIn(old(context.data), tree, leaf)
      ensures OthersKept(Blocks(old(context.data)), Blocks(context.data), {leaf})
      ensures |Blocks(context.data)| == |Blocks(old(context.data))|
      ensures |Blocks(context.data)[leaf]| == |Blocks(old(context.data))[leaf]| + PAIR_SIZE * count
      ensures Variables(context.data) == Variables(old(context.data))
      ensures Slots(context.data) == Slots(old(context.data))
      ensures |context.data| == |old(context.data)| + PAIR_SIZE * count
      ensures Signature(context.data) == Signature(old(context.data))
      ensures TreeFollows(old(context.data), leaf, tree) ==> TreeFollows(context.data, leaf, tree)
    {
      hide ValidBuffer, Blocks, Variables, FirstBinding, U32, U16, Slots;
      var _, _, leafIndex, _ := Fetch();
      context.IndexAppend(leafIndex, PAIR_SIZE * count);
      LeafExtended(Blocks(old(context.data)), Blocks(context.data), tree, leaf, PAIR_SIZE * count);
    }

    // The key block of the i-th pair.
    method KeyAt(leafBytes: ByteString, i: nat) returns (key: ByteString)
      requires Valid() && leafBytes == Blocks(context.data)[leaf] && i < LeafSize(leafBytes)
      ensures i < |PairsIn(context.data, tree, leaf)| && key == PairsIn(context.data, tree, leaf)[i].key
    {
      hide ValidBuffer, Blocks, U32, U16;
      var at := LEAF_HEADER + PAIR_SIZE * i;
      ghost var indexes := IndexPairs(leafBytes, LeafSize(leafBytes));
      assert indexes[i] == IndexPair(U32(leafBytes, at + 4), U32(leafBytes, at));
      var block := context.IndexGet(U32(leafBytes, at + 4));
      key := block.value;
    }

    // The search loop of bom_tree_add.
    method Search(leafBytes: ByteString, lastIndex: nat, key: ByteString) returns (entryIndex: nat)
      requires Valid() && leafBytes == Blocks(context.data)[leaf] && lastIndex == LeafSize(leafBytes)
      ensures lastIndex == |PairsIn(context.data, tree, leaf)| && entryIndex <= lastIndex
      ensures entryIndex == LastProbe(Keys(PairsIn(context.data, tree, leaf)), key, 0, lastIndex, 0)
    {
      hide ValidBuffer, Blocks, TreeAt, TreePairs, IsLeaf, IsTree, Compare, LeafSize, LastProbe, Keys;
      PairCount(Blocks(context.data), tree, leaf);
      ghost var keys := Keys(PairsIn(context.data, tree, leaf));
      entryIndex := 0;
      var startRange: nat, endRange: nat := 0, lastIndex;
      while startRange < endRange
        invariant startRange <= endRange <= lastIndex && entryIndex <= lastIndex
        invariant |keys| == lastIndex
        invariant LastProbe(keys, key, 0, lastIndex, 0) == LastProbe(keys, key, startRange, endRange, entryIndex)
        decreases endRange - startRange
      {
        var delta := endRange - startRange;
        entryIndex := delta / 2 + startRange;
        var other := KeyAt(leafBytes, entryIndex);
        KeysElement(PairsIn(context.data, tree, leaf), entryIndex);
        LastProbeStep(keys, key, startRange, endRange, entryIndex, other);
        var result := Compare(key, other);
        if result < 0 {
          endRange := entryIndex;
        } else if result > 0 {
          startRange := entryIndex + 1;
        } else {
          LastProbeEnd(keys, key, endRange, entryIndex);
          return;
        }
      }
      LastProbeEnd(keys, key, startRange, entryIndex);
    }

    // bom_tree_add. When the leaf has room, exactly the given pair is inserted, at the last probed position; all other
    // pairs keep their relative order, and no other block changes. Without room the pair at the end of the leaf goes
    // over what follows it: a tree block there no longer is one. Neither is the tree after its 65536th pair, when the
    // 16-bit count of the leaf starts again at 0.
    method Add(key: ByteString, value: ByteString)
      requires Valid() && Room(context.data, |key| + |value| + 2 * INDEX_ENTRY)
      requires WritesInBuffer(context.data, leaf, |PairsIn(context.data, tree, leaf)|)
      modifies context
      ensures context.Valid()
      ensures var before := PairsIn(old(context.data), tree, leaf);
              Fits(Blocks(old(context.data))[leaf], |before|) && |before| + 1 < 0x1_0000 ==>
                && Valid()
                && PairsIn(context.data, tree, leaf)
                   == InsertAt(before, LastProbe(Keys(before), key, 0, |before|, 0), Pair(key, value))
                && OthersKept(Blocks(old(context.data)), Blocks(context.data), {tree, leaf})
      ensures TreeFollows(old(context.data), leaf, tree) ==>
                && OthersKept(Blocks(old(context.data)), Blocks(context.data), {tree, leaf})
                && (WholePairs(Blocks(old(context.data))[leaf]) ==>
                      (Valid() <==>
                        && Fits(Blocks(old(context.data))[leaf], |PairsIn(old(context.data), tree, leaf)|)
                        && |PairsIn(old(context.data), tree, leaf)| + 1 < 0x1_0000))
                && TreeFollows(context.data, leaf, tree)
      ensures |PairsIn(old(context.data), tree, leaf)| + 1 == 0x1_0000 ==> !Valid()
      ensures |Blocks(context.data)| == |Blocks(old(context.data))| + 2
      ensures |Blocks(context.data)[leaf]| == |Blocks(old(context.data))[leaf]|
      ensures Variables(context.data) == Variables(old(context.data))
      ensures |Blocks(old(context.data))| + 2 <= Slots(old(context.data)) ==>
                Slots(context.data) == Slots(old(context.data))
      ensures |context.data| <= |old(context.data)| + |key| + |value| + 2 * INDEX_ENTRY
      ensures Signature(context.data) == Signature(old(context.data))
    {
      hide ValidBuffer, Blocks, Variables, FirstBinding, U32, U16, Slots, Put, LastProbe, TreePairs, PairWrites,
        WritesInBuffer, TreeFollows, EntryAdded;
      var keyIndex := context.IndexAdd(key);
      ghost var withKey := context.data;
      var valueIndex := context.IndexAdd(value);
      ghost var withBoth := context.data;
      ghost var before := Blocks(old(context.data));
      ghost var added := Blocks(context.data);
      TreeFrame(before, added, tree, leaf, |before|);
      var treeIndex, treeBytes, leafIndex, leafBytes := Fetch();
      PairCount(before, tree, leaf);
      RoomCheckNeverFires(leafBytes, U16(leafBytes, LEAF_COUNT));
      var lastIndex: nat := U16(leafBytes, LEAF_COUNT);
      var entryIndex := Search(leafBytes, lastIndex, key);
      StaysWritable(old(context.data), withKey, withBoth, tree, leaf, lastIndex, |key|, |value|);
      WritePair(treeIndex, leafIndex, lastIndex, entryIndex, IndexPair(keyIndex, valueIndex));
      PairAdded(before, withBoth, tree, leaf, lastIndex, key, value, entryIndex, context.data);
    }

    // The writes at the end of bom_tree_add, through pointers into the buffer.
    method WritePair(treeIndex: uint32, leafIndex: uint32, lastIndex: nat, entryIndex: nat, pair: IndexPair)
      requires WritableTree(context.data, treeIndex, leafIndex, lastIndex)
      requires entryIndex <= lastIndex
      modifies context
      ensures context.Valid() && LayoutOf(context.data) == LayoutOf(old(context.data))
      ensures Slots(context.data) == Slots(old(context.data))
      ensures Signature(context.data) == Signature(old(context.data))
      ensures Variables(context.data) == Variables(old(context.data))
      ensures context.data == PairWrites(old(context.data), treeIndex, leafIndex, lastIndex, entryIndex, pair)
    {
      hide ValidBuffer, Blocks, Variables, U32, U16, Put, Be32, Be16, LayoutOf;
      ghost var d := context.data;
      WritableAddresses(d, treeIndex, leafIndex, lastIndex);
      var treeAddress := context.AddressOf(treeIndex);
      var leafAddress := context.AddressOf(leafIndex);
      var at := leafAddress + LEAF_HEADER + PAIR_SIZE * entryIndex;
      var end := leafAddress + LEAF_HEADER + PAIR_SIZE * lastIndex;
      if entryIndex < lastIndex {
        context.WriteAt(at + PAIR_SIZE, context.data[at..end]);
      } else {
        PutEmpty(context.data, at + PAIR_SIZE);
      }
      context.WriteAt(at + 4, Be32(pair.key));
      context.WriteAt(at, Be32(pair.value));
      CountsKept(d, treeIndex, leafIndex, lastIndex, entryIndex, pair);
      var paths := U32(context.data, treeAddress + TREE_PATH_COUNT) + 1;
      context.WriteAt(treeAddress + TREE_PATH_COUNT, Be32(paths));
      ghost var f := context.data;
      var count := (U16(context.data, leafAddress + LEAF_COUNT) + 1) % 0x1_0000;
      context.WriteAt(leafAddress + LEAF_COUNT, Be16(count));
    }
  }

  // Who adds to a new tree without reserving room first has no tree any more.
  method AddToNewTree(context: BomContext, name: ByteString, key: ByteString,
                      value: ByteString) returns (t: BomTreeContext)
    requires context.Valid() && 0 !in name && |name| < 0x100
    requires FirstBinding(Variables(context.data), name).None?
    requires Room(context.data, 200 + |name| + |key| + |value|)
    modifies context
    ensures context.Valid() && !t.Valid()
  {
    hide ValidBuffer, Blocks, Variables, FirstBinding, LayoutOf, TreeAt, TreePairs;
    t := new BomTreeContext(context, name);
    RoomInTree(context.data, t.tree, t.leaf);
    t.Add(key, value);
  }

  // The tree block behind the leaf is longer than a pair.
  lemma RoomInTree(d: ByteString, tree: nat, leaf: nat)
    requires ValidBuffer(d) && TreeFollows(d, leaf, tree) && TreeAt(Blocks(d), tree, leaf, |Blocks(d)|)
    ensures WritesInBuffer(d, leaf, |PairsIn(d, tree, leaf)|)
  {
    hide FieldsFit, LayoutOf, VariablesSpan, U32, U16;
    BlocksCount(d);
    SoundEntry(LayoutOf(d), |d|, tree);
    SoundEntry(LayoutOf(d), |d|, leaf);
    PairCount(Blocks(d), tree, leaf);
  }

  // A leaf with room lies inside the buffer.
  lemma RoomInLeaf(d: ByteString, leaf: nat, n: nat)
    requires ValidBuffer(d) && leaf < |Blocks(d)| && Fits(Blocks(d)[leaf], n)
    ensures WritesInBuffer(d, leaf, n)
  {
    hide FieldsFit, LayoutOf, VariablesSpan, U32;
    BlocksCount(d);
    SoundEntry(LayoutOf(d), |d|, leaf);
  }

  ghost function Keys(pairs: seq<Pair>): (r: seq<ByteString>)
    ensures |r| == |pairs|
  {
    seq(|pairs|, i requires 0 <= i < |pairs| => pairs[i].key)
  }

  lemma PairCount(blocks: seq<ByteString>, tree: nat, leaf: nat)
    requires TreeAt(blocks, tree, leaf, |blocks|)
    ensures |TreePairs(blocks, tree, leaf)| == LeafSize(blocks[leaf])
  {
  }

  lemma BoundIndex(index: uint32)
    ensures ToUnsigned(ToSigned(index)) == index
  {
  }

  // Extending the leaf changes neither its header nor its pairs.
  lemma LeafExtended(before: seq<ByteString>, after: seq<ByteString>, tree: nat, leaf: nat, more: nat)
    requires TreeAt(before, tree, leaf, |before|) && BlockExtended(before, after, leaf, more)
    ensures TreeAt(after, tree, leaf, |after|)
    ensures TreePairs(after, tree, leaf) == TreePairs(before, tree, leaf)
  {
    var old_, new_ := before[leaf], after[leaf];
    var n := LeafSize(old_);
    assert new_[..|old_|] == old_[..|old_|];
    LeafPrefix(old_, new_, n);
    assert after[tree] == before[tree];
    assert forall i :: 0 <= i < n ==> IndexPairs(new_, n)[i] == IndexPairs(old_, n)[i];
  }

  lemma LeafPrefix(leaf: ByteString, longer: ByteString, n: nat)
    requires IsLeaf(leaf, n) && |leaf| <= |longer| && longer[..|leaf|] == leaf[..|leaf|]
    ensures IsLeaf(longer, n) && IndexPairs(longer, n) == IndexPairs(leaf, n)
  {
    hide U32;
    var end := |leaf|;
    SubRange(longer, 0, end, leaf, 0, end, 0, 2);
    SubRange(longer, 0, end, leaf, 0, end, LEAF_COUNT, LEAF_COUNT + 2);
    SubField(longer, 0, end, leaf, 0, end, LEAF_FORWARD);
    forall i | 0 <= i < n
      ensures IndexPairAt(longer, i) == IndexPairAt(leaf, i)
    {
      var at := LEAF_HEADER + PAIR_SIZE * i;
      SubField(longer, 0, end, leaf, 0, end, at);
      SubField(longer, 0, end, leaf, 0, end, at + 4);
    }
  }

  lemma PathCountWritten(tree: ByteString, leafIndex: nat, n: nat, paths: uint32, t: ByteString)
    requires IsTree(tree, leafIndex, n) && paths == n + 1 && t == Put(tree, TREE_PATH_COUNT, Be32(paths))
    ensures IsTree(t, leafIndex, n + 1)
  {
    PutField(tree, TREE_PATH_COUNT, paths);
    U32Other(tree, TREE_PATH_COUNT, Be32(paths), TREE_CHILD);
    PutOther(tree, TREE_PATH_COUNT, Be32(paths), 0, 4);
    assert t[..4] == t[0..4] == tree[0..4] == tree[..4];
  }

  // The tree and its leaf got one more pair; no other block changed.
  ghost predicate PairWritten(before: seq<ByteString>, after: seq<ByteString>, tree: nat, leaf: nat, n: nat, e: nat,
                              pair: IndexPair)
  {
    && tree < |before| && leaf < |before| && tree != leaf && |after| == |before| && e <= n
    && (forall i :: 0 <= i < |before| && i != tree && i != leaf ==> after[i] == before[i])
    && IsLeaf(before[leaf], n)
    && |after[leaf]| == |before[leaf]|
    && IsLeaf(after[leaf], n + 1)
    && IndexPairs(after[leaf], n + 1) == InsertAt(IndexPairs(before[leaf], n), e, pair)
    && IsTree(after[tree], leaf, n + 1)
  }

  lemma PairInserted(before: seq<ByteString>, added: seq<ByteString>, tree: nat, leaf: nat, key: ByteString,
                     value: ByteString, e: nat, after: seq<ByteString>)
    requires TreeAt(before, tree, leaf, |before|) && |before| + 1 < 0x1_0000_0000
    requires added == before + [key] + [value]
    requires e <= LeafSize(before[leaf])
    requires PairWritten(added, after, tree, leaf, LeafSize(before[leaf]), e, IndexPair(|before|, |before| + 1))
    ensures TreeAt(after, tree, leaf, |after|)
    ensures e <= |TreePairs(before, tree, leaf)|
    ensures TreePairs(after, tree, leaf) == InsertAt(TreePairs(before, tree, leaf), e, Pair(key, value))
    ensures OthersKept(before, after, {tree, leaf})
  {
    hide U32, U16;
    var n := LeafSize(before[leaf]);
    var old_ := IndexPairs(before[leaf], n);
    var new_ := IndexPairs(after[leaf], n + 1);
    assert LeafSize(after[leaf]) == n + 1;
    forall i | 0 <= i < n + 1
      ensures new_[i] == if i < e then old_[i] else if i == e then IndexPair(|before|, |before| + 1) else old_[i - 1]
    {
    }
    assert PairsBelow(new_, |after|, tree, leaf);
    assert after[|before|] == key && after[|before| + 1] == value;
  }
}
