// Libraries/pbxbuild/Sources/HeaderMap.cpp: an open-addressing hash table of string triples with an interned
// string pool.
module HeaderMaps {
  import opened Bytes
  import opened HeaderMapFiles
  import opened HeaderMapTables

  // An accepted triple as the table can give it back: C strings end at their first NUL.
  function Cut(t: Triple): Triple {
    Triple(CString(t.key), CString(t.prefix), CString(t.suffix))
  }

  function CutAll(ts: seq<Triple>): multiset<Triple> {
    if ts == [] then multiset{} else CutAll(ts[..|ts| - 1]) + multiset{Cut(ts[|ts| - 1])}
  }

  lemma CutAllNext(ts: seq<Triple>, t: Triple)
    ensures CutAll(ts + [t]) == CutAll(ts) + multiset{Cut(t)}
  {
    assert (ts + [t])[..|ts|] == ts;
  }

  predicate WithoutNul(t: Triple) {
    0 !in t.key && 0 !in t.prefix && 0 !in t.suffix
  }

  // The table holds the accepted triples themselves exactly when no string contains a NUL.
  lemma NothingCut(ts: seq<Triple>)
    ensures CutAll(ts) == multiset(ts) <==> forall t :: t in ts ==> WithoutNul(t)
  {
    if forall t :: t in ts ==> WithoutNul(t) {
      WholeStrings(ts);
    }
    if CutAll(ts) == multiset(ts) {
      forall t | t in ts
        ensures WithoutNul(t)
      {
        assert t in CutAll(ts);
        CutHasOrigin(ts, t);
      }
    }
  }

  lemma {:induction false} WholeStrings(ts: seq<Triple>)
    requires forall t :: t in ts ==> WithoutNul(t)
    ensures CutAll(ts) == multiset(ts)
  {
    if ts != [] {
      var n := |ts| - 1;
      WholeStrings(ts[..n]);
      assert WithoutNul(ts[n]);
      CStringWhole(ts[n].key);
      CStringWhole(ts[n].prefix);
      CStringWhole(ts[n].suffix);
      assert ts == ts[..n] + [ts[n]];
    }
  }

  // ----- Which keys can be accepted twice -----

  function StringsOf(ts: seq<Triple>): set<ByteString> {
    if ts == [] then {}
    else
      var last := ts[|ts| - 1];
      StringsOf(ts[..|ts| - 1]) + {last.key, last.prefix, last.suffix}
  }

  // The keys that add remembers: those whose string was not interned before.
  function Remembered(ts: seq<Triple>): set<ByteString> {
    if ts == [] then {}
    else
      var before, last := ts[..|ts| - 1], ts[|ts| - 1];
      Remembered(before) + if last.key in StringsOf(before) then {} else {Canonical(last.key)}
  }

  // What add accepts one after the other, starting with an empty map.
  ghost predicate Acceptable(ts: seq<Triple>) {
    forall i :: 0 <= i < |ts| ==> Canonical(ts[i].key) !in Remembered(ts[..i])
  }

  lemma AcceptableNext(ts: seq<Triple>, t: Triple)
    ensures Acceptable(ts + [t]) <==> Acceptable(ts) && Canonical(t.key) !in Remembered(ts)
    ensures StringsOf(ts + [t]) == StringsOf(ts) + {t.key, t.prefix, t.suffix}
    ensures Remembered(ts + [t]) == Remembered(ts) + if t.key in StringsOf(ts) then {} else {Canonical(t.key)}
  {
    hide Canonical;
    var more := ts + [t];
    assert more[..|ts|] == ts;
    assert forall i :: 0 <= i < |ts| ==> more[..i] == ts[..i];
  }

  // The i-th triple has this key, letter case aside, and its string was new.
  ghost predicate MadeKnown(ts: seq<Triple>, i: int, key: ByteString) {
    0 <= i < |ts| && Canonical(ts[i].key) == Canonical(key) && ts[i].key !in StringsOf(ts[..i])
  }

  lemma {:induction false} RememberedExactly(ts: seq<Triple>, key: ByteString)
    ensures Canonical(key) in Remembered(ts) <==> exists i :: MadeKnown(ts, i, key)
  {
    hide Canonical;
    if ts != [] {
      var n := |ts| - 1;
      RememberedExactly(ts[..n], key);
      assert forall i :: 0 <= i < n ==> ts[..n][..i] == ts[..i];
      assert forall i :: 0 <= i < n ==> (MadeKnown(ts[..n], i, key) <==> MadeKnown(ts, i, key));
      assert MadeKnown(ts, n, key) <==> ts[n].key !in StringsOf(ts[..n]) && Canonical(ts[n].key) == Canonical(key);
    }
  }

  // A key is refused exactly when the string of an earlier addition of it, in whatever case, was not interned before.
  lemma RefusedExactly(ts: seq<Triple>, t: Triple)
    requires Acceptable(ts)
    ensures !Acceptable(ts + [t]) <==> exists i :: MadeKnown(ts, i, t.key)
  {
    hide Canonical, Acceptable;
    AcceptableNext(ts, t);
    RememberedExactly(ts, t.key);
  }

  // The interned strings are those of the accepted triples.
  lemma {:induction false} StringHasOrigin(ts: seq<Triple>, s: ByteString)
    ensures s in StringsOf(ts) <==> exists t :: t in ts && (t.key == s || t.prefix == s || t.suffix == s)
  {
    if ts != [] {
      var n := |ts| - 1;
      StringHasOrigin(ts[..n], s);
      assert ts == ts[..n] + [ts[n]];
    }
  }

  // A key is accepted a second time, in whatever case, only when its string was interned before the first time.
  lemma RepeatedKeyWasInterned(ts: seq<Triple>, i: nat, j: nat)
    requires Acceptable(ts) && i < j < |ts| && Canonical(ts[i].key) == Canonical(ts[j].key)
    ensures ts[i].key in StringsOf(ts[..i])
  {
    hide Canonical;
    assert Canonical(ts[j].key) !in Remembered(ts[..j]);
    RememberedExactly(ts[..j], ts[j].key);
    assert ts[..j][..i] == ts[..i];
    assert !MadeKnown(ts[..j], i, ts[j].key);
  }

  // The first n keys differ from all later ones, letter case aside.
  ghost predicate KeysDiffer(ts: seq<Triple>, n: nat) {
    forall i, j :: 0 <= i < j < |ts| && i < n ==> Canonical(ts[i].key) != Canonical(ts[j].key)
  }

  // No key is ever accepted twice, whatever is added later.
  ghost predicate UniqueForever(ts: seq<Triple>) {
    forall more: seq<Triple> :: Acceptable(ts + more) ==> KeysDiffer(ts + more, |ts|)
  }

  // That is so exactly when the string of every key was new when it was accepted.
  lemma AcceptedKeysAreUniqueExactly(ts: seq<Triple>)
    requires Acceptable(ts)
    ensures UniqueForever(ts) <==> forall i :: 0 <= i < |ts| ==> ts[i].key !in StringsOf(ts[..i])
  {
    hide Canonical, Acceptable, StringsOf, KeysDiffer;
    if forall i :: 0 <= i < |ts| ==> ts[i].key !in StringsOf(ts[..i]) {
      forall more: seq<Triple> | Acceptable(ts + more)
        ensures KeysDiffer(ts + more, |ts|)
      {
        NewKeysDiffer(ts, more);
      }
    } else {
      var i :| 0 <= i < |ts| && ts[i].key in StringsOf(ts[..i]);
      InternedKeyRepeats(ts, i);
    }
  }

  lemma NewKeysDiffer(ts: seq<Triple>, more: seq<Triple>)
    requires Acceptable(ts + more) && forall i :: 0 <= i < |ts| ==> ts[i].key !in StringsOf(ts[..i])
    ensures KeysDiffer(ts + more, |ts|)
  {
    hide Canonical, Acceptable, StringsOf;
    var all := ts + more;
    forall i, j | 0 <= i < j < |all| && i < |ts|
      ensures Canonical(all[i].key) != Canonical(all[j].key)
    {
      assert all[..i] == ts[..i];
      if Canonical(all[i].key) == Canonical(all[j].key) {
        RepeatedKeyWasInterned(all, i, j);
      }
    }
  }

  lemma KnownBefore(ts: seq<Triple>, n: nat, key: ByteString)
    requires n <= |ts|
    ensures forall i :: i < n && MadeKnown(ts, i, key) ==> MadeKnown(ts[..n], i, key)
  {
    assert forall i :: 0 <= i < n ==> ts[..n][..i] == ts[..i];
  }

  lemma InternedKeyRepeats(ts: seq<Triple>, i: nat)
    requires Acceptable(ts) && i < |ts| && ts[i].key in StringsOf(ts[..i])
    ensures !UniqueForever(ts)
  {
    hide Canonical, StringsOf, Remembered;
    var key := ts[i].key;
    RememberedExactly(ts[..i], key);
    KnownBefore(ts, i, key);
    if k :| MadeKnown(ts, k, key) {
      assert ts + [] == ts;
      assert !KeysDiffer(ts + [], |ts|);
    } else {
      RefusedExactly(ts, ts[i]);
      var more := [ts[i]];
      assert (ts + more)[|ts|] == ts[i];
      assert !KeysDiffer(ts + more, |ts|);
    }
  }

  // A key that was a prefix first can be accepted again and again.
  lemma PrefixAsKeyRepeats(key: ByteString, other: ByteString, more: ByteString)
    requires Canonical(other) != Canonical(key)
    ensures Acceptable([Triple(other, key, more), Triple(key, other, more), Triple(key, other, more)])
  {
    hide Canonical;
    var a, b := Triple(other, key, more), Triple(key, other, more);
    AcceptableNext([], a);
    AcceptableNext([] + [a], b);
    AcceptableNext([] + [a] + [b], b);
    assert [] + [a] + [b] + [b] == [a, b, b];
  }

  // An interned string can be read back from the pool, up to its first NUL.
  ghost predicate Interned(strings: ByteString, s: ByteString, offset: nat) {
    0 < offset < |strings| && StringAt(strings, offset) == CString(s)
  }

  ghost predicate PoolValid(strings: ByteString, offsets: map<ByteString, nat>) {
    Terminated(strings) && forall s :: s in offsets ==> Interned(strings, s, offsets[s])
  }

  lemma InternedTriple(strings: ByteString, offsets: map<ByteString, nat>, key: ByteString, prefix: ByteString,
                       suffix: ByteString)
    requires PoolValid(strings, offsets) && |strings| < 0x1_0000_0000
    requires key in offsets && prefix in offsets && suffix in offsets
    ensures offsets[key] < 0x1_0000_0000 && offsets[prefix] < 0x1_0000_0000 && offsets[suffix] < 0x1_0000_0000
    ensures var bucket := Bucket(offsets[key], offsets[prefix], offsets[suffix]);
            && bucket.key != 0 && BucketInPool(bucket, strings)
            && TripleOf(bucket, strings) == Cut(Triple(key, prefix, suffix))
  {
    assert Interned(strings, key, offsets[key]);
    assert Interned(strings, prefix, offsets[prefix]);
    assert Interned(strings, suffix, offsets[suffix]);
  }

  // Appending a string and its terminating NUL interns it and disturbs nothing.
  lemma AppendString(strings: ByteString, offsets: map<ByteString, nat>, s: ByteString)
    requires PoolValid(strings, offsets) && strings != []
    ensures PoolValid(strings + s + [0], offsets[s := |strings|])
  {
    var grown := strings + s + [0];
    assert grown == strings + (s + [0]);
    assert grown[|strings|..] == s + [0] + [];
    CStringStops(s, []);
    forall t | t in offsets
      ensures Interned(grown, t, offsets[t])
    {
      CStringInPool(strings, s + [0], offsets[t]);
    }
  }

  function HashModulo(key: ByteString, numBuckets: nat): (h: uint32)
    requires numBuckets > 0
    ensures h == Hash(key) % numBuckets && h < numBuckets
  {
    hide Hash;
    Hash(key) % numBuckets
  }

  // The pool after appending s: offset zero is reserved, so the pool starts with a NUL.
  function PoolWith(strings: ByteString, s: ByteString): (r: ByteString)
    ensures strings <= r && |r| == (if strings == [] then 1 else |strings|) + |s| + 1
    ensures r[|r| - |s| - 1..] == s + [0]
  {
    (if strings == [] then [0] else strings) + s + [0]
  }

  predicate PowerOfTwo(n: nat) {
    n == 1 || (n > 1 && n % 2 == 0 && PowerOfTwo(n / 2))
  }

  // Bounds that keep all 32-bit fields of the format from overflowing.
  ghost predicate Fits(numBuckets: nat, strings: nat) {
    numBuckets < 0x800_0000 && strings < 0x8000_0000
  }

  // The number of buckets once there is room for one entry more: twice as many where that makes three quarters.
  function GrownCount(numBuckets: nat, numEntries: nat): nat {
    if 4 * (numEntries + 1) >= 3 * numBuckets then 2 * numBuckets else numBuckets
  }

  datatype Rehashed = Rehashed(hash: uint32, bucket: Bucket)

  function BucketsOf(rehashed: seq<Rehashed>): (r: seq<Bucket>)
    ensures |r| == |rehashed|
  {
    seq(|rehashed|, i requires 0 <= i < |rehashed| => rehashed[i].bucket)
  }

  // What a table must satisfy at any time: its buckets point into the pool and it is less than three quarters full.
  ghost predicate TableValid(numBuckets: nat, numEntries: nat, buckets: seq<Bucket>, strings: ByteString) {
    && numBuckets >= 8 && PowerOfTwo(numBuckets)
    && |buckets| == numBuckets
    && Occupied(buckets) == numEntries
    && 4 * numEntries < 3 * numBuckets
    && InPool(buckets, strings)
  }

  class HeaderMap {
    var numEntries: nat
    var numBuckets: nat
    var maxValueLength: nat
    var buckets: seq<Bucket>
    var strings: ByteString
    var keys: set<ByteString>
    var offsets: map<ByteString, nat>
    var modified: bool

    // Every triple accepted so far, in order.
    ghost var accepted: seq<Triple>

    ghost predicate Valid()
      reads this
    {
      && TableValid(numBuckets, numEntries, buckets, strings)
      && PoolValid(strings, offsets)
      && Entries(buckets, strings) == CutAll(accepted)
      && numEntries == |accepted|
      && (!modified ==> Reachable(buckets, strings))
    }

    // The map was filled by add alone, starting from the empty one.
    ghost predicate FilledByAdd()
      reads this
    {
      keys == Remembered(accepted) && offsets.Keys == StringsOf(accepted) && Acceptable(accepted)
    }

    constructor ()
      ensures Valid() && FilledByAdd()
      ensures numBuckets == 8 && accepted == [] && strings == [] && keys == {} && offsets == map[] && !modified
    {
      numEntries, numBuckets, maxValueLength := 0, 8, 0;
      buckets := seq(8, _ => EMPTY_BUCKET);
      strings, keys, offsets, modified := [], {}, map[], false;
      accepted := [];
      AllEmpty(8, []);
      assert PowerOfTwo(8) by {
        assert PowerOfTwo(4);
      }
    }

    // add(string, key): intern a string. Only a string that was not interned before, and is added as a key, enters
    // the set of keys.
    method Intern(s: ByteString, key: bool) returns (offset: nat)
      requires PoolValid(strings, offsets)
      modifies this`strings, this`offsets, this`keys
      ensures PoolValid(strings, offsets)
      ensures offsets == if s in old(offsets) then old(offsets) else old(offsets)[s := offset]
      ensures s in offsets && offsets[s] == offset
      ensures strings == if s in old(offsets) then old(strings) else PoolWith(old(strings), s)
      ensures old(strings) <= strings && |strings| <= |old(strings)| + |s| + 2
      ensures keys == if key && s !in old(offsets) then old(keys) + {Canonical(s)} else old(keys)
    {
      if s !in offsets {
        if strings == [] {
          strings := [0];
        }
        offset := |strings|;
        AppendString(strings, offsets, s);
        strings := strings + s + [0];
        offsets := offsets[s := offset];
        if key {
          keys := keys + {Canonical(s)};
        }
      } else {
        offset := offsets[s];
      }
    }

    // set: linear probing for a free bucket, modulo the current bucket count. The bucket array may already be longer
    // than that. With three free buckets below the count a free bucket is always found and filled.
    method Set(hash: uint32, bucket: Bucket, growing: bool)
      requires 1 < numBuckets <= |buckets| < 0xFFFF_FFFF && hash < |buckets|
      requires bucket.key != 0
      requires Occupied(buckets[..numBuckets]) + 3 <= numBuckets
      modifies this`buckets, this`numEntries
      ensures |buckets| == |old(buckets)|
      ensures Entries(buckets, strings) == old(Entries(buckets, strings)) + multiset{TripleOf(bucket, strings)}
      ensures Occupied(buckets) == old(Occupied(buckets)) + 1
      ensures numEntries == old(numEntries) + if growing then 0 else 1
      ensures exists n :: FilledAt(old(buckets), buckets, n, bucket, hash, numBuckets)
    {
      ghost var e := FindTarget(buckets, numBuckets, hash);
      var n: nat := hash;
      var stop := ProbeStop(hash);
      while n != stop
        invariant n < |buckets| && Visits(numBuckets, hash, n, e)
        invariant buckets == old(buckets) && buckets[e].key == 0 && IsTarget(numBuckets, hash, e)
        invariant hash < numBuckets == |buckets| ==> ClearWay(buckets, hash, n)
        invariant numEntries == old(numEntries)
        decreases StepsLeft(numBuckets, n, e)
      {
        if buckets[n].key == 0 {
          FillEmpty(buckets, n, bucket, strings);
          buckets := buckets[n := bucket];
          if !growing {
            numEntries := numEntries + 1;
          }
          assert FilledAt(old(buckets), buckets, n, bucket, hash, numBuckets);
          return;
        }
        ProbeAdvances(numBuckets, hash, n, e);
        if hash < numBuckets == |buckets| {
          ClearWayExtends(buckets, hash, n);
        }
        n := (n + 1) % numBuckets;
      }
      ProbeAdvances(numBuckets, hash, n, e);
    }

    // rehash: move every entry to a fresh bucket array, in order of its new hash. Positions are probed modulo the
    // old bucket count throughout; the count changes only at the end.
    method Rehash(newNumBuckets: nat)
      requires TableValid(numBuckets, numEntries, buckets, strings) && Fits(newNumBuckets, |strings|)
      requires newNumBuckets == numBuckets || newNumBuckets == 2 * numBuckets
      modifies this`buckets, this`numBuckets, this`modified, this`numEntries
      ensures numBuckets == newNumBuckets && numEntries == old(numEntries) && !modified
      ensures TableValid(numBuckets, numEntries, buckets, strings)
      ensures Entries(buckets, strings) == old(Entries(buckets, strings))
      ensures newNumBuckets == old(numBuckets) ==> Reachable(buckets, strings)
    {
      hide Entries, Occupied, TripleOf, PowerOfTwo, Home, Reachable, ClearWay;
      var before := buckets;
      buckets := seq(newNumBuckets, _ => EMPTY_BUCKET);
      var rehashed := InHashOrder(before, strings, newNumBuckets);

      FreshTable(newNumBuckets, strings, BucketsOf(rehashed));
      for i := 0 to |rehashed|
        invariant |buckets| == newNumBuckets
        invariant unchanged(`numBuckets) && unchanged(`numEntries)
        invariant Entries(buckets, strings) == Entries(BucketsOf(rehashed)[..i], strings)
        invariant Occupied(buckets) == i
        invariant InPool(buckets, strings)
        invariant newNumBuckets == numBuckets ==> Reachable(buckets, strings)
      {
        OccupiedPrefix(buckets, numBuckets);
        ghost var placed := buckets;
        var r := rehashed[i];
        assert IsRehashed(r, strings, newNumBuckets);
        Set(r.hash, r.bucket, true);
        ghost var n :| FilledAt(placed, buckets, n, r.bucket, r.hash, numBuckets);
        FillKeepsInPool(placed, buckets, strings, n, r.bucket, r.hash, numBuckets);
        if newNumBuckets == numBuckets {
          FillKeepsReachable(placed, buckets, strings, n, r.bucket, r.hash);
        }
        EntriesPrefixNext(BucketsOf(rehashed), i, strings);
      }
      assert BucketsOf(rehashed)[..|rehashed|] == BucketsOf(rehashed);

      PowerOfTwoDoubles(numBuckets);
      numBuckets := newNumBuckets;
      modified := false;
    }

    method Grow()
      requires TableValid(numBuckets, numEntries, buckets, strings) && Fits(2 * numBuckets, |strings|)
      modifies this`buckets, this`numBuckets, this`modified, this`numEntries
      ensures numBuckets == GrownCount(old(numBuckets), old(numEntries))
      ensures numEntries == old(numEntries) && 4 * (numEntries + 1) < 3 * numBuckets
      ensures TableValid(numBuckets, numEntries, buckets, strings)
      ensures Entries(buckets, strings) == old(Entries(buckets, strings))
    {
      hide Entries, Occupied, InPool, PowerOfTwo;
      QuarterOfPowerOfTwo(numBuckets);
      ThreeQuarters(numBuckets, numEntries + 1);
      if numEntries + 1 >= numBuckets * 3 / 4 {
        Rehash(2 * numBuckets);
      }
    }

    // Intern the three strings of an entry.
    method InternTriple(key: ByteString, prefix: ByteString, suffix: ByteString) returns (bucket: Bucket)
      requires PoolValid(strings, offsets) && Fits(0, |strings| + |key| + |prefix| + |suffix| + 6)
      modifies this`strings, this`offsets, this`keys
      ensures PoolValid(strings, offsets)
      ensures old(strings) <= strings && |strings| <= |old(strings)| + |key| + |prefix| + |suffix| + 6
      ensures offsets.Keys == old(offsets).Keys + {key, prefix, suffix}
      ensures keys == if key !in old(offsets) then old(keys) + {Canonical(key)} else old(keys)
      ensures bucket.key != 0 && BucketInPool(bucket, strings)
      ensures TripleOf(bucket, strings) == Cut(Triple(key, prefix, suffix))
    {
      hide PoolValid, PoolWith, StringAt, CString, Canonical, BucketInPool, TripleOf, Cut;
      var keyOffset := Intern(key, true);
      ghost var strings1, offsets1 := strings, offsets;
      var prefixOffset := Intern(prefix, false);
      ghost var strings2, offsets2 := strings, offsets;
      var suffixOffset := Intern(suffix, false);
      InternedTriple(strings, offsets, key, prefix, suffix);
      bucket := Bucket(keyOffset, prefixOffset, suffixOffset);
      assert old(strings) <= strings1 <= strings2 <= strings;
    }

    // Make room and put the bucket where a probe from its hash finds a free place.
    method Insert(key: ByteString, bucket: Bucket)
      requires TableValid(numBuckets, numEntries, buckets, strings) && Fits(2 * numBuckets, |strings|)
      requires bucket.key != 0 && BucketInPool(bucket, strings)
      modifies this`buckets, this`numBuckets, this`modified, this`numEntries
      ensures TableValid(numBuckets, numEntries, buckets, strings)
      ensures numEntries == old(numEntries) + 1 && numBuckets == GrownCount(old(numBuckets), old(numEntries))
      ensures Entries(buckets, strings) == old(Entries(buckets, strings)) + multiset{TripleOf(bucket, strings)}
    {
      Grow();
      var hash := HashModulo(key, numBuckets);
      assert buckets[..numBuckets] == buckets;
      ghost var before := buckets;
      Set(hash, bucket, false);
      ghost var n :| FilledAt(before, buckets, n, bucket, hash, numBuckets);
      FillKeepsInPool(before, buckets, strings, n, bucket, hash, numBuckets);
    }

    // The part of add that follows its checks.
    method AddEntry(key: ByteString, prefix: ByteString, suffix: ByteString)
      requires Valid() && Fits(2 * numBuckets, |strings| + |key| + |prefix| + |suffix| + 6)
      modifies this
      ensures Valid()
      ensures accepted == old(accepted) + [Triple(key, prefix, suffix)]
      ensures numBuckets == GrownCount(old(numBuckets), old(numEntries))
      ensures offsets.Keys == old(offsets).Keys + {key, prefix, suffix}
      ensures keys == if key !in old(offsets) then old(keys) + {Canonical(key)} else old(keys)
      ensures maxValueLength == if |key| > old(maxValueLength) then |key| else old(maxValueLength)
      ensures modified
    {
      hide TableValid, Entries, TripleOf, BucketInPool, Reachable, Canonical, PoolValid, CutAll, Cut, Occupied, InPool,
        CString, PowerOfTwo;
      var bucket := InternTriple(key, prefix, suffix);
      PoolGrew(numBuckets, numEntries, buckets, old(strings), strings, old(offsets));
      Insert(key, bucket);
      Account(Triple(key, prefix, suffix));
    }

    // The bookkeeping at the end of add, once the entry is in the table.
    method Account(t: Triple)
      requires TableValid(numBuckets, numEntries, buckets, strings) && PoolValid(strings, offsets)
      requires Entries(buckets, strings) == CutAll(accepted) + multiset{Cut(t)} && numEntries == |accepted| + 1
      modifies this`maxValueLength, this`modified, this`accepted
      ensures Valid() && modified && accepted == old(accepted) + [t]
      ensures maxValueLength == if |t.key| > old(maxValueLength) then |t.key| else old(maxValueLength)
    {
      hide TableValid, Entries, Reachable, PoolValid, CutAll, Cut;
      if |t.key| > maxValueLength {
        maxValueLength := |t.key|;
      }
      modified := true;
      CutAllNext(accepted, t);
      accepted := accepted + [t];
    }

    // add(key, prefix, suffix): refused for an empty string or a known key; otherwise exactly this entry is added and
    // none is lost, whether or not the table has to grow.
    method Add(key: ByteString, prefix: ByteString, suffix: ByteString) returns (added: bool)
      requires Valid() && Fits(2 * numBuckets, |strings| + |key| + |prefix| + |suffix| + 6)
      modifies this
      ensures Valid()
      ensures added <==> key != [] && prefix != [] && suffix != [] && Canonical(key) !in old(keys)
      ensures accepted == if added then old(accepted) + [Triple(key, prefix, suffix)] else old(accepted)
      ensures added ==> numBuckets == GrownCount(old(numBuckets), old(numEntries))
      ensures added && key !in old(offsets) ==> keys == old(keys) + {Canonical(key)}
      ensures !added || key in old(offsets) ==> keys == old(keys)
      ensures maxValueLength == if added && |key| > old(maxValueLength) then |key| else old(maxValueLength)
      ensures added ==> modified
      ensures !added ==> unchanged(this)
      ensures old(FilledByAdd()) ==> FilledByAdd()
    {
      hide TableValid, PoolValid, Entries, CutAll, Canonical, Reachable, Acceptable, Remembered, StringsOf;
      if key == [] || prefix == [] || suffix == [] {
        return false;
      }
      if Canonical(key) in keys {
        return false;
      }

      AcceptableNext(accepted, Triple(key, prefix, suffix));
      AddEntry(key, prefix, suffix);
      return true;
    }

    // write: after this call every entry can be found by linear probing, and the file holds the whole table.
    method Write() returns (file: ByteString)
      requires Valid() && Fits(numBuckets, |strings|) && maxValueLength < 0x1_0000_0000
      modifies this`buckets, this`numBuckets, this`modified, this`numEntries
      ensures Valid() && !modified
      ensures Reachable(buckets, strings)
      ensures numBuckets == old(numBuckets)
      ensures HEADER_SIZE + BUCKET_SIZE * numBuckets + |strings| < 0x1_0000_0000
      ensures file == FileBytes(FileHeader(), buckets, strings)
    {
      hide Entries, Reachable, PoolValid, CutAll, Occupied, InPool, HeaderBytes, BucketArrayBytes;
      if modified {
        Rehash(numBuckets);
      }
      file := HeaderBytes(FileHeader()) + BucketArrayBytes(buckets) + strings;
    }

    function FileHeader(): Header
      requires numEntries < 0x1_0000_0000 && numBuckets < 0x800_0000 && maxValueLength < 0x1_0000_0000
      reads this
    {
      Header(HEADER_SIZE + numBuckets * BUCKET_SIZE, numEntries, numBuckets, maxValueLength)
    }

    // read: a rejected file leaves an empty map (or, when too short for a header, no change at all); an accepted one
    // replaces the map by what the file says. Reading a sound table makes a map that can be added to.
    method Read(file: ByteString) returns (ok: bool)
      modifies this
      ensures ok <==> Readable(file)
      ensures |file| < HEADER_SIZE ==> unchanged(this)
      ensures !ok && |file| >= HEADER_SIZE ==>
                numBuckets == numEntries == maxValueLength == 0 && buckets == [] && strings == []
                && keys == {} && offsets == map[] && !modified
      ensures ok ==> var h := HeaderOf(file);
                     && numEntries == h.numEntries && numBuckets == h.numBuckets && maxValueLength == h.maxValueLength
                     && buckets == BucketsIn(file, h.numBuckets) && strings == file[h.stringsOffset..]
                     && !modified
      ensures ok ==> keys == KeysOf(buckets, strings)
      ensures ok && SoundTable() ==> Valid()
    {
      hide Occupied, PowerOfTwo, Entries, Reachable, CutAll, PoolValid, Terminated, InPool, FieldAt, BucketAt, HeaderOf;
      if |file| < HEADER_SIZE {
        return false;
      }
      if !Readable(file) {
        Invalidate();
        return false;
      }
      var header := HeaderOf(file);
      numEntries, numBuckets, maxValueLength := header.numEntries, header.numBuckets, header.maxValueLength;
      buckets := BucketsIn(file, header.numBuckets);
      strings := file[header.stringsOffset..];
      modified := false;
      accepted := EntryList(buckets, strings);
      EntryListIsEntries(buckets, strings);
      IndexStrings();
      return true;
    }

    ghost predicate SoundTable()
      reads this
    {
      TableValid(numBuckets, numEntries, buckets, strings) && Terminated(strings) && Reachable(buckets, strings)
    }

    method Invalidate()
      modifies this
      ensures numBuckets == numEntries == maxValueLength == 0 && buckets == [] && strings == []
      ensures keys == {} && offsets == map[] && !modified
    {
      numEntries, numBuckets, maxValueLength := 0, 0, 0;
      buckets, strings, keys, offsets, modified := [], [], {}, map[], false;
    }

    // The part of read that refills the key set and the interned strings from the buckets. `insert` keeps the first
    // offset of a string.
    method IndexStrings()
      modifies this`keys, this`offsets
      ensures keys == KeysOf(buckets, strings)
      ensures InPool(buckets, strings) && Terminated(strings) ==> PoolValid(strings, offsets)
    {
      keys, offsets := {}, map[];
      for n := 0 to |buckets|
        invariant unchanged(`buckets) && unchanged(`strings)
        invariant keys == KeysOf(buckets[..n], strings)
        invariant InPool(buckets, strings) && Terminated(strings) ==> PoolValid(strings, offsets)
      {
        var b := buckets[n];
        assert buckets[..n + 1][..n] == buckets[..n];
        if b.key == 0 || b.key >= |strings| || b.suffix >= |strings| || b.prefix >= |strings| {
          continue;
        }
        keys := keys + {Canonical(StringAt(strings, b.key))};
        Remember(b.key);
        Remember(b.prefix);
        Remember(b.suffix);
      }
      assert buckets[..|buckets|] == buckets;
    }

    method Remember(offset: nat)
      requires offset < |strings|
      modifies this`offsets
      ensures 0 < offset && PoolValid(strings, old(offsets)) ==> PoolValid(strings, offsets)
    {
      var s := StringAt(strings, offset);
      CStringWhole(s);
      if s !in offsets {
        offsets := offsets[s := offset];
      }
    }
  }

  // A written map is read back with the same entries.
  method WriteAndRead(m: HeaderMap, copy: HeaderMap) returns (ok: bool)
    requires m.Valid() && Fits(m.numBuckets, |m.strings|) && m.maxValueLength < 0x1_0000_0000 && m != copy
    modifies m, copy
    ensures ok && m.Valid() && copy.Valid()
    ensures m.accepted == old(m.accepted)
    ensures copy.buckets == m.buckets && copy.strings == m.strings
    ensures CutAll(copy.accepted) == CutAll(m.accepted)
    ensures copy.keys == KeysOf(m.buckets, m.strings)
  {
    hide FileBytes, HeaderOf, BucketsIn, Readable, PowerOfTwo, Occupied, Entries, CutAll, Reachable, InPool;
    var file := m.Write();
    FileRoundTrip(m.FileHeader(), m.buckets, m.strings);
    ok := copy.Read(file);
  }

  // after is before with the free bucket n filled. In a table that is not growing the probe path to n is occupied.
  ghost predicate FilledAt(before: seq<Bucket>, after: seq<Bucket>, n: nat, bucket: Bucket, hash: nat,
                           numBuckets: nat) {
    && n < |before| && before[n].key == 0
    && after == before[n := bucket]
    && (hash < numBuckets == |before| ==> ClearWay(before, hash, n))
  }

  lemma ClearWayExtends(buckets: seq<Bucket>, start: nat, n: nat)
    requires start < |buckets| && n < |buckets|
    requires ClearWay(buckets, start, n) && buckets[n].key != 0
    ensures ClearWay(buckets, start, Next(n, |buckets|)) || Next(n, |buckets|) == start
  {
    NextInside(n, |buckets|);
  }

  ghost predicate IsRehashed(r: Rehashed, strings: ByteString, newNumBuckets: nat) {
    && newNumBuckets > 0
    && r.bucket.key != 0
    && r.hash == Home(r.bucket, strings, newNumBuckets)
    && BucketInPool(r.bucket, strings)
  }

  ghost predicate Sorted(rehashed: seq<Rehashed>) {
    forall i, j :: 0 <= i < j < |rehashed| ==> rehashed[i].hash <= rehashed[j].hash
  }

  // The occupied buckets in order of their new hash.
  method InHashOrder(buckets: seq<Bucket>, strings: ByteString, newNumBuckets: nat) returns (rehashed: seq<Rehashed>)
    requires newNumBuckets > 0 && InPool(buckets, strings)
    ensures Sorted(rehashed)
    ensures AllRehashed(rehashed, strings, newNumBuckets)
    ensures Entries(BucketsOf(rehashed), strings) == Entries(buckets, strings)
    ensures |rehashed| == Occupied(buckets)
  {
    hide Hash, Entries, Occupied, TripleOf, BucketsOf, StringAt, Sorted, BucketInPool;
    rehashed := [];
    NothingRehashed(buckets, strings);
    for n := 0 to |buckets|
      invariant AllRehashed(rehashed, strings, newNumBuckets) && Sorted(rehashed)
      invariant Entries(BucketsOf(rehashed), strings) == Entries(buckets[..n], strings)
      invariant |rehashed| == Occupied(buckets[..n])
    {
      OneMoreBucket(buckets, n, strings);
      if buckets[n].key != 0 {
        var r := Rehashed(HashModulo(StringAt(strings, buckets[n].key), newNumBuckets), buckets[n]);
        rehashed := InsertRehashed(rehashed, r, strings, newNumBuckets);
      }
    }
    assert buckets[..|buckets|] == buckets;
  }

  lemma NothingRehashed(buckets: seq<Bucket>, strings: ByteString)
    ensures Sorted([]) && Entries(BucketsOf([]), strings) == Entries(buckets[..0], strings)
    ensures Occupied(buckets[..0]) == 0
  {
  }

  lemma OneMoreBucket(buckets: seq<Bucket>, n: nat, strings: ByteString)
    requires n < |buckets|
    ensures Entries(buckets[..n + 1], strings)
            == Entries(buckets[..n], strings)
               + if buckets[n].key == 0 then multiset{} else multiset{TripleOf(buckets[n], strings)}
    ensures Occupied(buckets[..n + 1]) == Occupied(buckets[..n]) + if buckets[n].key == 0 then 0 else 1
  {
    hide TripleOf;
    assert buckets[..n + 1][..n] == buckets[..n];
  }

  ghost predicate AllRehashed(rehashed: seq<Rehashed>, strings: ByteString, newNumBuckets: nat) {
    forall i :: 0 <= i < |rehashed| ==> IsRehashed(rehashed[i], strings, newNumBuckets)
  }

  // multimap::insert: behind every entry with the same or a smaller hash.
  method InsertRehashed(rehashed: seq<Rehashed>, r: Rehashed, ghost strings: ByteString, ghost newNumBuckets: nat)
    returns (longer: seq<Rehashed>)
    requires Sorted(rehashed) && AllRehashed(rehashed, strings, newNumBuckets)
    requires IsRehashed(r, strings, newNumBuckets)
    ensures Sorted(longer) && AllRehashed(longer, strings, newNumBuckets)
    ensures exists n :: InsertedAt(rehashed, longer, r, n)
    ensures Entries(BucketsOf(longer), strings)
            == Entries(BucketsOf(rehashed), strings) + multiset{TripleOf(r.bucket, strings)}
    ensures |longer| == |rehashed| + 1
  {
    hide Sorted, AllRehashed, Home, BucketInPool, Entries, TripleOf, BucketsOf;
    var n: nat := |rehashed|;
    while n > 0 && r.hash < rehashed[n - 1].hash
      invariant n <= |rehashed|
      invariant n < |rehashed| ==> r.hash < rehashed[n].hash
    {
      n := n - 1;
    }
    longer := rehashed[..n] + [r] + rehashed[n..];
    assert InsertedAt(rehashed, longer, r, n);
    InsertedSorted(rehashed, longer, r, n);
    InsertedRehashed(rehashed, longer, r, n, strings, newNumBuckets);
    InsertedEntries(rehashed, n, r, strings);
  }

  ghost predicate InsertedAt(rehashed: seq<Rehashed>, longer: seq<Rehashed>, r: Rehashed, n: nat) {
    && n <= |rehashed|
    && longer == rehashed[..n] + [r] + rehashed[n..]
    && (n > 0 ==> rehashed[n - 1].hash <= r.hash)
    && (n < |rehashed| ==> r.hash < rehashed[n].hash)
  }

  lemma InsertedSorted(rehashed: seq<Rehashed>, longer: seq<Rehashed>, r: Rehashed, n: nat)
    requires Sorted(rehashed) && InsertedAt(rehashed, longer, r, n)
    ensures Sorted(longer)
  {
    forall i, j | 0 <= i < j < |longer|
      ensures longer[i].hash <= longer[j].hash
    {
      InsertedElement(rehashed, longer, r, n, i);
      InsertedElement(rehashed, longer, r, n, j);
    }
  }

  lemma InsertedElement(rehashed: seq<Rehashed>, longer: seq<Rehashed>, r: Rehashed, n: nat, i: nat)
    requires InsertedAt(rehashed, longer, r, n) && i < |longer|
    ensures |longer| == |rehashed| + 1
    ensures longer[i] == if i < n then rehashed[i] else if i == n then r else rehashed[i - 1]
  {
  }

  lemma InsertedRehashed(rehashed: seq<Rehashed>, longer: seq<Rehashed>, r: Rehashed, n: nat, strings: ByteString,
                         newNumBuckets: nat)
    requires AllRehashed(rehashed, strings, newNumBuckets) && IsRehashed(r, strings, newNumBuckets)
    requires InsertedAt(rehashed, longer, r, n)
    ensures AllRehashed(longer, strings, newNumBuckets) && |longer| == |rehashed| + 1
  {
    forall i | 0 <= i < |longer|
      ensures IsRehashed(longer[i], strings, newNumBuckets)
    {
      InsertedElement(rehashed, longer, r, n, i);
    }
  }

  lemma InsertedEntries(rehashed: seq<Rehashed>, n: nat, r: Rehashed, strings: ByteString)
    requires n <= |rehashed| && r.bucket.key != 0
    ensures Entries(BucketsOf(rehashed[..n] + [r] + rehashed[n..]), strings)
            == Entries(BucketsOf(rehashed), strings) + multiset{TripleOf(r.bucket, strings)}
  {
    var before, after := BucketsOf(rehashed[..n]), BucketsOf(rehashed[n..]);
    assert BucketsOf(rehashed[..n] + [r] + rehashed[n..]) == before + [r.bucket] + after;
    assert BucketsOf(rehashed) == before + after;
    EntriesConcat(before + [r.bucket], after, strings);
    EntriesConcat(before, [r.bucket], strings);
    EntriesConcat(before, after, strings);
    assert [r.bucket][..0] == [];
  }

  lemma EntriesPrefixNext(buckets: seq<Bucket>, i: nat, strings: ByteString)
    requires i < |buckets| && buckets[i].key != 0
    ensures Entries(buckets[..i + 1], strings)
            == Entries(buckets[..i], strings) + multiset{TripleOf(buckets[i], strings)}
  {
    assert buckets[..i + 1][..i] == buckets[..i];
  }

  lemma OccupiedPrefix(buckets: seq<Bucket>, n: nat)
    requires n <= |buckets|
    ensures Occupied(buckets[..n]) <= Occupied(buckets)
  {
    assert buckets == buckets[..n] + buckets[n..];
    OccupiedConcat(buckets[..n], buckets[n..]);
  }

  // Filling the first free bucket on an entry's own probe path keeps every entry reachable.
  lemma FillKeepsReachable(before: seq<Bucket>, after: seq<Bucket>, strings: ByteString, n: nat, bucket: Bucket,
                           hash: nat)
    requires Reachable(before, strings) && bucket.key != 0
    requires FilledAt(before, after, n, bucket, hash, |before|) && |before| > 0
    requires hash == Home(bucket, strings, |before|)
    ensures Reachable(after, strings)
  {
    forall p | 0 <= p < |after| && after[p].key != 0
      ensures ClearWay(after, Home(after[p], strings, |after|), p)
    {
      if p != n {
        assert ClearWay(before, Home(before[p], strings, |before|), p);
      }
    }
  }

  lemma FillKeepsInPool(before: seq<Bucket>, after: seq<Bucket>, strings: ByteString, n: nat, bucket: Bucket, hash: nat,
                        numBuckets: nat)
    requires FilledAt(before, after, n, bucket, hash, numBuckets)
    requires InPool(before, strings) && BucketInPool(bucket, strings)
    ensures InPool(after, strings)
  {
  }

  lemma FreshTable(n: nat, strings: ByteString, more: seq<Bucket>)
    ensures var empty := seq(n, _ => EMPTY_BUCKET);
            && Occupied(empty) == 0 && InPool(empty, strings) && Reachable(empty, strings)
            && Entries(empty, strings) == Entries(more[..0], strings)
  {
    AllEmpty(n, strings);
  }

  lemma PoolGrew(numBuckets: nat, numEntries: nat, buckets: seq<Bucket>, before: ByteString, after: ByteString,
                 offsets: map<ByteString, nat>)
    requires before <= after && PoolValid(before, offsets)
    requires TableValid(numBuckets, numEntries, buckets, before)
    ensures TableValid(numBuckets, numEntries, buckets, after)
    ensures Entries(buckets, after) == Entries(buckets, before)
  {
    assert after == before + after[|before|..];
    EntriesInGrownPool(buckets, before, after[|before|..]);
  }

  // The canonical keys of the occupied buckets that point into the pool.
  function KeysOf(buckets: seq<Bucket>, strings: ByteString): set<ByteString> {
    if buckets == [] then {}
    else
      var rest := KeysOf(buckets[..|buckets| - 1], strings);
      var b := buckets[|buckets| - 1];
      if b.key == 0 || b.key >= |strings| || b.suffix >= |strings| || b.prefix >= |strings| then rest
      else rest + {Canonical(StringAt(strings, b.key))}
  }

  // The decoded occupied buckets, in table order.
  ghost function EntryList(buckets: seq<Bucket>, strings: ByteString): seq<Triple> {
    if buckets == [] then []
    else
      var rest := EntryList(buckets[..|buckets| - 1], strings);
      var last := buckets[|buckets| - 1];
      if last.key == 0 then rest else rest + [TripleOf(last, strings)]
  }

  lemma {:induction false} EntryListIsEntries(buckets: seq<Bucket>, strings: ByteString)
    ensures CutAll(EntryList(buckets, strings)) == Entries(buckets, strings)
    ensures |EntryList(buckets, strings)| == Occupied(buckets)
  {
    if buckets != [] {
      var n := |buckets| - 1;
      EntryListIsEntries(buckets[..n], strings);
      if buckets[n].key != 0 {
        var t := TripleOf(buckets[n], strings);
        CutAllNext(EntryList(buckets[..n], strings), t);
        CStringWhole(t.key);
        CStringWhole(t.prefix);
        CStringWhole(t.suffix);
        assert Cut(t) == t;
      }
    }
  }

  lemma PowerOfTwoDoubles(n: nat)
    ensures PowerOfTwo(n) ==> PowerOfTwo(2 * n)
  {
  }

  lemma ThreeQuarters(n: nat, m: nat)
    requires n % 4 == 0
    ensures m >= n * 3 / 4 <==> 4 * m >= 3 * n
  {
  }

  lemma QuarterOfPowerOfTwo(n: nat)
    requires n >= 8 && PowerOfTwo(n)
    ensures n % 4 == 0
  {
    assert PowerOfTwo(n / 2);
  }

  // ----- What a reader of a written map finds -----

  lemma {:induction false} EntryHasBucket(buckets: seq<Bucket>, strings: ByteString, t: Triple)
    ensures t in Entries(buckets, strings)
            <==> exists p :: 0 <= p < |buckets| && buckets[p].key != 0 && TripleOf(buckets[p], strings) == t
  {
    hide TripleOf, StringAt, CString;
    if buckets != [] {
      var n := |buckets| - 1;
      EntryHasBucket(buckets[..n], strings, t);
      assert forall p :: 0 <= p < n ==> buckets[..n][p] == buckets[p];
    }
  }

  lemma {:induction false} CutHasOrigin(ts: seq<Triple>, t: Triple)
    ensures t in CutAll(ts) <==> exists i :: 0 <= i < |ts| && Cut(ts[i]) == t
  {
    hide Cut, CString;
    if ts != [] {
      var n := |ts| - 1;
      CutHasOrigin(ts[..n], t);
      assert t in CutAll(ts) <==> t in CutAll(ts[..n]) || Cut(ts[n]) == t;
      assert forall i :: 0 <= i < n ==> ts[..n][i] == ts[i];
    }
  }

  ghost predicate AcceptedKey(accepted: seq<Triple>, i: int, key: ByteString) {
    0 <= i < |accepted| && Canonical(CString(accepted[i].key)) == Canonical(key)
  }

  // Looking a key up in a reachable table succeeds exactly for the keys of accepted triples, letter case aside.
  lemma LookupFindsAccepted(buckets: seq<Bucket>, strings: ByteString, accepted: seq<Triple>, key: ByteString)
    requires |buckets| > 0 && Reachable(buckets, strings)
    requires Entries(buckets, strings) == CutAll(accepted)
    ensures Lookup(buckets, strings, key, Hash(key) % |buckets|, |buckets|).Some?
            <==> exists i :: AcceptedKey(accepted, i, key)
  {
    hide Lookup, Entries, CutAll, Reachable, Canonical, StringAt, CString, Hash;
    LookupFindsEveryEntry(buckets, strings, key);
    if i :| AcceptedKey(accepted, i, key) {
      var t := Cut(accepted[i]);
      CutHasOrigin(accepted, t);
      EntryHasBucket(buckets, strings, t);
      var p :| 0 <= p < |buckets| && buckets[p].key != 0 && TripleOf(buckets[p], strings) == t;
      assert HoldsKey(buckets, strings, key, p);
    }
    if p :| HoldsKey(buckets, strings, key, p) {
      var t := TripleOf(buckets[p], strings);
      EntryHasBucket(buckets, strings, t);
      CutHasOrigin(accepted, t);
      var i :| 0 <= i < |accepted| && Cut(accepted[i]) == t;
      assert AcceptedKey(accepted, i, key);
    }
  }
}
