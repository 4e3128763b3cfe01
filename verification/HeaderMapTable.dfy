// The value-level view of a header map: buckets, the string pool, and linear probing over them
// (Libraries/pbxbuild/Headers/pbxbuild/HMapFile.h and Libraries/pbxbuild/Sources/HeaderMap.cpp).
module HeaderMapTables {
  import opened Arithmetic
  import opened Bytes
  import opened Wrappers

  // HMapBucket: three offsets into the string pool. A zero key marks an empty bucket.
  datatype Bucket = Bucket(key: uint32, prefix: uint32, suffix: uint32)

  datatype Triple = Triple(key: ByteString, prefix: ByteString, suffix: ByteString)

  const EMPTY_BUCKET := Bucket(0, 0, 0)

  function ToLower(c: byte): byte {
    if 65 <= c <= 90 then c + 32 else c
  }

  // CanonicalizeKey
  function Canonical(key: ByteString): (r: ByteString)
    ensures |r| == |key|
  {
    seq(|key|, i requires 0 <= i < |key| => ToLower(key[i]))
  }

  // A byte as a plain char, which is signed on the usual hosts.
  function Signed(c: byte): int {
    if c < 0x80 then c else c - 0x100
  }

  function Wrapped(n: int): uint32 {
    n % 0x1_0000_0000
  }

  // HashHMapKey: thirteen times the sum of the lower-cased characters, in 32-bit arithmetic.
  function Hash(key: ByteString): uint32 {
    if key == [] then 0
    else Wrapped(Hash(key[..|key| - 1]) as int + 13 * Signed(ToLower(key[|key| - 1])))
  }

  // The hash of a character is thirteen times its number, small letters standing for capitals and numbers above 127 for
  // negative ones.
  lemma HashOfOne(c: byte)
    ensures Hash([c]) == if 'A' as int <= c <= 'Z' as int then 13 * (c as int + 32)
                         else if c < 128 then 13 * c as int
                         else 4294967296 - 13 * (256 - c as int)
  {
    assert [c][..0] == [];
    assert Hash([]) == 0;
  }

  // Hashes of parts add up, in 32 bits.
  lemma {:induction false} HashAdds(a: ByteString, b: ByteString)
    ensures Hash(a + b) == (Hash(a) as int + Hash(b) as int) % 4294967296
    decreases |b|
  {
    hide Wrapped, ToLower, Signed;
    if b == [] {
      assert a + b == a;
    } else {
      var n := |b| - 1;
      HashAdds(a, b[..n]);
      assert (a + b)[..|a + b| - 1] == a + b[..n];
      assert (a + b)[|a + b| - 1] == b[n];
      WrappedIs(Hash(a) as int + Hash(b[..n]) as int);
      AddsOneMore(Hash(a), Hash(b[..n]), 13 * Signed(ToLower(b[n])));
    }
  }

  lemma AddsOneMore(a: int, b: int, c: int)
    ensures Wrapped(Wrapped(a + b) as int + c) as int == (a + Wrapped(b + c) as int) % 4294967296
  {
    hide Wrapped;
    WrapTwice(a + b, c);
    WrapTwice(b + c, a);
    WrappedIs(a + Wrapped(b + c) as int);
  }

  lemma WrappedIs(n: int)
    ensures Wrapped(n) == n % 4294967296
  {
  }

  lemma WrapTwice(m: int, n: int)
    ensures Wrapped(Wrapped(m) as int + n) == Wrapped(m + n)
  {
    var k := m / 0x1_0000_0000;
    assert m == 0x1_0000_0000 * k + Wrapped(m);
    assert m + n == 0x1_0000_0000 * k + (Wrapped(m) as int + n);
  }

  // Only capital letters are changed, to small ones.
  lemma CanonicalIsLowerCase(key: ByteString, i: nat)
    requires i < |key|
    ensures Canonical(key)[i] == if 'A' as int <= key[i] <= 'Z' as int then key[i] as int + 32 else key[i] as int
  {
  }

  // Keys that differ only in case hash alike.
  lemma {:induction false} HashIgnoresCase(a: ByteString, b: ByteString)
    requires Canonical(a) == Canonical(b)
    ensures Hash(a) == Hash(b)
  {
    assert |a| == |Canonical(a)| == |b|;
    if a != [] {
      var n := |a| - 1;
      assert ToLower(a[n]) == Canonical(a)[n] == Canonical(b)[n] == ToLower(b[n]);
      assert Canonical(a[..n]) == Canonical(a)[..n] == Canonical(b)[..n] == Canonical(b[..n]);
      HashIgnoresCase(a[..n], b[..n]);
    }
  }

  // &_strings[offset] read as a C string.
  function StringAt(strings: ByteString, offset: nat): ByteString {
    if offset <= |strings| then CString(strings[offset..]) else []
  }

  function TripleOf(bucket: Bucket, strings: ByteString): Triple {
    Triple(StringAt(strings, bucket.key), StringAt(strings, bucket.prefix), StringAt(strings, bucket.suffix))
  }

  // The occupied buckets, decoded through the string pool.
  function Entries(buckets: seq<Bucket>, strings: ByteString): multiset<Triple> {
    if buckets == [] then multiset{}
    else
      var rest := Entries(buckets[..|buckets| - 1], strings);
      var last := buckets[|buckets| - 1];
      if last.key == 0 then rest else rest + multiset{TripleOf(last, strings)}
  }

  function Occupied(buckets: seq<Bucket>): nat {
    if buckets == [] then 0
    else Occupied(buckets[..|buckets| - 1]) + (if buckets[|buckets| - 1].key == 0 then 0 else 1)
  }

  lemma {:induction false} EntriesConcat(a: seq<Bucket>, b: seq<Bucket>, strings: ByteString)
    ensures Entries(a + b, strings) == Entries(a, strings) + Entries(b, strings)
  {
    if b == [] {
      assert a + b == a;
    } else {
      var n := |b| - 1;
      assert (a + b)[..|a + b| - 1] == a + b[..n];
      EntriesConcat(a, b[..n], strings);
    }
  }

  lemma {:induction false} EntriesCount(buckets: seq<Bucket>, strings: ByteString)
    ensures |Entries(buckets, strings)| == Occupied(buckets)
  {
    if buckets != [] {
      EntriesCount(buckets[..|buckets| - 1], strings);
    }
  }

  lemma {:induction false} OccupiedConcat(a: seq<Bucket>, b: seq<Bucket>)
    ensures Occupied(a + b) == Occupied(a) + Occupied(b)
  {
    if b == [] {
      assert a + b == a;
    } else {
      var n := |b| - 1;
      assert (a + b)[..|a + b| - 1] == a + b[..n];
      OccupiedConcat(a, b[..n]);
    }
  }

  lemma SplitAt(buckets: seq<Bucket>, n: nat, bucket: Bucket)
    requires n < |buckets|
    ensures buckets == buckets[..n] + [buckets[n]] + buckets[n + 1..]
    ensures buckets[n := bucket] == buckets[..n] + [bucket] + buckets[n + 1..]
  {
  }

  // Filling an empty bucket adds exactly its entry.
  lemma FillEmpty(buckets: seq<Bucket>, n: nat, bucket: Bucket, strings: ByteString)
    requires n < |buckets| && buckets[n].key == 0 && bucket.key != 0
    ensures Entries(buckets[n := bucket], strings) == Entries(buckets, strings) + multiset{TripleOf(bucket, strings)}
    ensures Occupied(buckets[n := bucket]) == Occupied(buckets) + 1
  {
    SplitAt(buckets, n, bucket);
    var before, after := buckets[..n], buckets[n + 1..];
    forall b: Bucket
      ensures Entries(before + [b] + after, strings)
              == Entries(before, strings) + Entries([b], strings) + Entries(after, strings)
      ensures Occupied(before + [b] + after) == Occupied(before) + Occupied([b]) + Occupied(after)
    {
      EntriesConcat(before + [b], after, strings);
      EntriesConcat(before, [b], strings);
      OccupiedConcat(before + [b], after);
      OccupiedConcat(before, [b]);
    }
    assert Entries([bucket], strings) == multiset{TripleOf(bucket, strings)} by {
      assert [bucket][..0] == [];
    }
    assert Entries([buckets[n]], strings) == multiset{} by {
      assert [buckets[n]][..0] == [];
    }
  }

  lemma {:induction false} AllEmpty(n: nat, strings: ByteString)
    ensures var b := seq(n, _ => EMPTY_BUCKET); Entries(b, strings) == multiset{} && Occupied(b) == 0
  {
    if n > 0 {
      AllEmpty(n - 1, strings);
      assert seq(n, _ => EMPTY_BUCKET)[..n - 1] == seq(n - 1, _ => EMPTY_BUCKET);
    }
  }

  // Every occupied bucket points at strings that start inside the pool.
  ghost predicate InPool(buckets: seq<Bucket>, strings: ByteString) {
    forall i :: 0 <= i < |buckets| && buckets[i].key != 0 ==>
      BucketInPool(buckets[i], strings)
  }

  ghost predicate BucketInPool(bucket: Bucket, strings: ByteString) {
    0 < bucket.key < |strings| && 0 < bucket.prefix < |strings| && 0 < bucket.suffix < |strings|
  }

  ghost predicate Terminated(strings: ByteString) {
    strings == [] || (strings[0] == 0 && strings[|strings| - 1] == 0)
  }

  // Growing the pool does not change what the buckets decode to.
  lemma {:induction false} EntriesInGrownPool(buckets: seq<Bucket>, strings: ByteString, more: ByteString)
    requires InPool(buckets, strings) && Terminated(strings)
    ensures Entries(buckets, strings + more) == Entries(buckets, strings)
  {
    if buckets != [] {
      var n := |buckets| - 1;
      EntriesInGrownPool(buckets[..n], strings, more);
      var last := buckets[n];
      if last.key != 0 {
        CStringInPool(strings, more, last.key);
        CStringInPool(strings, more, last.prefix);
        CStringInPool(strings, more, last.suffix);
      }
    }
  }

  // ----- Linear probing -----

  // The bucket a probe looks at after bucket n.
  function Next(n: nat, modulus: nat): (r: nat)
    requires modulus > 0
    ensures r < modulus
  {
    (n + 1) % modulus
  }

  lemma NextInside(n: nat, modulus: nat)
    requires n < modulus
    ensures Next(n, modulus) == if n + 1 == modulus then 0 else n + 1
  {
  }

  lemma NextAtModulus(modulus: nat)
    requires modulus > 1
    ensures Next(modulus, modulus) == 1
  {
    DivModUnique(modulus + 1, modulus, 1, 1);
  }

  // How many steps a probe needs from one bucket to another.
  function Distance(start: nat, modulus: nat, p: nat): (d: nat)
    requires start < modulus && p < modulus
    ensures d < modulus
  {
    if start <= p then p - start else p + modulus - start
  }

  // Bucket q lies on the way from `start` to p, p itself excluded.
  predicate OnTheWay(start: nat, p: nat, q: nat) {
    if start <= p then start <= q < p else start <= q || q < p
  }

  function Home(bucket: Bucket, strings: ByteString, modulus: nat): (h: nat)
    requires modulus > 0
    ensures h < modulus
  {
    Hash(StringAt(strings, bucket.key)) % modulus
  }

  // A probe from the home of every occupied bucket reaches that bucket without crossing an empty one.
  ghost predicate Reachable(buckets: seq<Bucket>, strings: ByteString)
  {
    forall p :: 0 <= p < |buckets| && buckets[p].key != 0 ==>
      ClearWay(buckets, Home(buckets[p], strings, |buckets|), p)
  }

  ghost predicate ClearWay(buckets: seq<Bucket>, start: nat, p: nat) {
    forall q :: 0 <= q < |buckets| && OnTheWay(start, p, q) ==> buckets[q].key != 0
  }

  // What a reader of the table does: look at one bucket after the other, give up at an empty one or after a full turn.
  function Lookup(buckets: seq<Bucket>, strings: ByteString, key: ByteString, n: nat, left: nat): Option<nat>
    requires n < |buckets|
    decreases left
  {
    if left == 0 || buckets[n].key == 0 then None
    else if Canonical(StringAt(strings, buckets[n].key)) == Canonical(key) then Some(n)
    else Lookup(buckets, strings, key, Next(n, |buckets|), left - 1)
  }

  ghost predicate HoldsKey(buckets: seq<Bucket>, strings: ByteString, key: ByteString, p: int) {
    && 0 <= p < |buckets|
    && buckets[p].key != 0
    && Canonical(StringAt(strings, buckets[p].key)) == Canonical(key)
  }

  // In a reachable table the lookup finds a key exactly when some occupied bucket holds it, case aside.
  lemma LookupFindsEveryEntry(buckets: seq<Bucket>, strings: ByteString, key: ByteString)
    requires |buckets| > 0 && Reachable(buckets, strings)
    ensures var found := Lookup(buckets, strings, key, Hash(key) % |buckets|, |buckets|);
            && (found.Some? <==> exists p :: HoldsKey(buckets, strings, key, p))
            && (found.Some? ==> HoldsKey(buckets, strings, key, found.value))
  {
    var start := Hash(key) % |buckets|;
    LookupIsSound(buckets, strings, key, start, |buckets|);
    if p: nat :| HoldsKey(buckets, strings, key, p) {
      HashIgnoresCase(StringAt(strings, buckets[p].key), key);
      LookupReaches(buckets, strings, key, p, start, |buckets|);
    }
  }

  lemma {:induction false} LookupIsSound(buckets: seq<Bucket>, strings: ByteString, key: ByteString, n: nat, left: nat)
    requires n < |buckets|
    ensures var found := Lookup(buckets, strings, key, n, left);
            found.Some? ==> HoldsKey(buckets, strings, key, found.value)
    decreases left
  {
    if left > 0 {
      LookupIsSound(buckets, strings, key, Next(n, |buckets|), left - 1);
    }
  }

  lemma {:induction false} LookupReaches(buckets: seq<Bucket>, strings: ByteString, key: ByteString, p: nat, n: nat,
                                         left: nat)
    requires n < |buckets| && HoldsKey(buckets, strings, key, p)
    requires ClearWay(buckets, n, p) && Distance(n, |buckets|, p) < left
    ensures Lookup(buckets, strings, key, n, left).Some?
    decreases left
  {
    if n != p {
      var next := Next(n, |buckets|);
      NextInside(n, |buckets|);
      assert ClearWay(buckets, next, p) by {
        assert forall q :: 0 <= q < |buckets| && OnTheWay(next, p, q) ==> OnTheWay(n, p, q);
      }
      LookupReaches(buckets, strings, key, p, next, left - 1);
    }
  }

  // ----- A free bucket is always found -----

  lemma {:induction false} SomeEmpty(buckets: seq<Bucket>) returns (e: nat)
    requires Occupied(buckets) < |buckets|
    ensures e < |buckets| && buckets[e].key == 0
  {
    var n := |buckets| - 1;
    if buckets[n].key == 0 {
      e := n;
    } else {
      e := SomeEmpty(buckets[..n]);
    }
  }

  lemma OccupiedAfterUpdate(buckets: seq<Bucket>, n: nat, bucket: Bucket)
    requires n < |buckets|
    ensures Occupied(buckets[n := bucket]) <= Occupied(buckets) + 1
  {
    SplitAt(buckets, n, bucket);
    OccupiedConcat(buckets[..n] + [bucket], buckets[n + 1..]);
    OccupiedConcat(buckets[..n], [bucket]);
    OccupiedConcat(buckets[..n] + [buckets[n]], buckets[n + 1..]);
    OccupiedConcat(buckets[..n], [buckets[n]]);
  }

  lemma EmptyBesides(buckets: seq<Bucket>, x: nat, y: nat) returns (e: nat)
    requires Occupied(buckets) + 3 <= |buckets| && x < |buckets| && y < |buckets|
    ensures e < |buckets| && buckets[e].key == 0 && e != x && e != y
  {
    var full := Bucket(1, 1, 1);
    OccupiedAfterUpdate(buckets, x, full);
    OccupiedAfterUpdate(buckets[x := full], y, full);
    e := SomeEmpty(buckets[x := full][y := full]);
  }

  // The value `hash - 1` at which the loop in `set` would give up; it wraps around for a zero hash.
  function ProbeStop(hash: uint32): uint32 {
    if hash == 0 then 0xFFFF_FFFF else hash - 1
  }

  // A bucket that the probe from `hash` is sure to look at before it gives up. While the table grows, the start may
  // lie at or beyond the modulus; a probe that starts at the modulus itself never looks at bucket 0.
  predicate IsTarget(modulus: nat, hash: uint32, e: nat) {
    && e < modulus
    && (hash <= modulus ==> e != ProbeStop(hash))
    && (hash == modulus ==> e != 0)
  }

  // Bucket n is visited by the probe from `hash` no later than its target e.
  predicate Visits(modulus: nat, hash: uint32, n: nat, e: nat)
    requires e < modulus
  {
    || n == hash
    || (n < modulus
        && (hash < modulus ==> Distance(hash, modulus, n) <= Distance(hash, modulus, e))
        && (hash == modulus ==> 1 <= n <= e))
  }

  function StepsLeft(modulus: nat, n: nat, e: nat): nat
    requires e < modulus
  {
    if n < modulus then Distance(n, modulus, e) else modulus
  }

  lemma FindTarget(buckets: seq<Bucket>, modulus: nat, hash: uint32) returns (e: nat)
    requires 1 < modulus <= |buckets| < 0xFFFF_FFFF && hash < |buckets|
    requires Occupied(buckets[..modulus]) + 3 <= modulus
    ensures IsTarget(modulus, hash, e) && buckets[e].key == 0
  {
    e := EmptyBesides(buckets[..modulus], 0, if 0 < hash <= modulus then hash - 1 else 0);
  }

  // Short of its target the probe neither gives up nor strays, and it gets closer.
  lemma ProbeAdvances(modulus: nat, hash: uint32, n: nat, e: nat)
    requires 1 < modulus < 0xFFFF_FFFF && IsTarget(modulus, hash, e) && Visits(modulus, hash, n, e)
    ensures n != ProbeStop(hash)
    ensures n != e ==> Visits(modulus, hash, Next(n, modulus), e)
    ensures n != e ==> StepsLeft(modulus, Next(n, modulus), e) < StepsLeft(modulus, n, e)
  {
    var next := Next(n, modulus);
    if n < modulus {
      NextInside(n, modulus);
    } else if n == modulus {
      NextAtModulus(modulus);
    }
    ProbeMoves(modulus, hash, n, e, next);
  }

  lemma ProbeMoves(modulus: nat, hash: uint32, n: nat, e: nat, next: nat)
    requires 1 < modulus < 0xFFFF_FFFF && IsTarget(modulus, hash, e) && Visits(modulus, hash, n, e)
    requires next < modulus
    requires n < modulus ==> next == if n + 1 == modulus then 0 else n + 1
    requires n == modulus ==> next == 1
    ensures n != ProbeStop(hash)
    ensures n != e ==> Visits(modulus, hash, next, e)
    ensures n != e ==> StepsLeft(modulus, next, e) < StepsLeft(modulus, n, e)
  {
  }
}
