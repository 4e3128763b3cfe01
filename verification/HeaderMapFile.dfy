// The bytes of a header map file (Libraries/pbxbuild/Headers/pbxbuild/HMapFile.h), as the write and read methods of
// Libraries/pbxbuild/Sources/HeaderMap.cpp copy them on a little-endian host.
module HeaderMapFiles {
  import opened Bytes
  import opened HeaderMapTables

  const HEADER_SIZE := 24
  const BUCKET_SIZE := 12
  const MAGIC: uint32 := 0x686D_6170
  const VERSION_AND_RESERVED: uint32 := 1

  datatype Header = Header(stringsOffset: uint32, numEntries: uint32, numBuckets: uint32, maxValueLength: uint32)

  // A run of 32-bit fields.
  function FieldBytes(fields: seq<uint32>): (r: ByteString)
    ensures |r| == 4 * |fields|
  {
    if fields == [] then [] else Le32(fields[0]) + FieldBytes(fields[1..])
  }

  function HeaderBytes(h: Header): (r: ByteString)
    ensures |r| == HEADER_SIZE
  {
    FieldBytes([MAGIC, VERSION_AND_RESERVED, h.stringsOffset, h.numEntries, h.numBuckets, h.maxValueLength])
  }

  function BucketBytes(b: Bucket): (r: ByteString)
    ensures |r| == BUCKET_SIZE
  {
    FieldBytes([b.key, b.prefix, b.suffix])
  }

  function BucketArrayBytes(buckets: seq<Bucket>): (r: ByteString)
    ensures |r| == BUCKET_SIZE * |buckets|
  {
    if buckets == [] then [] else BucketArrayBytes(buckets[..|buckets| - 1]) + BucketBytes(buckets[|buckets| - 1])
  }

  function FileBytes(h: Header, buckets: seq<Bucket>, strings: ByteString): (r: ByteString)
    ensures |r| == HEADER_SIZE + BUCKET_SIZE * |buckets| + |strings|
  {
    HeaderBytes(h) + BucketArrayBytes(buckets) + strings
  }

  // ----- Reading -----

  function FieldAt(file: ByteString, offset: nat): uint32
    requires offset + 4 <= |file|
  {
    FromLe32(file[offset..offset + 4])
  }

  function HeaderOf(file: ByteString): Header
    requires |file| >= HEADER_SIZE
  {
    Header(FieldAt(file, 8), FieldAt(file, 12), FieldAt(file, 16), FieldAt(file, 20))
  }

  // The checks of read, in its order.
  predicate Readable(file: ByteString) {
    && |file| >= HEADER_SIZE
    && FieldAt(file, 0) == MAGIC
    && FieldAt(file, 4) == VERSION_AND_RESERVED
    && HeaderOf(file).stringsOffset <= |file| % 0x1_0000_0000
    && |file| - HEADER_SIZE >= BUCKET_SIZE * HeaderOf(file).numBuckets
  }

  function BucketAt(file: ByteString, n: nat): Bucket
    requires HEADER_SIZE + BUCKET_SIZE * (n + 1) <= |file|
  {
    var at := HEADER_SIZE + BUCKET_SIZE * n;
    Bucket(FieldAt(file, at), FieldAt(file, at + 4), FieldAt(file, at + 8))
  }

  function BucketsIn(file: ByteString, count: nat): (r: seq<Bucket>)
    requires HEADER_SIZE + BUCKET_SIZE * count <= |file|
    ensures |r| == count
  {
    seq(count, n requires 0 <= n < count => BucketAt(file, n))
  }

  // ----- What is written can be read -----

  lemma {:induction false} FieldRoundTrip(before: ByteString, fields: seq<uint32>, after: ByteString, i: nat)
    requires i < |fields|
    ensures FieldAt(before + FieldBytes(fields) + after, |before| + 4 * i) == fields[i]
    decreases |fields|
  {
    var first, rest := Le32(fields[0]), FieldBytes(fields[1..]);
    var file := before + FieldBytes(fields) + after;
    if i == 0 {
      assert file[|before|..|before| + 4] == first;
      Le32RoundTrip(fields[0]);
    } else {
      assert file == (before + first) + rest + after;
      FieldRoundTrip(before + first, fields[1..], after, i - 1);
    }
  }

  lemma HeaderRoundTrip(h: Header, rest: ByteString)
    ensures var file := HeaderBytes(h) + rest;
            && FieldAt(file, 0) == MAGIC
            && FieldAt(file, 4) == VERSION_AND_RESERVED
            && HeaderOf(file) == h
  {
    hide FieldBytes, FieldAt;
    var fields := [MAGIC, VERSION_AND_RESERVED, h.stringsOffset, h.numEntries, h.numBuckets, h.maxValueLength];
    assert HeaderBytes(h) + rest == [] + FieldBytes(fields) + rest;
    FieldRoundTrip([], fields, rest, 0);
    FieldRoundTrip([], fields, rest, 1);
    FieldRoundTrip([], fields, rest, 2);
    FieldRoundTrip([], fields, rest, 3);
    FieldRoundTrip([], fields, rest, 4);
    FieldRoundTrip([], fields, rest, 5);
  }

  lemma BucketOfConcat(before: ByteString, b: Bucket, after: ByteString, n: nat)
    requires |before| == HEADER_SIZE + BUCKET_SIZE * n
    ensures BucketAt(before + BucketBytes(b) + after, n) == b
  {
    hide FieldBytes, FieldAt;
    var fields := [b.key, b.prefix, b.suffix];
    FieldRoundTrip(before, fields, after, 0);
    FieldRoundTrip(before, fields, after, 1);
    FieldRoundTrip(before, fields, after, 2);
  }

  lemma {:induction false} BucketRoundTrip(h: Header, buckets: seq<Bucket>, after: ByteString, n: nat)
    requires n < |buckets|
    ensures BucketAt(HeaderBytes(h) + BucketArrayBytes(buckets) + after, n) == buckets[n]
    decreases |buckets|
  {
    var last := |buckets| - 1;
    var shorter := BucketArrayBytes(buckets[..last]);
    var tail := BucketBytes(buckets[last]);
    assert HeaderBytes(h) + BucketArrayBytes(buckets) + after == HeaderBytes(h) + shorter + (tail + after);
    if n == last {
      assert HeaderBytes(h) + shorter + (tail + after) == (HeaderBytes(h) + shorter) + tail + after;
      BucketOfConcat(HeaderBytes(h) + shorter, buckets[last], after, n);
    } else {
      BucketRoundTrip(h, buckets[..last], tail + after, n);
    }
  }

  // Reading back a written file gives the same header, the same buckets in the same places, and the same strings.
  lemma FileRoundTrip(h: Header, buckets: seq<Bucket>, strings: ByteString)
    requires h.numBuckets == |buckets| && h.stringsOffset == HEADER_SIZE + BUCKET_SIZE * |buckets|
    requires HEADER_SIZE + BUCKET_SIZE * |buckets| + |strings| < 0x1_0000_0000
    ensures var file := FileBytes(h, buckets, strings);
            && Readable(file)
            && HeaderOf(file) == h
            && BucketsIn(file, h.numBuckets) == buckets
            && file[h.stringsOffset..] == strings
  {
    hide FieldAt, BucketAt, HeaderOf, HeaderBytes, BucketArrayBytes;
    var file := FileBytes(h, buckets, strings);
    assert file == HeaderBytes(h) + (BucketArrayBytes(buckets) + strings);
    HeaderRoundTrip(h, BucketArrayBytes(buckets) + strings);
    forall n | 0 <= n < |buckets|
      ensures BucketAt(file, n) == buckets[n]
    {
      BucketRoundTrip(h, buckets, strings, n);
    }
  }

  // ----- The bytes at their places -----

  // Four bytes, the lowest first.
  function LittleEndian(file: ByteString, at: nat): int
    requires at + 4 <= |file|
  {
    file[at] as int + 256 * file[at + 1] as int + 65536 * file[at + 2] as int + 16777216 * file[at + 3] as int
  }

  lemma FieldIsLittleEndian(file: ByteString, at: nat)
    requires at + 4 <= |file|
    ensures FieldAt(file, at) == LittleEndian(file, at)
  {
  }

  // The header of a written file: the characters "pamh", version 1 in two bytes and two reserved ones, then the offset
  // of the strings and the numbers of entries and buckets and the greatest length.
  lemma HeaderFormat(h: Header, buckets: seq<Bucket>, strings: ByteString)
    ensures var file := FileBytes(h, buckets, strings);
            && |file| == 24 + 12 * |buckets| + |strings|
            && file[0] == 'p' as int && file[1] == 'a' as int && file[2] == 'm' as int && file[3] == 'h' as int
            && file[4] == 1 && file[5] == 0 && file[6] == 0 && file[7] == 0
            && LittleEndian(file, 8) == h.stringsOffset
            && LittleEndian(file, 12) == h.numEntries
            && LittleEndian(file, 16) == h.numBuckets
            && LittleEndian(file, 20) == h.maxValueLength
  {
    hide FieldBytes, HeaderBytes, BucketArrayBytes, FieldAt;
    var rest := BucketArrayBytes(buckets) + strings;
    var file := FileBytes(h, buckets, strings);
    assert file == HeaderBytes(h) + rest;
    HeaderRoundTrip(h, rest);
    FieldIsLittleEndian(file, 0);
    FieldIsLittleEndian(file, 4);
    FieldIsLittleEndian(file, 8);
    FieldIsLittleEndian(file, 12);
    FieldIsLittleEndian(file, 16);
    FieldIsLittleEndian(file, 20);
    FieldDetermines(file, 0, 112, 97, 109, 104);
    FieldDetermines(file, 4, 1, 0, 0, 0);
  }

  lemma FieldDetermines(file: ByteString, at: nat, a: byte, b: byte, c: byte, d: byte)
    requires at + 4 <= |file|
    requires LittleEndian(file, at) == a as int + 256 * b as int + 65536 * c as int + 16777216 * d as int
    ensures file[at] == a && file[at + 1] == b && file[at + 2] == c && file[at + 3] == d
  {
    var b', c', d': int := file[at + 1], file[at + 2], file[at + 3];
    LowByte(file[at], b' + 256 * (c' + 256 * d'), a, b as int + 256 * (c as int + 256 * d as int));
    LowByte(file[at + 1], c' + 256 * d', b, c as int + 256 * d as int);
    LowByte(file[at + 2], d', c, d);
  }

  lemma LowByte(a: byte, m: int, b: byte, n: int)
    requires a as int + 256 * m == b as int + 256 * n
    ensures a == b && m == n
  {
  }

  // Bucket n, twelve bytes each behind the header: the offsets of its key, its prefix and its suffix.
  lemma BucketFormat(h: Header, buckets: seq<Bucket>, strings: ByteString, n: nat)
    requires n < |buckets|
    ensures var file := FileBytes(h, buckets, strings);
            && 24 + 12 * n + 12 <= |file|
            && LittleEndian(file, 24 + 12 * n) == buckets[n].key
            && LittleEndian(file, 24 + 12 * n + 4) == buckets[n].prefix
            && LittleEndian(file, 24 + 12 * n + 8) == buckets[n].suffix
  {
    hide FieldBytes, HeaderBytes, BucketArrayBytes, FieldAt;
    var file := FileBytes(h, buckets, strings);
    BucketRoundTrip(h, buckets, strings, n);
    FieldIsLittleEndian(file, 24 + 12 * n);
    FieldIsLittleEndian(file, 24 + 12 * n + 4);
    FieldIsLittleEndian(file, 24 + 12 * n + 8);
  }

  // The strings follow the buckets.
  lemma StringsFormat(h: Header, buckets: seq<Bucket>, strings: ByteString)
    ensures FileBytes(h, buckets, strings)[24 + 12 * |buckets|..] == strings
  {
    hide HeaderBytes, BucketArrayBytes;
  }

  // Which files are read: long enough for a header, which begins as described and names strings that begin no later
  // than the end of the file and no more buckets than follow it.
  lemma ReadableExactly(file: ByteString)
    ensures Readable(file)
            <==> && |file| >= 24
                 && file[0] == 'p' as int && file[1] == 'a' as int && file[2] == 'm' as int && file[3] == 'h' as int
                 && file[4] == 1 && file[5] == 0 && file[6] == 0 && file[7] == 0
                 && LittleEndian(file, 8) <= |file| % 4294967296
                 && 24 + 12 * LittleEndian(file, 16) <= |file|
  {
    hide FieldAt;
    if |file| >= 24 {
      FieldIsLittleEndian(file, 0);
      FieldIsLittleEndian(file, 4);
      FieldIsLittleEndian(file, 8);
      FieldIsLittleEndian(file, 16);
      if LittleEndian(file, 0) == 0x686D_6170 {
        FieldDetermines(file, 0, 112, 97, 109, 104);
      }
      if LittleEndian(file, 4) == 1 {
        FieldDetermines(file, 4, 1, 0, 0, 0);
      }
    }
  }

  // What is read from them.
  lemma ReadFormat(file: ByteString, n: nat)
    requires Readable(file) && n < HeaderOf(file).numBuckets
    ensures HeaderOf(file) == Header(LittleEndian(file, 8), LittleEndian(file, 12), LittleEndian(file, 16),
                                     LittleEndian(file, 20))
    ensures BucketsIn(file, HeaderOf(file).numBuckets)[n]
            == Bucket(LittleEndian(file, 24 + 12 * n), LittleEndian(file, 24 + 12 * n + 4),
                      LittleEndian(file, 24 + 12 * n + 8))
  {
    hide FieldAt;
    FieldIsLittleEndian(file, 8);
    FieldIsLittleEndian(file, 12);
    FieldIsLittleEndian(file, 16);
    FieldIsLittleEndian(file, 20);
    FieldIsLittleEndian(file, 24 + 12 * n);
    FieldIsLittleEndian(file, 24 + 12 * n + 4);
    FieldIsLittleEndian(file, 24 + 12 * n + 8);
  }
}
