// Libraries/libutil/Sources/md5.c: the streaming interface of MD5 (RFC 1321) around its compression function.
module Md5 {
  import opened Wrappers
  import opened Bytes
  import opened Arithmetic

  datatype Registers = Registers(a: uint32, b: uint32, c: uint32, d: uint32)

  // The four rounds over one block of 64 bytes, and the addition of what the registers held before.
  type Compression = (Registers, ByteString) -> Registers

  const INITIAL: Registers := Registers(0x6745_2301, 0xefcd_ab89, 0x98ba_dcfe, 0x1032_5476)

  // ----- The definition: sections 3.1 to 3.5 of RFC 1321 -----

  // The compression function over the whole blocks of a message; what is left over at the end does not matter.
  function Folded(compress: Compression, r: Registers, message: ByteString): Registers
    decreases |message|
  {
    if |message| < 64 then r else Folded(compress, compress(r, message[..64]), message[64..])
  }

  function Le64(n: int): (r: ByteString)
    ensures |r| == 8
  {
    Le32(n % 0x1_0000_0000) + Le32(n / 0x1_0000_0000 % 0x1_0000_0000)
  }

  // A one bit, then as many zero bits as it takes to reach 56 bytes modulo 64.
  function Padding(length: nat): (r: ByteString)
    ensures 1 <= |r| <= 64 && (length + |r|) % 64 == 56
  {
    [0x80] + Zeros((55 - length) % 64)
  }

  lemma PadLength(length: nat, padding: nat)
    requires (length + padding) % 64 == 56
    ensures (length + padding + 8) % 64 == 0
  {
  }

  function Padded(message: ByteString): (r: ByteString)
    ensures |r| % 64 == 0
  {
    hide Padding, Le64;
    PadLength(|message|, |Padding(|message|)|);
    message + Padding(|message|) + Le64(8 * |message|)
  }

  function RegisterBytes(r: Registers): (b: ByteString)
    ensures |b| == 16
  {
    Le32(r.a) + Le32(r.b) + Le32(r.c) + Le32(r.d)
  }

  function Digest(compress: Compression, message: ByteString): ByteString {
    RegisterBytes(Folded(compress, INITIAL, Padded(message)))
  }

  // Messages of less than 2^61 bytes are padded differently: the digest depends on nothing but the message, and the
  // blocks determine it.
  lemma PaddingIsUnambiguous(a: ByteString, b: ByteString)
    requires |a| < 0x2000_0000_0000_0000 && |b| < 0x2000_0000_0000_0000
    requires Padded(a) == Padded(b)
    ensures a == b
  {
    var p, q := Padded(a), Padded(b);
    var n := |p| - 8;
    assert p[n..] == Le64(8 * |a|);
    assert q[n..] == Le64(8 * |b|);
    Le64IsInjective(8 * |a|, 8 * |b|);
    assert p[..|a|] == a;
    assert q[..|b|] == b;
  }

  lemma Le64IsInjective(m: nat, n: nat)
    requires m < 0x1_0000_0000_0000_0000 && n < 0x1_0000_0000_0000_0000
    requires Le64(m) == Le64(n)
    ensures m == n
  {
    hide Le32, FromLe32;
    assert Le64(m)[..4] == Le32(m % 0x1_0000_0000) && Le64(m)[4..] == Le32(m / 0x1_0000_0000);
    assert Le64(n)[..4] == Le32(n % 0x1_0000_0000) && Le64(n)[4..] == Le32(n / 0x1_0000_0000);
    Le32RoundTrip(m % 0x1_0000_0000);
    Le32RoundTrip(n % 0x1_0000_0000);
    Le32RoundTrip(m / 0x1_0000_0000);
    Le32RoundTrip(n / 0x1_0000_0000);
  }

  lemma {:induction false} FoldedOfConcat(compress: Compression, r: Registers, a: ByteString, b: ByteString)
    requires |a| % 64 == 0
    ensures Folded(compress, r, a + b) == Folded(compress, Folded(compress, r, a), b)
    decreases |a|
  {
    if |a| == 0 {
      assert a + b == b;
    } else {
      assert (a + b)[..64] == a[..64];
      assert (a + b)[64..] == a[64..] + b;
      FoldedOfConcat(compress, compress(r, a[..64]), a[64..], b);
    }
  }

  // One more block, and what does not fill one.
  lemma FoldedGrows(compress: Compression, whole: ByteString, added: ByteString)
    requires |whole| % 64 == 0
    ensures |added| < 64 ==> Folded(compress, INITIAL, whole + added) == Folded(compress, INITIAL, whole)
    ensures |added| == 64 ==>
              Folded(compress, INITIAL, whole + added) == compress(Folded(compress, INITIAL, whole), added)
  {
    FoldedOfConcat(compress, INITIAL, whole, added);
    if |added| == 64 {
      assert added[..64] == added && added[64..] == [];
    }
  }

  // Bytes added to a message that ends in a partial block.
  lemma FoldedInPart(compress: Compression, seen: ByteString, added: ByteString, offset: nat)
    requires offset == |seen| % 64
    ensures |added| + offset < 64 ==> Folded(compress, INITIAL, seen + added) == Folded(compress, INITIAL, seen)
    ensures |added| + offset == 64 ==>
              Folded(compress, INITIAL, seen + added)
              == compress(Folded(compress, INITIAL, seen), seen[|seen| - offset..] + added)
  {
    hide Folded;
    var whole, tail := seen[..|seen| - offset], seen[|seen| - offset..];
    WholePart(seen, offset);
    assert seen == whole + tail;
    Associative(whole, tail, added);
    FoldedGrows(compress, whole, tail);
    FoldedGrows(compress, whole, tail + added);
  }

  lemma WholePart(seen: ByteString, offset: nat)
    requires offset == |seen| % 64
    ensures offset <= |seen| && (|seen| - offset) % 64 == 0
  {
    assert |seen| - offset == 64 * (|seen| / 64);
  }

  lemma FullAgain(length: nat, offset: nat, copy: nat)
    requires offset == length % 64 && offset + copy == 64
    ensures (length + copy) % 64 == 0
  {
    assert length + copy == 64 * (length / 64 + 1);
  }

  lemma RestOf(seen: ByteString, data: ByteString, offset: nat)
    requires offset == |seen| % 64 && offset + |data| < 64
    ensures |seen + data| % 64 == offset + |data|
    ensures (seen + data)[|seen| - offset..] == seen[|seen| - offset..] + data
  {
    assert |seen| + |data| == 64 * (|seen| / 64) + (offset + |data|);
  }

  lemma RestAfterBlocks(seen: ByteString, data: ByteString, p: nat)
    requires p <= |data| && |data| - p < 64 && (|seen| + p) % 64 == 0
    ensures seen + data[..p] + data[p..] == seen + data
    ensures |seen + data| % 64 == |data| - p
    ensures (seen + data)[|seen + data| - (|data| - p)..] == data[p..]
  {
    assert |seen| + |data| == 64 * ((|seen| + p) / 64) + (|data| - p);
  }

  // ----- The stream -----

  class Md5State {
    const compress: Compression
    // The message length in bits, low word first.
    var count0: uint32
    var count1: uint32
    var abcd: Registers
    var buf: array<byte>
    ghost var message: ByteString

    ghost predicate Valid()
      reads this, buf
    {
      && count1 as int * 0x1_0000_0000 + count0 as int == 8 * |message| % 0x1_0000_0000_0000_0000
      && abcd == Folded(compress, INITIAL, message)
      && Buffered(message)
    }

    // The buffer holds what does not fill a block.
    ghost predicate Buffered(seen: ByteString)
      reads this, buf
    {
      buf.Length == 64 && buf[..|seen| % 64] == seen[|seen| - |seen| % 64..]
    }

    constructor (compress: Compression)
      ensures Valid() && message == [] && this.compress == compress && fresh(buf)
    {
      this.compress := compress;
      count0, count1 := 0, 0;
      abcd := INITIAL;
      buf := new byte[64];
      message := [];
    }

    // md5_append. Longer pieces would overflow the sum of the offset and the length. From 2^28 bytes on the shift that
    // gives the number of bits overflows an `int` already; it is taken to wrap.
    method Append(data: ByteString)
      requires Valid() && |data| + 63 < 0x8000_0000
      modifies this, buf
      ensures Valid() && buf == old(buf)
      ensures message == old(message) + data
    {
      hide Folded;
      var nbytes := |data|;
      var offset := count0 / 8 % 64;
      OffsetIsPosition(count0, count1, |message|);
      if nbytes <= 0 {
        assert message + data == message;
        return;
      }
      ghost var seen := message;
      UpdateLength(nbytes, |seen|);
      message := message + data;

      var p := 0;
      if offset != 0 {
        var full;
        p, full := FillBlock(data, offset, seen);
        if !full {
          return;
        }
      }
      assert offset == 0 ==> seen + data[..0] == seen;
      p := ProcessBlocks(data, p, seen);
      KeepRest(data, p, seen);
    }

    method UpdateLength(nbytes: nat, ghost length: nat)
      requires count1 as int * 0x1_0000_0000 + count0 as int == 8 * length % 0x1_0000_0000_0000_0000
      requires nbytes < 0x8000_0000
      modifies this`count0, this`count1
      ensures count1 as int * 0x1_0000_0000 + count0 as int == 8 * (length + nbytes) % 0x1_0000_0000_0000_0000
    {
      CountAdds(count0, count1, length, nbytes);
      var nbits := nbytes * 8 % 0x1_0000_0000;
      count1 := (count1 + nbytes / 0x2000_0000) % 0x1_0000_0000;
      count0 := (count0 + nbits) % 0x1_0000_0000;
      if count0 < nbits {
        count1 := (count1 + 1) % 0x1_0000_0000;
      }
    }

    // The initial partial block: completed and processed, or extended.
    method FillBlock(data: ByteString, offset: nat, ghost seen: ByteString) returns (p: nat, full: bool)
      requires Buffered(seen) && offset == |seen| % 64 && 0 < offset && data != []
      requires abcd == Folded(compress, INITIAL, seen)
      modifies this`abcd, buf
      ensures p <= |data| && abcd == Folded(compress, INITIAL, seen + data[..p])
      ensures if full then (|seen| + p) % 64 == 0
              else p == |data| && Buffered(seen + data) && abcd == Folded(compress, INITIAL, seen + data)
    {
      hide Folded;
      var copy := if offset + |data| > 64 then 64 - offset else |data|;
      forall k | 0 <= k < copy {
        buf[offset + k] := data[k];
      }
      ghost var tail := seen[|seen| - offset..];
      assert buf[..offset + copy] == tail + data[..copy];
      FoldedInPart(compress, seen, data[..copy], offset);
      p := copy;
      full := offset + copy == 64;
      if full {
        assert buf[..] == tail + data[..copy];
        Process(buf[..]);
        FullAgain(|seen|, offset, copy);
      } else {
        assert data[..copy] == data;
        RestOf(seen, data, offset);
      }
    }

    // The full blocks from position `from` on.
    method ProcessBlocks(data: ByteString, from: nat, ghost seen: ByteString) returns (p: nat)
      requires from <= |data| && (|seen| + from) % 64 == 0
      requires abcd == Folded(compress, INITIAL, seen + data[..from])
      modifies this`abcd
      ensures from <= p <= |data| && |data| - p < 64 && (|seen| + p) % 64 == 0
      ensures abcd == Folded(compress, INITIAL, seen + data[..p])
    {
      hide Folded;
      p := from;
      var left := |data| - p;
      while left >= 64
        invariant from <= p && 0 <= left && p + left == |data| && (|seen| + p) % 64 == 0
        invariant abcd == Folded(compress, INITIAL, seen + data[..p])
        decreases left
      {
        FoldedGrows(compress, seen + data[..p], data[p..p + 64]);
        assert seen + data[..p] + data[p..p + 64] == seen + data[..p + 64];
        Process(data[p..p + 64]);
        p := p + 64;
        left := left - 64;
      }
    }

    // The final partial block.
    method KeepRest(data: ByteString, p: nat, ghost seen: ByteString)
      requires buf.Length == 64 && p <= |data| && |data| - p < 64 && (|seen| + p) % 64 == 0
      requires abcd == Folded(compress, INITIAL, seen + data[..p])
      modifies buf
      ensures Buffered(seen + data) && abcd == Folded(compress, INITIAL, seen + data)
    {
      hide Folded;
      FoldedGrows(compress, seen + data[..p], data[p..]);
      RestAfterBlocks(seen, data, p);
      var left := |data| - p;
      if left != 0 {
        forall k | 0 <= k < left {
          buf[k] := data[p + k];
        }
      }
      assert buf[..left] == data[p..];
    }

    method Process(block: ByteString)
      modifies this`abcd
      ensures abcd == compress(old(abcd), block)
    {
      abcd := compress(abcd, block);
    }

    // md5_finish
    method Finish() returns (digest: ByteString)
      requires Valid()
      modifies this, buf
      ensures Valid() && buf == old(buf)
      ensures digest == Digest(compress, old(message))
      ensures message == Padded(old(message)) && |message| % 64 == 0
    {
      hide Folded, Le32, Padding, Le64;
      ghost var length := |message|;
      OffsetIsPosition(count0, count1, length);
      var data := CountBytes();
      var pad := PadBytes();
      var n := (55 - count0 / 8) % 0x1_0000_0000 % 64 + 1;
      PadIsPadding(pad, count0, length);
      Append(pad[..n]);
      Append(data);
      digest := Le32(abcd.a) + Le32(abcd.b) + Le32(abcd.c) + Le32(abcd.d);
    }

    method PadBytes() returns (pad: ByteString)
      ensures pad == [0x80] + Zeros(63)
    {
      pad := [0x80];
      while |pad| < 64
        invariant 1 <= |pad| <= 64 && pad == [0x80] + Zeros(|pad| - 1)
      {
        ZerosGrow(|pad| - 1);
        pad := pad + [0];
      }
    }

    // The length, byte by byte.
    method CountBytes() returns (data: ByteString)
      requires count1 as int * 0x1_0000_0000 + count0 as int == 8 * |message| % 0x1_0000_0000_0000_0000
      ensures data == Le64(8 * |message|)
    {
      hide Shifted, Le32;
      data := [];
      for i := 0 to 8
        invariant |data| == i
        invariant forall k :: 0 <= k < i ==> data[k] == Shifted(if k / 4 == 0 then count0 else count1, k % 4)
      {
        data := data + [Shifted(if i / 4 == 0 then count0 else count1, i % 4)];
      }
      WordBytes(count0);
      WordBytes(count1);
      var bits := 8 * |message|;
      assert count0 == bits % 0x1_0000_0000 && count1 == bits / 0x1_0000_0000 % 0x1_0000_0000;
      assert data[..4] == Le32(count0) && data[4..] == Le32(count1);
    }
  }

  // A word shifted right by a number of bytes, cut to a byte.
  function Shifted(n: uint32, bytes: nat): byte
    requires bytes < 4
  {
    if bytes == 0 then n % 0x100
    else if bytes == 1 then n / 0x100 % 0x100
    else if bytes == 2 then n / 0x1_0000 % 0x100
    else n / 0x100_0000 % 0x100
  }

  lemma WordBytes(n: uint32)
    ensures Le32(n) == [Shifted(n, 0), Shifted(n, 1), Shifted(n, 2), Shifted(n, 3)]
  {
  }

  lemma ZerosGrow(n: nat)
    ensures Zeros(n) + [0] == Zeros(n + 1)
  {
  }

  // The position in the block, from the low word of the bit count.
  lemma OffsetIsPosition(count0: uint32, count1: uint32, length: nat)
    requires count1 as int * 0x1_0000_0000 + count0 as int == 8 * length % 0x1_0000_0000_0000_0000
    ensures count0 / 8 % 64 == length % 64
  {
    var wraps := 8 * length / 0x1_0000_0000_0000_0000;
    assert 8 * length == wraps * 0x1_0000_0000_0000_0000 + count1 as int * 0x1_0000_0000 + count0 as int;
    assert count0 == 8 * (length - wraps * 0x2000_0000_0000_0000 - count1 as int * 0x2000_0000);
    assert count0 / 8 == length - 64 * (wraps * 0x80_0000_0000_0000 + count1 as int * 0x80_0000);
  }

  // The two words count 8 bits a byte modulo 2^64, carry included.
  lemma CountAdds(count0: uint32, count1: uint32, length: nat, nbytes: nat)
    requires count1 as int * 0x1_0000_0000 + count0 as int == 8 * length % 0x1_0000_0000_0000_0000
    requires nbytes < 0x8000_0000
    ensures var nbits := nbytes * 8 % 0x1_0000_0000;
            var low := (count0 + nbits) % 0x1_0000_0000;
            var carry := if low < nbits then 1 else 0;
            var high := ((count1 + nbytes / 0x2000_0000) % 0x1_0000_0000 + carry) % 0x1_0000_0000;
            high * 0x1_0000_0000 + low == 8 * (length + nbytes) % 0x1_0000_0000_0000_0000
  {
    var nbits := nbytes * 8 % 0x1_0000_0000;
    var low := (count0 + nbits) % 0x1_0000_0000;
    var carry := if low < nbits then 1 else 0;
    assert count0 + nbits == carry * 0x1_0000_0000 + low;
    assert 8 * nbytes == nbytes / 0x2000_0000 * 0x1_0000_0000 + nbits;
    var partly := count1 + nbytes / 0x2000_0000;
    var high := (partly % 0x1_0000_0000 + carry) % 0x1_0000_0000;
    CarriedOver(partly, carry, low, 8 * length / 0x1_0000_0000_0000_0000);
  }

  // What the high word drops is a multiple of 2^64.
  lemma CarriedOver(partly: nat, carry: nat, low: nat, wraps: nat)
    requires carry <= 1 && low < 0x1_0000_0000
    ensures ghost var high := (partly % 0x1_0000_0000 + carry) % 0x1_0000_0000;
            high * 0x1_0000_0000 + low
            == (wraps * 0x1_0000_0000_0000_0000 + (partly + carry) * 0x1_0000_0000 + low) % 0x1_0000_0000_0000_0000
  {
    var high := (partly % 0x1_0000_0000 + carry) % 0x1_0000_0000;
    var dropped := partly / 0x1_0000_0000 + (partly % 0x1_0000_0000 + carry) / 0x1_0000_0000;
    assert partly + carry == dropped * 0x1_0000_0000 + high;
    ModPlusMultiple(0x1_0000_0000_0000_0000, wraps + dropped, high * 0x1_0000_0000 + low);
  }

  lemma PadIsPadding(pad: ByteString, count0: uint32, length: nat)
    requires pad == [0x80] + Zeros(63) && count0 / 8 % 64 == length % 64
    ensures ghost var n := (55 - count0 / 8) % 0x1_0000_0000 % 64 + 1;
            n <= |pad| && pad[..n] == Padding(length)
  {
    ModTower(55 - count0 / 8);
    SameMod(count0 / 8, length);
    assert pad[..1] == [0x80];
  }

  lemma ModTower(x: int)
    ensures x % 0x1_0000_0000 % 64 == x % 64
  {
    assert x == 64 * (x / 0x1_0000_0000 * 0x400_0000) + x % 0x1_0000_0000;
  }

  lemma SameMod(a: int, b: int)
    requires a % 64 == b % 64
    ensures (55 - a) % 64 == (55 - b) % 64
  {
    assert a - b == 64 * (a / 64 - b / 64);
  }

  function Joined(pieces: seq<ByteString>): ByteString {
    if pieces == [] then [] else Joined(pieces[..|pieces| - 1]) + pieces[|pieces| - 1]
  }

  // However a message is split, the digest is that of the whole message.
  method DigestOfPieces(compress: Compression, pieces: seq<ByteString>) returns (digest: ByteString)
    requires forall piece :: piece in pieces ==> |piece| + 63 < 0x8000_0000
    ensures digest == Digest(compress, Joined(pieces))
  {
    hide Digest;
    var state := new Md5State(compress);
    for i := 0 to |pieces|
      invariant fresh(state) && fresh(state.buf) && state.Valid() && state.compress == compress
      invariant state.message == Joined(pieces[..i])
    {
      assert pieces[..i + 1][..i] == pieces[..i];
      state.Append(pieces[i]);
    }
    assert pieces[..|pieces|] == pieces;
    digest := state.Finish();
  }

  // ----- The bytes at their places: sections 3.2, 3.3 and 3.5 of RFC 1321 -----

  // The registers begin with these bytes, the low-order byte of each register first.
  lemma InitialBytes()
    ensures RegisterBytes(INITIAL) == [0x01, 0x23, 0x45, 0x67, 0x89, 0xab, 0xcd, 0xef,
                                       0xfe, 0xdc, 0xba, 0x98, 0x76, 0x54, 0x32, 0x10]
  {
  }

  // Each register gives four bytes of the digest, its low-order byte first.
  lemma RegistersInOrder(r: Registers)
    ensures ghost var b := RegisterBytes(r);
            && b[0] as int + 256 * b[1] as int + 65536 * b[2] as int + 16777216 * b[3] as int == r.a
            && b[4] as int + 256 * b[5] as int + 65536 * b[6] as int + 16777216 * b[7] as int == r.b
            && b[8] as int + 256 * b[9] as int + 65536 * b[10] as int + 16777216 * b[11] as int == r.c
            && b[12] as int + 256 * b[13] as int + 65536 * b[14] as int + 16777216 * b[15] as int == r.d
  {
    LowByteFirst(r.a);
    LowByteFirst(r.b);
    LowByteFirst(r.c);
    LowByteFirst(r.d);
  }

  lemma LowByteFirst(n: uint32)
    ensures ghost var b := Le32(n);
            b[0] as int + 256 * b[1] as int + 65536 * b[2] as int + 16777216 * b[3] as int == n
  {
    Le32RoundTrip(n);
  }

  // The number of bits is appended with its low-order word first, and the low-order byte first in each.
  lemma LengthInOrder(n: nat)
    requires n < 0x1_0000_0000_0000_0000
    ensures ghost var b := Le64(n);
            ghost var low := b[0] as int + 256 * b[1] as int + 65536 * b[2] as int + 16777216 * b[3] as int;
            ghost var high := b[4] as int + 256 * b[5] as int + 65536 * b[6] as int + 16777216 * b[7] as int;
            low + 4294967296 * high == n
  {
    LowByteFirst(n % 0x1_0000_0000);
    LowByteFirst(n / 0x1_0000_0000 % 0x1_0000_0000);
  }

  // A message is followed by a single one bit, zeros up to 56 bytes modulo 64, and its length in bits.
  lemma PaddedForm(message: ByteString)
    ensures ghost var p := Padded(message);
            ghost var n := |p| - 8;
            && |message| < n && n % 64 == 56 && n <= |message| + 64
            && p[..|message|] == message && p[|message|] == 128
            && (forall i :: |message| < i < n ==> p[i] == 0)
            && p[n..] == Le64(8 * |message|)
  {
    hide Le64;
  }
}
