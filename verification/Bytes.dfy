// Bytes, fixed-width integers and C strings.
module Bytes {
  type byte = b: int | 0 <= b < 0x100
  type uint32 = n: int | 0 <= n < 0x1_0000_0000
  type ByteString = seq<byte>

  // Little-endian and big-endian 32-bit fields.
  function Le32(n: uint32): (r: ByteString)
    ensures |r| == 4
  {
    [n % 0x100, n / 0x100 % 0x100, n / 0x1_0000 % 0x100, n / 0x100_0000]
  }

  function FromLe32(b: ByteString): uint32
    requires |b| == 4
  {
    b[0] as int + 0x100 * b[1] as int + 0x1_0000 * b[2] as int + 0x100_0000 * b[3] as int
  }

  function Be32(n: uint32): (r: ByteString)
    ensures |r| == 4
  {
    [n / 0x100_0000, n / 0x1_0000 % 0x100, n / 0x100 % 0x100, n % 0x100]
  }

  function FromBe32(b: ByteString): uint32
    requires |b| == 4
  {
    0x100_0000 * b[0] as int + 0x1_0000 * b[1] as int + 0x100 * b[2] as int + b[3] as int
  }

  type uint16 = n: int | 0 <= n < 0x1_0000

  function Be16(n: uint16): (r: ByteString)
    ensures |r| == 2
  {
    [n / 0x100, n % 0x100]
  }

  function FromBe16(b: ByteString): uint16
    requires |b| == 2
  {
    0x100 * b[0] as int + b[1] as int
  }

  lemma Le32RoundTrip(n: uint32)
    ensures FromLe32(Le32(n)) == n
  {
    assert n == n / 0x100_0000 * 0x100_0000 + n / 0x1_0000 % 0x100 * 0x1_0000 + n / 0x100 % 0x100 * 0x100 + n % 0x100;
  }

  lemma Be32RoundTrip(n: uint32)
    ensures FromBe32(Be32(n)) == n
  {
    assert n == n / 0x100_0000 * 0x100_0000 + n / 0x1_0000 % 0x100 * 0x1_0000 + n / 0x100 % 0x100 * 0x100 + n % 0x100;
  }

  lemma Be32OfField(b: ByteString)
    requires |b| == 4
    ensures Be32(FromBe32(b)) == b
  {
    var n: int := FromBe32(b);
    assert n / 0x100 == 0x1_0000 * b[0] as int + 0x100 * b[1] as int + b[2] as int;
    assert n / 0x1_0000 == 0x100 * b[0] as int + b[1] as int;
    assert n / 0x100_0000 == b[0] as int;
  }

  // n zero bytes.
  function Zeros(n: nat): (r: ByteString)
    ensures |r| == n
  {
    seq(n, _ => 0)
  }

  // The C string at the start of s: everything before the first NUL.
  function CString(s: ByteString): (r: ByteString)
    ensures 0 !in r && r <= s
  {
    if s == [] || s[0] == 0 then [] else [s[0]] + CString(s[1..])
  }

  // A C string ends at its first NUL, whatever follows.
  lemma {:induction false} CStringStops(s: ByteString, rest: ByteString)
    ensures CString(s + [0] + rest) == CString(s)
  {
    if s == [] {
      assert s + [0] + rest == [0] + rest;
    } else {
      assert (s + [0] + rest)[1..] == s[1..] + [0] + rest;
      CStringStops(s[1..], rest);
    }
  }

  lemma {:induction false} CStringWhole(s: ByteString)
    ensures CString(s) == s <==> 0 !in s
  {
    if s != [] && s[0] != 0 {
      assert s == [s[0]] + s[1..];
      CStringWhole(s[1..]);
    }
  }

  // The C string at an offset of a NUL-terminated pool does not change when the pool grows.
  lemma {:induction false} CStringInPool(pool: ByteString, more: ByteString, offset: nat)
    requires offset < |pool| && pool[|pool| - 1] == 0
    ensures CString((pool + more)[offset..]) == CString(pool[offset..])
  {
    var s := pool[offset..|pool| - 1];
    assert pool[offset..] == s + [0] + [];
    assert (pool + more)[offset..] == s + [0] + more;
    CStringStops(s, []);
    CStringStops(s, more);
  }
}
