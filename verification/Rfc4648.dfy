// Libraries/plist/Sources/rfc4648.c: the base 64, base 32 and base 16 encodings of RFC 4648.
module Rfc4648 {
  import opened Wrappers
  import opened Strings
  import opened Bytes
  import opened Arithmetic
  import opened Numerals

  datatype Encoding = Base64 | Base64Safe | Base32 | Base16 | Base16Lower

  // Bytes in a block, digits in a block, bits in a digit.
  function BlockSize(e: Encoding): nat {
    match e
    case Base64 => 3
    case Base64Safe => 3
    case Base32 => 5
    case _ => 1
  }

  function Width(e: Encoding): nat {
    match e
    case Base64 => 4
    case Base64Safe => 4
    case Base32 => 8
    case _ => 2
  }

  function Bits(e: Encoding): nat {
    match e
    case Base64 => 6
    case Base64Safe => 6
    case Base32 => 5
    case _ => 4
  }

  function Radix(e: Encoding): nat {
    match e
    case Base64 => 64
    case Base64Safe => 64
    case Base32 => 32
    case _ => 16
  }

  // rfc4648_get_encoded_size
  function EncodedSize(e: Encoding, size: nat): nat {
    match e
    case Base64 => (size + 2) / 3 * 4
    case Base64Safe => (size + 2) / 3 * 4
    case Base32 => (size + 4) / 5 * 8
    case _ => size * 2
  }

  // rfc4648_get_decoded_size
  function DecodedSize(e: Encoding, size: nat): nat {
    match e
    case Base64 => (size + 3) / 4 * 3
    case Base64Safe => (size + 3) / 4 * 3
    case Base32 => (size + 7) / 8 * 5
    case _ => (size + 1) / 2
  }

  // ----- Digits -----

  // The characters from `first` on.
  function Range(first: char, n: nat): (r: string)
    requires first as int + n <= 128
    ensures |r| == n && forall i :: 0 <= i < n ==> r[i] == (first as int + i) as char
  {
    seq(n, i requires 0 <= i < n => (first as int + i) as char)
  }

  const BASE64_ALPHABET: string := Range('A', 26) + Range('a', 26) + Range('0', 10) + "+/"
  const BASE64_ALPHABET_SAFE: string := Range('A', 26) + Range('a', 26) + Range('0', 10) + "-_"
  const BASE32_ALPHABET: string := Range('A', 26) + Range('2', 6)
  const BASE16_ALPHABET: string := Range('0', 10) + Range('A', 6)
  const BASE16_LOWER_ALPHABET: string := Range('0', 10) + Range('a', 6)

  function Alphabet(e: Encoding): (r: string)
    ensures |r| == Radix(e)
  {
    match e
    case Base64 => BASE64_ALPHABET
    case Base64Safe => BASE64_ALPHABET_SAFE
    case Base32 => BASE32_ALPHABET
    case Base16 => BASE16_ALPHABET
    case Base16Lower => BASE16_LOWER_ALPHABET
  }

  const PAD: int := -1
  const INVALID: int := -2

  // b64_to_int, b32_to_int and b16_to_int.
  function ToInt(e: Encoding, c: char): (r: int)
    ensures -2 <= r < Radix(e)
  {
    var n := c as int;
    match e
    case Base32 =>
      if 'A' <= c <= 'Z' then n - 'A' as int
      else if '2' <= c <= '7' then n - '2' as int + 26
      else if c == '=' then PAD
      else INVALID
    case Base16 => Nibble(c)
    case Base16Lower => Nibble(c)
    case _ =>
      if 'A' <= c <= 'Z' then n - 'A' as int
      else if 'a' <= c <= 'z' then n - 'a' as int + 26
      else if '0' <= c <= '9' then n - '0' as int + 52
      else if c == '+' || c == '-' then 62
      else if c == '/' || c == '_' then 63
      else if c == '=' then PAD
      else INVALID
  }

  function Nibble(c: char): (r: int)
    ensures -1 <= r < 16
  {
    var n := c as int;
    if '0' <= c <= '9' then n - '0' as int
    else if 'A' <= c <= 'F' then n - 'A' as int + 10
    else if 'a' <= c <= 'f' then n - 'a' as int + 10
    else PAD
  }

  lemma AlphabetReadsBack(e: Encoding, d: nat)
    requires d < Radix(e)
    ensures ToInt(e, Alphabet(e)[d]) == d && !IsSpace(Alphabet(e)[d])
  {
  }

  // ----- Blocks -----

  // The digits of a whole block: shifts and masks.
  function Digits64(a: byte, b: byte, c: byte): (r: seq<int>)
    ensures |r| == 4 && Below(r, 64)
  {
    [a / 4, a % 4 * 16 + b / 16, b % 16 * 4 + c / 64, c % 64]
  }

  function Digits32(a: byte, b: byte, c: byte, d: byte, e: byte): (r: seq<int>)
    ensures |r| == 8 && Below(r, 32)
  {
    [a / 8, a % 8 * 4 + b / 64, b % 64 / 2, b % 2 * 16 + c / 16, c % 16 * 2 + d / 128, d % 128 / 4, d % 4 * 8 + e / 32,
     e % 32]
  }

  function Digits16(a: byte): (r: seq<int>)
    ensures |r| == 2 && Below(r, 16)
  {
    [a / 16, a % 16]
  }

  function DigitsOf(e: Encoding, b: ByteString): (r: seq<int>)
    requires |b| == BlockSize(e)
    ensures |r| == Width(e) && Below(r, Radix(e))
  {
    match e
    case Base32 => Digits32(b[0], b[1], b[2], b[3], b[4])
    case Base16 => Digits16(b[0])
    case Base16Lower => Digits16(b[0])
    case _ => Digits64(b[0], b[1], b[2])
  }

  // The bytes of a whole block of digits.
  function Bytes64(d: seq<int>): (r: ByteString)
    requires |d| == 4 && Below(d, 64)
    ensures |r| == 3
  {
    [d[0] * 4 + d[1] / 16, d[1] % 16 * 16 + d[2] / 4, d[2] % 4 * 64 + d[3]]
  }

  function Bytes32(d: seq<int>): (r: ByteString)
    requires |d| == 8 && Below(d, 32)
    ensures |r| == 5
  {
    [d[0] * 8 + d[1] / 4, d[1] % 4 * 64 + d[2] * 2 + d[3] / 16, d[3] % 16 * 16 + d[4] / 2,
     d[4] % 2 * 128 + d[5] * 4 + d[6] / 8, d[6] % 8 * 32 + d[7]]
  }

  function Bytes16(d: seq<int>): (r: ByteString)
    requires |d| == 2 && Below(d, 16)
    ensures |r| == 1
  {
    [d[0] * 16 + d[1]]
  }

  function BytesOf(e: Encoding, d: seq<int>): (r: ByteString)
    requires |d| == Width(e) && Below(d, Radix(e))
    ensures |r| == BlockSize(e)
  {
    match e
    case Base32 => Bytes32(d)
    case Base16 => Bytes16(d)
    case Base16Lower => Bytes16(d)
    case _ => Bytes64(d)
  }

  lemma BytesOfDigits(e: Encoding, b: ByteString)
    requires |b| == BlockSize(e)
    ensures BytesOf(e, DigitsOf(e, b)) == b
  {
    hide Digits64, Digits32, Digits16, Bytes64, Bytes32, Bytes16;
    match e {
      case Base32 =>
        BytesOfDigits32(b[0], b[1], b[2], b[3], b[4]);
        assert b == [b[0], b[1], b[2], b[3], b[4]];
      case Base16 =>
        BytesOfDigits16(b[0]);
        assert b == [b[0]];
      case Base16Lower =>
        BytesOfDigits16(b[0]);
        assert b == [b[0]];
      case _ =>
        BytesOfDigits64(b[0], b[1], b[2]);
        assert b == [b[0], b[1], b[2]];
    }
  }

  lemma BytesOfDigits16(a: byte)
    ensures Bytes16(Digits16(a)) == [a]
  {
  }

  lemma BytesOfDigits64(a: byte, b: byte, c: byte)
    ensures Bytes64(Digits64(a, b, c)) == [a, b, c]
  {
    Block64(a, b, c);
  }

  lemma BytesOfDigits32(a: byte, b: byte, c: byte, d: byte, e: byte)
    ensures Bytes32(Digits32(a, b, c, d, e)) == [a, b, c, d, e]
  {
    Block32(a, b, c, d, e);
    var digits := Digits32(a, b, c, d, e);
    Reassembled32(digits, a, b, c, d, e);
  }

  lemma Reassembled32(digits: seq<int>, a: byte, b: byte, c: byte, d: byte, e: byte)
    requires |digits| == 8 && Below(digits, 32)
    requires digits[0] * 8 + digits[1] / 4 == a
    requires digits[1] % 4 * 64 + digits[2] * 2 + digits[3] / 16 == b
    requires digits[3] % 16 * 16 + digits[4] / 2 == c
    requires digits[4] % 2 * 128 + digits[5] * 4 + digits[6] / 8 == d
    requires digits[6] % 8 * 32 + digits[7] == e
    ensures Bytes32(digits) == [a, b, c, d, e]
  {
  }

  // A digit made of the end of one byte and the beginning of the next.
  lemma Straddles(high: nat, low: nat, m: nat)
    requires low < m
    ensures (high * m + low) / m == high && (high * m + low) % m == low
  {
    DivModUnique(high * m + low, m, high, low);
  }

  lemma Block64(a: byte, b: byte, c: byte)
    ensures ghost var x, y := a % 4 * 16 + b / 16, b % 16 * 4 + c / 64;
            && a / 4 * 4 + x / 16 == a
            && x % 16 * 16 + y / 4 == b
            && y % 4 * 64 + c % 64 == c
  {
    Straddles(a % 4, b / 16, 16);
    Straddles(b % 16, c / 64, 4);
  }

  lemma Block32(a: byte, b: byte, c: byte, d: byte, e: byte)
    ensures ghost var d1, d3 := a % 8 * 4 + b / 64, b % 2 * 16 + c / 16;
            ghost var d4, d6 := c % 16 * 2 + d / 128, d % 4 * 8 + e / 32;
            && a / 8 * 8 + d1 / 4 == a
            && d1 % 4 * 64 + b % 64 / 2 * 2 + d3 / 16 == b
            && d3 % 16 * 16 + d4 / 2 == c
            && d4 % 2 * 128 + d % 128 / 4 * 4 + d6 / 8 == d
            && d6 % 8 * 32 + e % 32 == e
  {
    Straddles(a % 8, b / 64, 4);
    Straddles(b % 2, c / 16, 16);
    Straddles(c % 16, d / 128, 2);
    Straddles(d % 4, e / 32, 8);
    Thirds(b);
    MiddleBits(d);
  }

  lemma Thirds(b: byte)
    ensures b / 64 * 64 + b % 64 / 2 * 2 + b % 2 == b
  {
  }

  lemma MiddleBits(d: byte)
    ensures d / 128 * 128 + d % 128 / 4 * 4 + d % 4 == d
  {
  }

  // Sections 4, 6 and 8 of RFC 4648: the digits of a block are its bits, in order.
  lemma DigitsAreTheSameBits(e: Encoding, b: ByteString)
    requires |b| == BlockSize(e)
    ensures Number(DigitsOf(e, b), Radix(e)) == Number(b, 256)
  {
    hide Number, Digits64, Digits32, Digits16;
    match e {
      case Base32 =>
        assert b == [b[0], b[1], b[2], b[3], b[4]];
        SameBits32(b[0], b[1], b[2], b[3], b[4]);
      case Base16 =>
        assert b == [b[0]];
        SameBits16(b[0]);
      case Base16Lower =>
        assert b == [b[0]];
        SameBits16(b[0]);
      case _ =>
        assert b == [b[0], b[1], b[2]];
        SameBits64(b[0], b[1], b[2]);
    }
  }

  lemma SameBits16(a: byte)
    ensures Number(Digits16(a), 16) == Number([a], 256)
  {
    hide Number;
    NumberOfTwo(a / 16, a % 16, 16);
    NumberOfDigit(a, 256);
  }

  lemma NumberOfTwo(a: int, b: int, radix: nat)
    ensures Number([a, b], radix) == a * radix + b
  {
    NumberOfDigit(a, radix);
    NumberGrows([a], b, radix);
    assert [a] + [b] == [a, b];
  }

  lemma NumberOfThree(a: int, b: int, c: int, radix: nat)
    ensures Number([a, b, c], radix) == (a * radix + b) * radix + c
  {
    NumberOfTwo(a, b, radix);
    NumberGrows([a, b], c, radix);
    assert [a, b] + [c] == [a, b, c];
  }

  lemma NumberOfFour(a: int, b: int, c: int, d: int, radix: nat)
    ensures Number([a, b, c, d], radix) == ((a * radix + b) * radix + c) * radix + d
  {
    NumberOfThree(a, b, c, radix);
    NumberGrows([a, b, c], d, radix);
    assert [a, b, c] + [d] == [a, b, c, d];
  }

  lemma NumberOfFive(a: int, b: int, c: int, d: int, e: int, radix: nat)
    ensures Number([a, b, c, d, e], radix) == (((a * radix + b) * radix + c) * radix + d) * radix + e
  {
    NumberOfFour(a, b, c, d, radix);
    NumberGrows([a, b, c, d], e, radix);
    assert [a, b, c, d] + [e] == [a, b, c, d, e];
  }

  lemma NumberOfEight(s: seq<int>, radix: nat)
    requires |s| == 8
    ensures Number(s, radix)
            == (((((((s[0] * radix + s[1]) * radix + s[2]) * radix + s[3]) * radix + s[4]) * radix + s[5]) * radix
                 + s[6]) * radix + s[7])
  {
    hide Number;
    NumberOfFive(s[0], s[1], s[2], s[3], s[4], radix);
    assert s[..5] == [s[0], s[1], s[2], s[3], s[4]];
    assert s[..6] == s[..5] + [s[5]];
    assert s[..7] == s[..6] + [s[6]];
    assert s == s[..7] + [s[7]];
    NumberGrows(s[..5], s[5], radix);
    NumberGrows(s[..6], s[6], radix);
    NumberGrows(s[..7], s[7], radix);
  }

  lemma SameBits64(a: byte, b: byte, c: byte)
    ensures Number(Digits64(a, b, c), 64) == Number([a, b, c], 256)
  {
    hide Number;
    NumberOfThree(a, b, c, 256);
    NumberOfFour(a / 4, a % 4 * 16 + b / 16, b % 16 * 4 + c / 64, c % 64, 64);
    Parts(a, 4);
    Parts(b, 16);
    Parts(c, 64);
  }

  lemma Parts(x: int, m: nat)
    requires m > 0
    ensures x / m * m + x % m == x
  {
  }

  lemma SameBits32(a: byte, b: byte, c: byte, d: byte, e: byte)
    ensures Number(Digits32(a, b, c, d, e), 32) == Number([a, b, c, d, e], 256)
  {
    hide Number;
    NumberOfFive(a, b, c, d, e, 256);
    NumberOfEight(Digits32(a, b, c, d, e), 32);
    SameNumber32(a / 8, a % 8, b / 64, b % 64 / 2, b % 2, c / 16, c % 16, d / 128, d % 128 / 4, d % 4, e / 32, e % 32);
    Parts(a, 8);
    Thirds(b);
    Parts(c, 16);
    MiddleBits(d);
    Parts(e, 32);
  }

  // Forty bits in eight digits, or in five bytes.
  lemma SameNumber32(a1: int, a0: int, b2: int, b1: int, b0: int, c1: int, c0: int, d2: int, d1: int, d0: int, e1: int,
                     e0: int)
    ensures ((((((a1 * 32 + (a0 * 4 + b2)) * 32 + b1) * 32 + (b0 * 16 + c1)) * 32 + (c0 * 2 + d2)) * 32 + d1) * 32
             + (d0 * 8 + e1)) * 32 + e0
            == ((((a1 * 8 + a0) * 256 + (b2 * 64 + b1 * 2 + b0)) * 256 + (c1 * 16 + c0)) * 256
                + (d2 * 128 + d1 * 4 + d0)) * 256
               + (e1 * 32 + e0)
  {
  }

  // ----- Encoding -----

  // A block of up to BlockSize bytes, filled up with zero bits.
  function Filled(e: Encoding, b: ByteString): (r: ByteString)
    requires |b| <= BlockSize(e)
    ensures |r| == BlockSize(e)
  {
    b + Zeros(BlockSize(e) - |b|)
  }

  // How many digits hold a number of bytes.
  function Needed(e: Encoding, bytes: nat): nat {
    (8 * bytes + Bits(e) - 1) / Bits(e)
  }

  // The digits of a block, with padding in place of digits that hold none of its bits.
  function Group(e: Encoding, b: ByteString): (r: string)
    requires |b| <= BlockSize(e)
    ensures |r| == Width(e)
  {
    seq(Width(e), i requires 0 <= i < Width(e) =>
      if i < Needed(e, |b|) then Alphabet(e)[DigitsOf(e, Filled(e, b))[i]] else '=')
  }

  function First(e: Encoding, data: ByteString): (n: nat)
    ensures n <= |data| && n <= BlockSize(e) && (data != [] ==> n > 0)
  {
    if |data| < BlockSize(e) then |data| else BlockSize(e)
  }

  function Encoded(e: Encoding, data: ByteString): string {
    if data == [] then "" else Group(e, data[..First(e, data)]) + Encoded(e, data[First(e, data)..])
  }

  lemma EncodedCons(e: Encoding, data: ByteString, n: nat)
    requires n < |data|
    ensures ghost var rest := data[n..];
            Encoded(e, rest) == Group(e, rest[..First(e, rest)]) + Encoded(e, data[n + First(e, rest)..])
  {
    var rest := data[n..];
    assert rest[First(e, rest)..] == data[n + First(e, rest)..];
  }

  // The encoded size is what rfc4648_get_encoded_size says.
  lemma {:induction false} EncodedLength(e: Encoding, data: ByteString)
    ensures |Encoded(e, data)| == EncodedSize(e, |data|)
    ensures |Encoded(e, data)| % Width(e) == 0
  {
    hide Group, EncodedSize;
    SizeStep(e, |data|);
    if data != [] {
      EncodedLength(e, data[First(e, data)..]);
    }
  }

  lemma SizeStep(e: Encoding, size: nat)
    ensures EncodedSize(e, 0) == 0 && EncodedSize(e, size) % Width(e) == 0
    ensures size > 0 ==>
              EncodedSize(e, size) == Width(e) + EncodedSize(e, if size < BlockSize(e) then 0 else size - BlockSize(e))
  {
    if size > 0 {
      BlocksStep(size, BlockSize(e));
    }
    match e {
      case Base32 => MultipleOf((size + 4) / 5, 8);
      case Base16 => MultipleOf(size, 2);
      case Base16Lower => MultipleOf(size, 2);
      case _ => MultipleOf((size + 2) / 3, 4);
    }
  }

  lemma BlocksStep(size: nat, k: nat)
    requires size > 0 && k > 0
    ensures (size + (k - 1)) / k == 1 + ((if size < k then 0 else size - k) + (k - 1)) / k
  {
    if size < k {
      DivModUnique(size + (k - 1), k, 1, size - 1);
      DivModUnique(k - 1, k, 0, k - 1);
    } else {
      var q, r := (size - 1) / k, (size - 1) % k;
      DivModUnique(size + (k - 1), k, q + 1, r);
      DivModUnique(size - 1, k, q, r);
    }
  }

  lemma MultipleOf(n: int, k: nat)
    requires k > 0
    ensures n * k % k == 0
  {
    DivModUnique(n * k, k, n, 0);
  }

  function Pads(n: nat): (r: string)
    ensures |r| == n && forall i :: 0 <= i < n ==> r[i] == '='
  {
    seq(n, i => '=')
  }

  // All that is left to write is padding up to a whole group.
  ghost predicate PadsTo(output: string, goal: string, width: nat) {
    && width > 0 && |goal| % width == 0 && |output| <= |goal| < |output| + width
    && goal == output + Pads(|goal| - |output|)
  }

  method PadOut(output: string, width: nat, ghost goal: string) returns (padded: string)
    requires PadsTo(output, goal, width)
    ensures padded == goal
  {
    padded := output;
    while |padded| % width != 0
      invariant PadsTo(padded, goal, width)
      decreases |goal| - |padded|
    {
      assert |padded| < |goal|;
      assert Pads(|goal| - |padded|) == ['='] + Pads(|goal| - |padded| - 1);
      padded := padded + "=";
    }
    SameGroup(|padded|, |goal|, width);
  }

  lemma SameGroup(a: nat, b: nat, width: nat)
    requires width > 0 && a % width == 0 && b % width == 0 && a <= b < a + width
    ensures a == b
  {
    var q, r := a / width, b / width;
    assert a == width * q && b == width * r;
    DivModUnique(b, width, q, b - a);
  }

  lemma Group64(e: Encoding, block: ByteString, a: byte, b: byte, c: byte)
    requires e.Base64? || e.Base64Safe?
    requires 1 <= |block| <= 3 && a == block[0] && b == (if |block| > 1 then block[1] else 0)
    requires c == (if |block| > 2 then block[2] else 0)
    ensures ghost var l, d := Alphabet(e), Digits64(a, b, c);
            Group(e, block) == if |block| == 1 then [l[d[0]], l[d[1]]] + Pads(2)
                               else if |block| == 2 then [l[d[0]], l[d[1]], l[d[2]]] + Pads(1)
                               else [l[d[0]], l[d[1]], l[d[2]], l[d[3]]]
  {
    hide Digits64, Alphabet;
    assert Filled(e, block) == [a, b, c];
    var l, d := Alphabet(e), Digits64(a, b, c);
    assert Needed(e, |block|) == |block| + 1;
    assert DigitsOf(e, Filled(e, block)) == d;
    var group := Group(e, block);
    assert group[0] == l[d[0]] && group[1] == l[d[1]];
    assert group[2] == if |block| > 1 then l[d[2]] else '=';
    assert group[3] == if |block| > 2 then l[d[3]] else '=';
  }

  method EncodeB64(safe: bool, input: ByteString) returns (output: string)
    ensures output == Encoded(if safe then Base64Safe else Base64, input)
  {
    hide Encoded, Group, Alphabet;
    ghost var e := if safe then Base64Safe else Base64;
    ghost var goal := Encoded(e, input);
    var alphabet := Alphabet(if safe then Base64Safe else Base64);
    EncodedLength(e, input);
    output := "";
    var n := 0;
    assert input[0..] == input;
    while n < |input|
      invariant 0 <= n <= |input|
      invariant output + Encoded(e, input[n..]) == goal
    {
      ghost var prefix := output;
      var hb := n + 1 < |input|;
      var hc := n + 2 < |input|;
      var a := input[n];
      var b := if hb then input[n + 1] else 0;
      var c := if hc then input[n + 2] else 0;
      ghost var block := input[n..][..First(e, input[n..])];
      EncodedCons(e, input, n);
      Group64(e, block, a, b, c);
      Digits64Are(a, b, c);
      output := output + [alphabet[a / 4]];
      output := output + [alphabet[a % 4 * 16 + b / 16]];
      if !hb {
        LastGroup(e, input, n + 1);
        assert goal == output + Pads(2);
        break;
      }
      output := output + [alphabet[b % 16 * 4 + c / 64]];
      if !hc {
        LastGroup(e, input, n + 2);
        assert goal == output + Pads(1);
        break;
      }
      output := output + [alphabet[c % 64]];
      assert output == prefix + Group(e, block);
      n := n + 3;
    }
    if n >= |input| {
      LastGroup(e, input, n);
      assert goal == output + Pads(0);
    }
    output := PadOut(output, 4, goal);
  }

  lemma Digits64Are(a: byte, b: byte, c: byte)
    ensures Digits64(a, b, c)[0] == a / 4 && Digits64(a, b, c)[1] == a % 4 * 16 + b / 16
    ensures Digits64(a, b, c)[2] == b % 16 * 4 + c / 64 && Digits64(a, b, c)[3] == c % 64
  {
  }

  lemma LastGroup(e: Encoding, input: ByteString, n: nat)
    requires n == |input|
    ensures Encoded(e, input[n..]) == ""
  {
  }

  // How many digits hold the bytes of a block of which only some are there.
  function Needed32(hb: bool, hc: bool, hd: bool, he: bool): nat {
    if !hb then 2 else if !hc then 4 else if !hd then 5 else if !he then 7 else 8
  }

  lemma Group32(block: ByteString, a: byte, b: byte, c: byte, d: byte, e: byte, digits: string)
    requires 1 <= |block| <= 5 && a == block[0]
    requires b == (if |block| > 1 then block[1] else 0) && c == (if |block| > 2 then block[2] else 0)
    requires d == (if |block| > 3 then block[3] else 0) && e == (if |block| > 4 then block[4] else 0)
    requires |digits| == Needed32(|block| > 1, |block| > 2, |block| > 3, |block| > 4)
    requires ghost var x := Digits32(a, b, c, d, e);
             forall i :: 0 <= i < |digits| ==> digits[i] == Alphabet(Base32)[x[i]]
    ensures Group(Base32, block) == digits + Pads(8 - |digits|)
  {
    hide Digits32, Alphabet;
    assert Filled(Base32, block) == [a, b, c, d, e];
    var x := Digits32(a, b, c, d, e);
    assert Needed(Base32, |block|) == |digits|;
    assert DigitsOf(Base32, Filled(Base32, block)) == x;
  }

  lemma Joins(prefix: string, digits: string, pads: string, rest: string)
    ensures prefix + ((digits + pads) + rest) == (prefix + digits) + (pads + rest)
    ensures pads + "" == pads && "" + rest == rest
  {
  }

  lemma Digits32Are(a: byte, b: byte, c: byte, d: byte, e: byte)
    ensures ghost var x := Digits32(a, b, c, d, e);
            && x[0] == a / 8 && x[1] == a % 8 * 4 + b / 64 && x[2] == b % 64 / 2 && x[3] == b % 2 * 16 + c / 16
            && x[4] == c % 16 * 2 + d / 128 && x[5] == d % 128 / 4 && x[6] == d % 4 * 8 + e / 32 && x[7] == e % 32
  {
  }

  // The digits of one block: writing stops after the last digit that holds a bit of the input.
  method WriteDigits32(alphabet: string, a: byte, b: byte, c: byte, d: byte, e: byte, hb: bool, hc: bool, hd: bool,
                       he: bool)
    returns (output: string, whole: bool)
    requires |alphabet| == 32
    ensures ghost var x := Digits32(a, b, c, d, e);
            ghost var n := Needed32(hb, hc, hd, he);
            |output| == n && (forall i :: 0 <= i < n ==> output[i] == alphabet[x[i]]) && (whole <==> n == 8)
  {
    hide Digits32;
    Digits32Are(a, b, c, d, e);
    whole := false;
    output := [alphabet[a / 8]];
    output := output + [alphabet[a % 8 * 4 + b / 64]];
    if !hb {
      return;
    }
    output := output + [alphabet[b % 64 / 2]];
    output := output + [alphabet[b % 2 * 16 + c / 16]];
    if !hc {
      return;
    }
    output := output + [alphabet[c % 16 * 2 + d / 128]];
    if !hd {
      return;
    }
    output := output + [alphabet[d % 128 / 4]];
    output := output + [alphabet[d % 4 * 8 + e / 32]];
    if !he {
      return;
    }
    output := output + [alphabet[e % 32]];
    whole := true;
  }

  // One iteration of the loop of encode_b32.
  method EncodeBlock32(alphabet: string, input: ByteString, n: nat) returns (digits: string, whole: bool)
    requires alphabet == Alphabet(Base32) && n < |input|
    ensures 2 <= |digits| <= 8 && (whole ==> n + 5 <= |input|)
    ensures Encoded(Base32, input[n..])
            == if whole then digits + Encoded(Base32, input[n + 5..]) else digits + Pads(8 - |digits|)
  {
    hide Encoded, Group, Alphabet, Digits32;
    var hb := n + 1 < |input|;
    var hc := n + 2 < |input|;
    var hd := n + 3 < |input|;
    var he := n + 4 < |input|;
    var a := input[n];
    var b := if hb then input[n + 1] else 0;
    var c := if hc then input[n + 2] else 0;
    var d := if hd then input[n + 3] else 0;
    var e := if he then input[n + 4] else 0;
    digits, whole := WriteDigits32(alphabet, a, b, c, d, e, hb, hc, hd, he);
    ghost var block := input[n..][..First(Base32, input[n..])];
    EncodedCons(Base32, input, n);
    Group32(block, a, b, c, d, e, digits);
    LastGroup(Base32, input, |input|);
    assert Pads(0) == "";
    Joins("", digits, Pads(8 - |digits|), Encoded(Base32, input[n + |block|..]));
  }

  method EncodeB32(input: ByteString) returns (output: string)
    ensures output == Encoded(Base32, input)
  {
    hide Encoded, Alphabet;
    ghost var goal := Encoded(Base32, input);
    var alphabet := Alphabet(Base32);
    EncodedLength(Base32, input);
    output := "";
    var n: nat := 0;
    assert input[0..] == input;
    var whole := true;
    while n < |input|
      invariant n <= |input| && whole
      invariant output + Encoded(Base32, input[n..]) == goal
    {
      ghost var prefix := output;
      var digits;
      digits, whole := EncodeBlock32(alphabet, input, n);
      output := output + digits;
      if !whole {
        assert output + Pads(8 - |digits|) == prefix + (digits + Pads(8 - |digits|));
        break;
      }
      assert output + Encoded(Base32, input[n + 5..]) == prefix + (digits + Encoded(Base32, input[n + 5..]));
      n := n + 5;
    }
    if whole {
      LastGroup(Base32, input, n);
      assert goal == output + Pads(0);
    }
    output := PadOut(output, 8, goal);
  }

  lemma Group16(e: Encoding, a: byte)
    requires e.Base16? || e.Base16Lower?
    ensures Group(e, [a]) == [Alphabet(e)[a / 16], Alphabet(e)[a % 16]]
  {
    hide Alphabet;
    assert Filled(e, [a]) == [a];
    assert DigitsOf(e, Filled(e, [a])) == [a / 16, a % 16];
    assert Needed(e, 1) == 2;
  }

  method EncodeB16(lcase: bool, input: ByteString) returns (output: string)
    ensures output == Encoded(if lcase then Base16Lower else Base16, input)
  {
    hide Encoded, Group, Alphabet;
    ghost var e := if lcase then Base16Lower else Base16;
    var alphabet := Alphabet(if lcase then Base16Lower else Base16);
    output := "";
    assert input[0..] == input;
    for n := 0 to |input|
      invariant output + Encoded(e, input[n..]) == Encoded(e, input)
    {
      EncodedCons(e, input, n);
      assert input[n..][..1] == [input[n]];
      Group16(e, input[n]);
      output := output + [alphabet[input[n] / 16]];
      output := output + [alphabet[input[n] % 16]];
    }
    LastGroup(e, input, |input|);
  }

  // rfc4648_encode
  method Encode(e: Encoding, input: ByteString) returns (output: string)
    ensures output == Encoded(e, input) && |output| == EncodedSize(e, |input|)
  {
    EncodedLength(e, input);
    match e {
      case Base64 =>
        output := EncodeB64(false, input);
      case Base64Safe =>
        output := EncodeB64(true, input);
      case Base32 =>
        output := EncodeB32(input);
      case Base16 =>
        output := EncodeB16(false, input);
      case Base16Lower =>
        output := EncodeB16(true, input);
    }
  }

  // ----- Decoding -----

  function Stripped(s: string): string {
    if s == "" then "" else (if IsSpace(s[0]) then "" else [s[0]]) + Stripped(s[1..])
  }

  predicate EndsInSpace(s: string) {
    s != "" && IsSpace(s[|s| - 1])
  }

  // The reader gives a zero byte at the end of the text.
  function CharAt(t: string, i: nat): char {
    if i < |t| then t[i] else 0 as char
  }

  function Rest(t: string, n: nat): string {
    if n <= |t| then t[n..] else ""
  }

  function Values(e: Encoding, t: string): (r: seq<int>)
    ensures |r| == Width(e) && forall i :: 0 <= i < |r| ==> -2 <= r[i] < Radix(e)
  {
    seq(Width(e), i requires 0 <= i < Width(e) => ToInt(e, CharAt(t, i)))
  }

  // The number of leading digits.
  function Leading(values: seq<int>): (n: nat)
    ensures n <= |values| && (n < |values| ==> values[n] < 0)
    ensures forall i :: 0 <= i < n ==> values[i] >= 0
  {
    if values == [] || values[0] < 0 then 0 else 1 + Leading(values[1..])
  }

  function Known(values: seq<int>): (r: seq<int>)
    ensures |r| == |values| && forall i :: 0 <= i < |r| ==> r[i] >= 0 && (r[i] == values[i] || r[i] == 0)
  {
    var n := Leading(values);
    seq(|values|, i requires 0 <= i < |values| => if i < n then values[i] else 0)
  }

  // The bytes that the leading digits of a group hold.
  function Partly(e: Encoding, values: seq<int>): ByteString
    requires |values| == Width(e) && forall i :: 0 <= i < |values| ==> values[i] < Radix(e)
  {
    var n := Leading(values) * Bits(e) / 8;
    var bytes := BytesOf(e, Known(values));
    if n <= |bytes| then bytes[..n] else bytes
  }

  // What strict decoding refuses in the last group: a single digit, or a character that is neither digit nor padding.
  // Base 16 has no padding.
  predicate Refused(e: Encoding, values: seq<int>) {
    if e.Base16? || e.Base16Lower? then Leading(values) < |values| else Leading(values) == 1 || INVALID in values
  }

  // Decoding a text without white space. `trailing` says that white space follows it; strict decoding then looks for
  // one more group.
  function DecodedFrom(e: Encoding, t: string, trailing: bool, recover: bool): (r: Option<ByteString>)
    ensures recover ==> r.Some?
    decreases |t|
  {
    if t == "" && !trailing then Some([])
    else
      var values := Values(e, t);
      if Leading(values) == Width(e) then
        AllDigits(e, t);
        match DecodedFrom(e, t[Width(e)..], trailing, recover)
        case None => None
        case Some(rest) => Some(BytesOf(e, values) + rest)
      else if !recover && Refused(e, values) then None
      else Some(Partly(e, values))
  }

  lemma AllDigits(e: Encoding, t: string)
    ensures |t| < Width(e) ==> Leading(Values(e, t)) < Width(e)
  {
    assert |t| < Width(e) ==> Values(e, t)[|t|] < 0;
  }

  function Decoded(e: Encoding, s: string, recover: bool): Option<ByteString> {
    DecodedFrom(e, Stripped(s), Trailing(s), recover)
  }

  // What a decoder writes into its output buffer, before it succeeds or fails: as much as recovering mode decodes.
  function Written(e: Encoding, s: string): ByteString {
    Decoded(e, s, true).value
  }

  predicate Trailing(s: string) {
    Stripped(s) != "" && EndsInSpace(s)
  }

  // ----- The reader -----

  lemma StrippedFrom(s: string, n: nat)
    requires n <= |s|
    ensures n == |s| ==> Stripped(s[n..]) == ""
    ensures n < |s| ==> Stripped(s[n..]) == (if IsSpace(s[n]) then "" else [s[n]]) + Stripped(s[n + 1..])
  {
    if n < |s| {
      assert s[n..][1..] == s[n + 1..];
    }
  }

  lemma {:induction false} OnlySpace(s: string)
    ensures Stripped(s) == "" && s != "" ==> EndsInSpace(s)
  {
    if Stripped(s) == "" && |s| > 1 {
      OnlySpace(s[1..]);
    }
  }

  method SeekNextNonspace(input: string, cursor: nat) returns (next: nat, found: bool)
    requires cursor <= |input|
    ensures cursor <= next <= |input| && (found <==> next < |input|)
    ensures Stripped(input[next..]) == Stripped(input[cursor..])
    ensures found <==> Stripped(input[cursor..]) != ""
    ensures found ==> !IsSpace(input[next])
  {
    hide Stripped;
    next := cursor;
    while next < |input|
      invariant cursor <= next <= |input| && Stripped(input[next..]) == Stripped(input[cursor..])
    {
      StrippedFrom(input, next);
      var c := input[next];
      if !IsSpace(c) {
        return next, true;
      }
      assert "" + Stripped(input[next + 1..]) == Stripped(input[next + 1..]);
      next := next + 1;
    }
    StrippedFrom(input, next);
    found := false;
  }

  method GetNextNonspace(input: string, cursor: nat) returns (c: char, next: nat)
    requires cursor <= |input|
    ensures cursor <= next <= |input|
    ensures c == CharAt(Stripped(input[cursor..]), 0)
    ensures Stripped(input[next..]) == Rest(Stripped(input[cursor..]), 1)
    ensures Stripped(input[cursor..]) != "" && EndsInSpace(input) ==> next < |input|
  {
    hide Stripped;
    var n, found := SeekNextNonspace(input, cursor);
    StrippedFrom(input, n);
    if found {
      c, next := input[n], n + 1;
      assert ([input[n]] + Stripped(input[n + 1..]))[1..] == Stripped(input[n + 1..]);
    } else {
      c, next := 0 as char, n;
    }
  }

  // Reading on through a stripped text.
  lemma RestOn(t: string, k: nat)
    ensures CharAt(Rest(t, k), 0) == CharAt(t, k) && Rest(Rest(t, k), 1) == Rest(t, k + 1)
    ensures Rest(t, 0) == t && (Rest(t, k) != "" <==> k < |t|)
  {
    if k < |t| {
      assert t[k..][1..] == t[k + 1..];
    }
  }

  // Where the reader stands before a group: at the end of the input exactly when the decoding is over.
  ghost predicate Stands(input: string, n: nat) {
    && n <= |input|
    && (n < |input| <==> Stripped(input[n..]) != "" || Trailing(input))
  }

  lemma StandsAfter(input: string, n: nat)
    requires n <= |input| && Stripped(input) != "" && (EndsInSpace(input) ==> n < |input|)
    ensures Stands(input, n)
  {
    hide Stripped;
    StrippedFrom(input, n);
    if n < |input| && Stripped(input[n..]) == "" {
      OnlySpace(input[n..]);
      assert input[n..][|input[n..]| - 1] == input[|input| - 1];
    }
  }

  // Something is left only where there was something.
  lemma {:induction false} StrippedWhole(input: string, n: nat)
    requires n <= |input|
    ensures Stripped(input[n..]) != "" ==> Stripped(input) != ""
  {
    hide Stripped;
    assert input[0..] == input;
    if n > 0 {
      StrippedFrom(input, n - 1);
      StrippedWhole(input, n - 1);
    }
  }

  // The bytes so far, and those of the rest.
  ghost predicate Decodes(e: Encoding, input: string, recover: bool, output: ByteString, n: nat)
    requires n <= |input|
  {
    var rest := DecodedFrom(e, Stripped(input[n..]), Trailing(input), recover);
    && Decoded(e, input, recover) == (if rest.None? then None else Some(output + rest.value))
    && Written(e, input) == output + DecodedFrom(e, Stripped(input[n..]), Trailing(input), true).value
  }

  // The last group: what of it is decoded, or nothing at all.
  lemma LastGroupDecodes(e: Encoding, input: string, recover: bool, output: ByteString, n: nat)
    requires n < |input| && Stands(input, n) && Decodes(e, input, recover, output, n)
    requires Leading(Values(e, Stripped(input[n..]))) < Width(e)
    ensures ghost var values := Values(e, Stripped(input[n..]));
            && Decoded(e, input, recover)
               == (if !recover && Refused(e, values) then None else Some(output + Partly(e, values)))
            && Written(e, input) == output + Partly(e, values)
  {
    hide Stripped, Values, Decoded, Written, Refused, Partly;
  }

  lemma WholeGroupDecodes(e: Encoding, input: string, recover: bool, output: ByteString, n: nat, next: nat)
    requires n < |input| && Stands(input, n) && Decodes(e, input, recover, output, n)
    requires Leading(Values(e, Stripped(input[n..]))) == Width(e) && n <= next <= |input|
    requires Stripped(input[next..]) == Rest(Stripped(input[n..]), Width(e))
    requires EndsInSpace(input) && |Stripped(input[n..])| >= Width(e) ==> next < |input|
    ensures Stands(input, next) && n < next
    ensures Below(Values(e, Stripped(input[n..])), Radix(e))
    ensures Decodes(e, input, recover, output + BytesOf(e, Values(e, Stripped(input[n..]))), next)
  {
    hide Stripped, Values, BytesOf, Decoded, Written;
    var t := Stripped(input[n..]);
    AllDigits(e, t);
    StrippedWhole(input, n);
    StandsAfter(input, next);
    var rest := DecodedFrom(e, t[Width(e)..], Trailing(input), recover);
    var all := DecodedFrom(e, t[Width(e)..], Trailing(input), true).value;
    var bytes := BytesOf(e, Values(e, t));
    assert output + bytes + all == output + (bytes + all);
    assert rest.Some? ==> output + bytes + rest.value == output + (bytes + rest.value);
  }

  lemma EndDecodes(e: Encoding, input: string, recover: bool, output: ByteString, n: nat)
    requires n == |input| && Stands(input, n) && Decodes(e, input, recover, output, n)
    ensures Decoded(e, input, recover) == Some(output) && Written(e, input) == output
  {
    hide Decoded, Written;
    StrippedFrom(input, n);
    assert output + [] == output;
  }

  lemma BeginDecodes(e: Encoding, input: string, recover: bool, n: nat)
    requires n <= |input| && Stripped(input[n..]) == Stripped(input) && (n < |input| <==> Stripped(input) != "")
    ensures Stands(input, n) && Decodes(e, input, recover, [], n)
  {
    hide Stripped;
    var r := Decoded(e, input, recover);
    assert [] + Written(e, input) == Written(e, input);
    assert r.Some? ==> [] + r.value == r.value;
  }

  // decode_b16
  method DecodeB16(input: string, recover: bool) returns (result: Option<ByteString>, output: ByteString)
    ensures result == Decoded(Base16, input, recover) && output == Written(Base16, input)
  {
    hide Stripped, Stands, Decodes, Decoded, Written, DecodedFrom, Values, Nibble;
    output := [];
    assert input[0..] == input;
    var n, found := SeekNextNonspace(input, 0);
    BeginDecodes(Base16, input, recover, n);
    while n < |input|
      invariant n <= |input| && Stands(input, n) && Decodes(Base16, input, recover, output, n)
      decreases |input| - n
    {
      ghost var t := Stripped(input[n..]);
      var c0, n1 := GetNextNonspace(input, n);
      var c1, n2 := GetNextNonspace(input, n1);
      var a, b := Nibble(c0), Nibble(c1);
      RestOn(t, 0);
      RestOn(t, 1);
      Values16(t);
      if a < 0 || b < 0 {
        LastGroupDecodes(Base16, input, recover, output, n);
        Partly16(a, b);
        assert output + [] == output;
        if recover {
          return Some(output), output;
        } else {
          return None, output;
        }
      }
      WholeGroupDecodes(Base16, input, recover, output, n, n2);
      output := output + [a * 16 + b];
      n := n2;
    }
    EndDecodes(Base16, input, recover, output, n);
    return Some(output), output;
  }

  lemma Values16(t: string)
    ensures Values(Base16, t) == [Nibble(CharAt(t, 0)), Nibble(CharAt(t, 1))]
  {
  }

  lemma Partly16(a: int, b: int)
    requires -2 <= a < 16 && -2 <= b < 16 && (a < 0 || b < 0)
    ensures Leading([a, b]) < 2 && Partly(Base16, [a, b]) == [] && Refused(Base16, [a, b])
  {
    hide BytesOf;
    assert [a, b][1..] == [b];
  }

  predicate AnyInvalid(values: seq<int>) {
    INVALID in values
  }

  lemma Values64(e: Encoding, t: string)
    requires e.Base64? || e.Base64Safe?
    ensures Values(e, t)
            == [ToInt(e, CharAt(t, 0)), ToInt(e, CharAt(t, 1)), ToInt(e, CharAt(t, 2)), ToInt(e, CharAt(t, 3))]
  {
    hide ToInt;
  }

  lemma Leading4(a: int, b: int, c: int, d: int)
    ensures Leading([a, b, c, d])
            == if a < 0 then 0 else if b < 0 then 1 else if c < 0 then 2 else if d < 0 then 3 else 4
  {
    hide Leading;
    LeadingIs([a, b, c, d], if a < 0 then 0 else if b < 0 then 1 else if c < 0 then 2 else if d < 0 then 3 else 4);
  }

  lemma LeadingIs(values: seq<int>, n: nat)
    requires n <= |values| && (forall i :: 0 <= i < n ==> values[i] >= 0) && (n < |values| ==> values[n] < 0)
    ensures Leading(values) == n
  {
  }

  // The bytes and the verdict of a last group of four.
  lemma Partly64(e: Encoding, a: int, b: int, c: int, d: int)
    requires e.Base64? || e.Base64Safe?
    requires -2 <= a < 64 && -2 <= b < 64 && -2 <= c < 64 && -2 <= d < 64
    ensures a < 0 || b < 0 ==> Partly(e, [a, b, c, d]) == []
    ensures a >= 0 && b >= 0 && c < 0 ==> Partly(e, [a, b, c, d]) == [a * 4 + b / 16]
    ensures a >= 0 && b >= 0 && c >= 0 && d < 0 ==> Partly(e, [a, b, c, d]) == [a * 4 + b / 16, b % 16 * 16 + c / 4]
    ensures Refused(e, [a, b, c, d]) <==> (a >= 0 && b < 0) || AnyInvalid([a, b, c, d])
  {
    Leading4(a, b, c, d);
    hide Bytes64;
    var values := [a, b, c, d];
    var known := Known(values);
    Bytes64Are(known);
    assert |known| == 4;
    if a >= 0 && b >= 0 {
      assert known[0] == a && known[1] == b && known[2] == (if c >= 0 then c else 0);
    }
  }

  lemma Bytes64Are(d: seq<int>)
    requires |d| == 4 && Below(d, 64)
    ensures Bytes64(d) == [d[0] * 4 + d[1] / 16, d[1] % 16 * 16 + d[2] / 4, d[2] % 4 * 64 + d[3]]
  {
  }

  lemma Whole64(e: Encoding, a: int, b: int, c: int, d: int)
    requires e.Base64? || e.Base64Safe?
    requires 0 <= a < 64 && 0 <= b < 64 && 0 <= c < 64 && 0 <= d < 64
    ensures BytesOf(e, [a, b, c, d]) == [a * 4 + b / 16, b % 16 * 16 + c / 4, c % 4 * 64 + d]
  {
  }

  // What an iteration of decode_b64 writes for a group, one byte after another as long as there are digits.
  method WriteGroup64(e: Encoding, a: int, b: int, c: int, d: int) returns (output: ByteString)
    requires e.Base64? || e.Base64Safe?
    requires -2 <= a < 64 && -2 <= b < 64 && -2 <= c < 64 && -2 <= d < 64
    ensures Leading([a, b, c, d]) < 4 ==> output == Partly(e, [a, b, c, d])
    ensures Leading([a, b, c, d]) == 4 ==> Below([a, b, c, d], 64) && output == BytesOf(e, [a, b, c, d])
  {
    hide Partly, BytesOf, Leading;
    Partly64(e, a, b, c, d);
    Leading4(a, b, c, d);
    output := [];
    if a < 0 || b < 0 {
      return;
    }
    output := output + [a * 4 + b / 16];
    if c < 0 {
      return;
    }
    output := output + [b % 16 * 16 + c / 4];
    if d < 0 {
      return;
    }
    output := output + [c % 4 * 64 + d];
    Whole64(e, a, b, c, d);
  }

  // decode_b64
  method DecodeB64(e: Encoding, input: string, recover: bool) returns (result: Option<ByteString>, output: ByteString)
    requires e.Base64? || e.Base64Safe?
    ensures result == Decoded(e, input, recover) && output == Written(e, input)
  {
    hide Stripped, Stands, Decodes, Decoded, Written, DecodedFrom, Values, ToInt, Partly, Refused, BytesOf, Leading;
    output := [];
    assert input[0..] == input;
    var a, b, c, d := 0, 0, 0, 0;
    var n, found := SeekNextNonspace(input, 0);
    BeginDecodes(e, input, recover, n);
    var whole := true;
    while n < |input|
      invariant n <= |input| && Stands(input, n) && Decodes(e, input, recover, output, n)
      invariant whole && a >= 0 && b >= 0 && c >= 0 && d >= 0
      decreases |input| - n
    {
      var next;
      a, b, c, d, next := ReadFour(e, input, n);
      Leading4(a, b, c, d);
      Partly64(e, a, b, c, d);
      var written := WriteGroup64(e, a, b, c, d);
      whole := a >= 0 && b >= 0 && c >= 0 && d >= 0;
      if !whole {
        LastGroupDecodes(e, input, recover, output, n);
        if a >= 0 && b < 0 && !recover {
          assert output + [] == output;
          return None, output;
        }
        output := output + written;
        break;
      }
      WholeGroupDecodes(e, input, recover, output, n, next);
      output := output + written;
      n := next;
    }
    if whole {
      EndDecodes(e, input, recover, output, n);
    }
    if (a == -2 || b == -2 || c == -2 || d == -2) && !recover {
      return None, output;
    }
    return Some(output), output;
  }

  // The four reads of one iteration.
  method ReadFour(e: Encoding, input: string, n: nat) returns (a: int, b: int, c: int, d: int, next: nat)
    requires n <= |input| && (e.Base64? || e.Base64Safe?)
    ensures n <= next <= |input|
    ensures Values(e, Stripped(input[n..])) == [a, b, c, d]
    ensures -2 <= a < 64 && -2 <= b < 64 && -2 <= c < 64 && -2 <= d < 64
    ensures Stripped(input[next..]) == Rest(Stripped(input[n..]), 4)
    ensures EndsInSpace(input) && |Stripped(input[n..])| >= 4 ==> next < |input|
  {
    hide Stripped, Values, ToInt;
    ghost var t := Stripped(input[n..]);
    RestOn(t, 0);
    RestOn(t, 1);
    RestOn(t, 2);
    RestOn(t, 3);
    Values64(e, t);
    var ch;
    ch, next := GetNextNonspace(input, n);
    a := ToInt(e, ch);
    ch, next := GetNextNonspace(input, next);
    b := ToInt(e, ch);
    ch, next := GetNextNonspace(input, next);
    c := ToInt(e, ch);
    ch, next := GetNextNonspace(input, next);
    d := ToInt(e, ch);
  }

  // The eight reads of one iteration of decode_b32.
  method ReadEight(input: string,
                   n: nat) returns (a: int, b: int, c: int, d: int, e: int, f: int, g: int, h: int, next: nat)
    requires n <= |input|
    ensures n <= next <= |input|
    ensures Values(Base32, Stripped(input[n..])) == [a, b, c, d, e, f, g, h]
    ensures Stripped(input[next..]) == Rest(Stripped(input[n..]), 8)
    ensures EndsInSpace(input) && |Stripped(input[n..])| >= 8 ==> next < |input|
  {
    hide Stripped, Values, ToInt;
    ghost var t := Stripped(input[n..]);
    forall k: nat
      ensures CharAt(Rest(t, k), 0) == CharAt(t, k) && Rest(Rest(t, k), 1) == Rest(t, k + 1)
      ensures Rest(t, k) != "" <==> k < |t|
    {
      RestOn(t, k);
    }
    RestOn(t, 0);
    Values32(t);
    var ch;
    ch, next := GetNextNonspace(input, n);
    a := ToInt(Base32, ch);
    ch, next := GetNextNonspace(input, next);
    b := ToInt(Base32, ch);
    ch, next := GetNextNonspace(input, next);
    c := ToInt(Base32, ch);
    ch, next := GetNextNonspace(input, next);
    d := ToInt(Base32, ch);
    ch, next := GetNextNonspace(input, next);
    e := ToInt(Base32, ch);
    ch, next := GetNextNonspace(input, next);
    f := ToInt(Base32, ch);
    ch, next := GetNextNonspace(input, next);
    g := ToInt(Base32, ch);
    ch, next := GetNextNonspace(input, next);
    h := ToInt(Base32, ch);
  }

  lemma Values32(t: string)
    ensures Values(Base32, t)
            == [ToInt(Base32, CharAt(t, 0)), ToInt(Base32, CharAt(t, 1)), ToInt(Base32, CharAt(t, 2)),
                ToInt(Base32, CharAt(t, 3)), ToInt(Base32, CharAt(t, 4)), ToInt(Base32, CharAt(t, 5)),
                ToInt(Base32, CharAt(t, 6)), ToInt(Base32, CharAt(t, 7))]
  {
    hide ToInt;
  }

  function LeadingOfEight(v: seq<int>): (n: nat)
    requires |v| == 8
    ensures n == Leading(v)
  {
    hide Leading;
    var n := if v[0] < 0 then 0 else if v[1] < 0 then 1 else if v[2] < 0 then 2 else if v[3] < 0 then 3
             else if v[4] < 0 then 4 else if v[5] < 0 then 5 else if v[6] < 0 then 6 else if v[7] < 0 then 7 else 8;
    LeadingIs(v, n);
    n
  }

  // What an iteration of decode_b32 writes for a group, one byte after another as long as there are digits.
  method WriteGroup32(v: seq<int>) returns (output: ByteString)
    requires |v| == 8 && forall i :: 0 <= i < 8 ==> -2 <= v[i] < 32
    ensures Leading(v) < 8 ==> output == Partly(Base32, v)
    ensures Leading(v) == 8 ==> Below(v, 32) && output == BytesOf(Base32, v)
  {
    hide Partly, BytesOf;
    Partly32(v);
    ghost var n := LeadingOfEight(v);
    output := [];
    if v[0] < 0 || v[1] < 0 {
      return;
    }
    output := output + [v[0] * 8 + v[1] / 4];
    if v[2] < 0 || v[3] < 0 {
      return;
    }
    output := output + [v[1] % 4 * 64 + v[2] * 2 + v[3] / 16];
    if v[4] < 0 {
      return;
    }
    output := output + [v[3] % 16 * 16 + v[4] / 2];
    if v[5] < 0 || v[6] < 0 {
      return;
    }
    output := output + [v[4] % 2 * 128 + v[5] * 4 + v[6] / 8];
    if v[7] < 0 {
      return;
    }
    output := output + [v[6] % 8 * 32 + v[7]];
  }

  lemma Partly32(v: seq<int>)
    requires |v| == 8 && forall i :: 0 <= i < 8 ==> -2 <= v[i] < 32
    ensures ghost var n := Leading(v);
            ghost var k := if n < 2 then 0 else if n < 4 then 1 else if n < 5 then 2 else if n < 7 then 3
                           else if n < 8 then 4 else 5;
            && (n < 8 ==> |Partly(Base32, v)| == k)
            && (n < 8 && k > 0 ==> Partly(Base32, v)[0] == v[0] * 8 + v[1] / 4)
            && (n < 8 && k > 1 ==> Partly(Base32, v)[1] == v[1] % 4 * 64 + v[2] * 2 + v[3] / 16)
            && (n < 8 && k > 2 ==> Partly(Base32, v)[2] == v[3] % 16 * 16 + v[4] / 2)
            && (n < 8 && k > 3 ==> Partly(Base32, v)[3] == v[4] % 2 * 128 + v[5] * 4 + v[6] / 8)
    ensures Leading(v) == 8 ==>
              && Below(v, 32)
              && BytesOf(Base32, v)
                 == [v[0] * 8 + v[1] / 4, v[1] % 4 * 64 + v[2] * 2 + v[3] / 16, v[3] % 16 * 16 + v[4] / 2,
                     v[4] % 2 * 128 + v[5] * 4 + v[6] / 8, v[6] % 8 * 32 + v[7]]
  {
    hide Leading, Bytes32;
    var known := Known(v);
    Bytes32Are(known);
    if Leading(v) == 8 {
      assert known == v;
    }
  }

  lemma Bytes32Are(d: seq<int>)
    requires |d| == 8 && Below(d, 32)
    ensures Bytes32(d) == [d[0] * 8 + d[1] / 4, d[1] % 4 * 64 + d[2] * 2 + d[3] / 16, d[3] % 16 * 16 + d[4] / 2,
                           d[4] % 2 * 128 + d[5] * 4 + d[6] / 8, d[6] % 8 * 32 + d[7]]
  {
  }

  // decode_b32
  method DecodeB32(input: string, recover: bool) returns (result: Option<ByteString>, output: ByteString)
    ensures result == Decoded(Base32, input, recover) && output == Written(Base32, input)
  {
    hide Stripped, Stands, Decodes, Decoded, Written, DecodedFrom, Values, ToInt, Partly, BytesOf, Leading;
    output := [];
    assert input[0..] == input;
    var a, b, c, d, e, f, g, h := 0, 0, 0, 0, 0, 0, 0, 0;
    var n, found := SeekNextNonspace(input, 0);
    BeginDecodes(Base32, input, recover, n);
    var whole := true;
    while n < |input|
      invariant n <= |input| && Stands(input, n) && Decodes(Base32, input, recover, output, n)
      invariant whole && a >= 0 && b >= 0 && c >= 0 && d >= 0 && e >= 0 && f >= 0 && g >= 0 && h >= 0
      decreases |input| - n
    {
      var next;
      a, b, c, d, e, f, g, h, next := ReadEight(input, n);
      var values := [a, b, c, d, e, f, g, h];
      ghost var leading := LeadingOfEight(values);
      var written := WriteGroup32(values);
      whole := a >= 0 && b >= 0 && c >= 0 && d >= 0 && e >= 0 && f >= 0 && g >= 0 && h >= 0;
      if !whole {
        LastGroupDecodes(Base32, input, recover, output, n);
        if a >= 0 && b < 0 && !recover {
          Partly32(values);
          assert output + [] == output;
          return None, output;
        }
        output := output + written;
        break;
      }
      WholeGroupDecodes(Base32, input, recover, output, n, next);
      output := output + written;
      n := next;
    }
    if whole {
      EndDecodes(Base32, input, recover, output, n);
    }
    if (a == -2 || b == -2 || c == -2 || d == -2 || e == -2 || f == -2 || g == -2 || h == -2) && !recover {
      return None, output;
    }
    return Some(output), output;
  }

  // rfc4648_decode. `output` is what was written to the caller's buffer, on failure too; it never exceeds the announced
  // size.
  method Decode(e: Encoding, input: string, recover: bool) returns (result: Option<ByteString>, output: ByteString)
    ensures result == Decoded(e, input, recover) && output == Written(e, input)
    ensures result.Some? ==> result.value == output
    ensures |output| <= DecodedSize(e, |input|)
  {
    hide Decoded;
    Base16Decodes(input, recover);
    Base16Decodes(input, true);
    DecodedIsWritten(e, input, recover);
    DecodedFits(e, input);
    match e {
      case Base32 =>
        result, output := DecodeB32(input, recover);
      case Base16 =>
        result, output := DecodeB16(input, recover);
      case Base16Lower =>
        result, output := DecodeB16(input, recover);
      case _ =>
        result, output := DecodeB64(e, input, recover);
    }
  }

  // Success means the same bytes in both modes.
  lemma DecodedIsWritten(e: Encoding, s: string, recover: bool)
    ensures Decoded(e, s, recover).Some? ==> Decoded(e, s, recover).value == Written(e, s)
  {
    hide Stripped, DecodedFrom;
    ModesAgree(e, Stripped(s), Trailing(s), recover);
  }

  lemma {:induction false} ModesAgree(e: Encoding, t: string, trailing: bool, recover: bool)
    ensures DecodedFrom(e, t, trailing, recover).Some? ==>
              DecodedFrom(e, t, trailing, recover) == DecodedFrom(e, t, trailing, true)
    decreases |t|
  {
    hide Values, BytesOf, Refused, Partly;
    AllDigits(e, t);
    if Leading(Values(e, t)) == Width(e) {
      ModesAgree(e, t[Width(e)..], trailing, recover);
    }
  }

  // Both kinds of base 16 are decoded the same way.
  lemma Base16Decodes(input: string, recover: bool)
    ensures Decoded(Base16Lower, input, recover) == Decoded(Base16, input, recover)
  {
    SameBase16(Stripped(input), Trailing(input), recover);
  }

  lemma {:induction false} SameBase16(t: string, trailing: bool, recover: bool)
    ensures DecodedFrom(Base16Lower, t, trailing, recover) == DecodedFrom(Base16, t, trailing, recover)
    decreases |t|
  {
    assert Values(Base16Lower, t) == Values(Base16, t);
    AllDigits(Base16, t);
    if Leading(Values(Base16, t)) == 2 {
      SameBase16(t[2..], trailing, recover);
    }
  }

  // ----- Round trip -----

  // The digits beyond those that a partial block needs are zero.
  lemma UnneededDigits(e: Encoding, b: ByteString, i: nat)
    requires 1 <= |b| <= BlockSize(e) && Needed(e, |b|) <= i < Width(e)
    ensures DigitsOf(e, Filled(e, b))[i] == 0
  {
    hide Digits32, Digits64, Digits16;
    var f := Filled(e, b);
    assert forall j :: |b| <= j < |f| ==> f[j] == 0;
    match e {
      case Base32 =>
        Unneeded32(f, |b|, i);
      case Base16 =>
      case Base16Lower =>
      case _ =>
        Unneeded64(f, |b|, i);
    }
  }

  lemma Unneeded64(f: ByteString, m: nat, i: nat)
    requires |f| == 3 && 1 <= m < 3 && m < i < 4 && forall j :: m <= j < 3 ==> f[j] == 0
    ensures Digits64(f[0], f[1], f[2])[i] == 0
  {
    hide Digits64;
    Digits64Are(f[0], f[1], f[2]);
    assert f[2] == 0;
    if m == 1 {
      assert f[1] == 0;
    }
  }

  lemma Unneeded32(f: ByteString, m: nat, i: nat)
    requires |f| == 5 && 1 <= m <= 5 && (8 * m + 4) / 5 <= i < 8 && forall j :: m <= j < 5 ==> f[j] == 0
    ensures Digits32(f[0], f[1], f[2], f[3], f[4])[i] == 0
  {
    hide Digits32;
    var a, b, c, d, e := f[0], f[1], f[2], f[3], f[4];
    Digits32Are(a, b, c, d, e);
    ZeroDigits(b, c, d, e);
    if m == 1 {
      assert b == 0 && c == 0 && d == 0 && e == 0;
    } else if m == 2 {
      assert c == 0 && d == 0 && e == 0;
    } else if m == 3 {
      assert d == 0 && e == 0;
    } else {
      assert e == 0;
    }
  }

  lemma ZeroDigits(b: byte, c: byte, d: byte, e: byte)
    ensures b == 0 ==> b % 64 / 2 == 0
    ensures b == 0 && c == 0 ==> b % 2 * 16 + c / 16 == 0
    ensures c == 0 && d == 0 ==> c % 16 * 2 + d / 128 == 0
    ensures d == 0 ==> d % 128 / 4 == 0
    ensures d == 0 && e == 0 ==> d % 4 * 8 + e / 32 == 0
    ensures e == 0 ==> e % 32 == 0
  {
  }

  lemma NeededFits(e: Encoding, m: nat)
    requires 1 <= m <= BlockSize(e)
    ensures 2 <= Needed(e, m) <= Width(e) && (Needed(e, m) == Width(e) <==> m == BlockSize(e))
    ensures Needed(e, m) * Bits(e) / 8 == m
  {
  }

  // The characters of a group are read as its digits, and its padding as padding.
  lemma ValuesOfGroup(e: Encoding, b: ByteString, rest: string)
    requires 1 <= |b| <= BlockSize(e)
    ensures ghost var values := Values(e, Group(e, b) + rest);
            ghost var digits := DigitsOf(e, Filled(e, b));
            && Leading(values) == Needed(e, |b|)
            && Known(values) == digits
            && (|b| == BlockSize(e) ==> values == digits)
            && INVALID !in values
  {
    hide Alphabet, ToInt, DigitsOf, Needed, Leading;
    var values := Values(e, Group(e, b) + rest);
    var digits := DigitsOf(e, Filled(e, b));
    var n := Needed(e, |b|);
    NeededFits(e, |b|);
    forall i | 0 <= i < Width(e)
      ensures i < n ==> values[i] == digits[i]
      ensures i >= n ==> values[i] < 0 && values[i] != INVALID && digits[i] == 0
    {
      if i < n {
        AlphabetReadsBack(e, digits[i]);
      } else {
        UnneededDigits(e, b, i);
        PadIsPad(e);
      }
    }
    LeadingIs(values, n);
  }

  lemma PadIsPad(e: Encoding)
    ensures ToInt(e, '=') == PAD && !IsSpace('=')
  {
  }

  lemma {:induction false} DecodedOfEncoded(e: Encoding, data: ByteString, recover: bool)
    ensures DecodedFrom(e, Encoded(e, data), false, recover) == Some(data)
    decreases |data|
  {
    hide Group, Values, DigitsOf, BytesOf, Leading, Known, Needed, Filled;
    if data != [] {
      var n := First(e, data);
      var block, rest := data[..n], data[n..];
      var text := Encoded(e, data);
      assert text[Width(e)..] == Encoded(e, rest);
      ValuesOfGroup(e, block, Encoded(e, rest));
      NeededFits(e, n);
      BytesOfDigits(e, Filled(e, block));
      FilledBegins(e, block);
      if n == BlockSize(e) {
        DecodedOfEncoded(e, rest, recover);
        assert data == block + rest;
      } else {
        assert block == data;
      }
    }
  }

  lemma FilledBegins(e: Encoding, b: ByteString)
    requires |b| <= BlockSize(e)
    ensures Filled(e, b)[..|b|] == b && (|b| == BlockSize(e) ==> Filled(e, b) == b)
  {
  }

  lemma {:induction false} EncodedHasNoSpace(e: Encoding, data: ByteString)
    ensures Stripped(Encoded(e, data)) == Encoded(e, data)
    decreases |data|
  {
    if data != [] {
      hide Group;
      var n := First(e, data);
      EncodedHasNoSpace(e, data[n..]);
      GroupHasNoSpace(e, data[..n]);
      StrippedOfConcat(Group(e, data[..n]), Encoded(e, data[n..]));
    }
  }

  lemma GroupHasNoSpace(e: Encoding, b: ByteString)
    requires |b| <= BlockSize(e)
    ensures Stripped(Group(e, b)) == Group(e, b)
  {
    hide Alphabet, DigitsOf, IsSpace;
    forall i | 0 <= i < Width(e) ensures !IsSpace(Group(e, b)[i]) {
      AlphabetReadsBack(e, DigitsOf(e, Filled(e, b))[i]);
      PadIsPad(e);
    }
    NoSpaces(Group(e, b));
  }

  lemma {:induction false} NoSpaces(s: string)
    requires forall i :: 0 <= i < |s| ==> !IsSpace(s[i])
    ensures Stripped(s) == s
  {
    if s != "" {
      NoSpaces(s[1..]);
    }
  }

  lemma {:induction false} StrippedOfConcat(a: string, b: string)
    ensures Stripped(a + b) == Stripped(a) + Stripped(b)
  {
    hide IsSpace;
    if a == "" {
      assert a + b == b;
    } else {
      assert (a + b)[0] == a[0] && (a + b)[1..] == a[1..] + b;
      StrippedOfConcat(a[1..], b);
    }
  }

  lemma {:induction false} StrippedHasNoSpace(s: string)
    ensures forall i :: 0 <= i < |Stripped(s)| ==> !IsSpace(Stripped(s)[i])
    ensures Stripped(Stripped(s)) == Stripped(s)
    ensures |Stripped(s)| <= |s|
  {
    if s != "" {
      StrippedHasNoSpace(s[1..]);
      NoSpaces(Stripped(s));
    }
  }

  // Every byte string, in every encoding, strict or not: decoding what was encoded.
  lemma RoundTrip(e: Encoding, data: ByteString, recover: bool)
    ensures Decoded(e, Encoded(e, data), recover) == Some(data)
  {
    hide Encoded, DecodedFrom, Stripped, IsSpace;
    var text := Encoded(e, data);
    EncodedHasNoSpace(e, data);
    StrippedHasNoSpace(text);
    DecodedOfEncoded(e, data, recover);
  }

  // ----- White space -----

  // White space anywhere does not change what is decoded in recovering mode.
  lemma WhiteSpaceRecovers(e: Encoding, s: string)
    ensures Decoded(e, s, true) == Decoded(e, Stripped(s), true)
  {
    hide Stripped, IsSpace, DecodedFrom;
    StrippedHasNoSpace(s);
    TrailingRecovers(e, Stripped(s));
  }

  lemma {:induction false} TrailingRecovers(e: Encoding, t: string)
    ensures DecodedFrom(e, t, true, true) == DecodedFrom(e, t, false, true)
    decreases |t|
  {
    hide Values, Partly, BytesOf;
    AllDigits(e, t);
    EmptyValues(e);
    if Leading(Values(e, t)) == Width(e) {
      TrailingRecovers(e, t[Width(e)..]);
    }
  }

  lemma EmptyValues(e: Encoding)
    ensures Leading(Values(e, "")) == 0 && Leading(Values(e, "")) < Width(e)
    ensures Partly(e, Values(e, "")) == [] && Refused(e, Values(e, ""))
  {
    hide BytesOf, Leading;
    var values := Values(e, "");
    assert values[0] == ToInt(e, 0 as char) && values[0] < 0;
    LeadingIs(values, 0);
    assert !e.Base16? && !e.Base16Lower? ==> values[0] == INVALID;
  }

  // Nothing but whole groups of digits.
  predicate WholeGroups(e: Encoding, t: string)
    decreases |t|
  {
    t == "" || (AllDigits(e, t); Leading(Values(e, t)) == Width(e) && WholeGroups(e, t[Width(e)..]))
  }

  // Strict decoding ignores white space too, except after a last group without padding, where it fails.
  lemma WhiteSpaceStrict(e: Encoding, s: string)
    ensures Decoded(e, s, false)
            == if Trailing(s) && WholeGroups(e, Stripped(s)) then None else Decoded(e, Stripped(s), false)
  {
    hide Stripped, IsSpace, DecodedFrom, WholeGroups;
    StrippedHasNoSpace(s);
    TrailingStrict(e, Stripped(s));
  }

  lemma {:induction false} TrailingStrict(e: Encoding, t: string)
    ensures DecodedFrom(e, t, true, false) == if WholeGroups(e, t) then None else DecodedFrom(e, t, false, false)
    decreases |t|
  {
    hide Values, Partly, BytesOf, Refused;
    AllDigits(e, t);
    EmptyValues(e);
    if Leading(Values(e, t)) == Width(e) {
      TrailingStrict(e, t[Width(e)..]);
    }
  }

  // ----- Size -----

  // Decoding writes at most rfc4648_get_decoded_size bytes, whether it succeeds or fails.
  lemma DecodedFits(e: Encoding, s: string)
    ensures |Written(e, s)| <= DecodedSize(e, |s|)
  {
    hide Stripped, IsSpace, DecodedFrom;
    StrippedHasNoSpace(s);
    DecodedFromFits(e, Stripped(s), Trailing(s));
    MoreFits(e, |Stripped(s)|, |s|);
  }

  lemma MoreFits(e: Encoding, m: nat, n: nat)
    requires m <= n
    ensures DecodedSize(e, m) <= DecodedSize(e, n)
  {
  }

  lemma {:induction false} DecodedFromFits(e: Encoding, t: string, trailing: bool)
    ensures |DecodedFrom(e, t, trailing, true).value| <= DecodedSize(e, |t|)
    decreases |t|
  {
    hide Values, BytesOf, Refused, DecodedSize, Partly;
    AllDigits(e, t);
    GroupSizes(e, |t|);
    if Leading(Values(e, t)) == Width(e) {
      DecodedFromFits(e, t[Width(e)..], trailing);
    } else {
      PartlyFits(e, t);
    }
  }

  lemma GroupSizes(e: Encoding, n: nat)
    ensures n >= Width(e) ==> DecodedSize(e, n) == BlockSize(e) + DecodedSize(e, n - Width(e))
  {
    if n >= Width(e) {
      BlocksStep(n, Width(e));
    }
  }

  lemma PartlyFits(e: Encoding, t: string)
    requires Leading(Values(e, t)) < Width(e)
    ensures |Partly(e, Values(e, t))| <= DecodedSize(e, |t|)
  {
    hide BytesOf, ToInt, Leading;
    var values := Values(e, t);
    var n := Leading(values);
    if n > 0 && n > |t| {
      NoDigitAtEnd(e, t, n - 1);
      assert false;
    }
  }

  lemma NoDigitAtEnd(e: Encoding, t: string, i: nat)
    requires |t| <= i < Width(e)
    ensures Values(e, t)[i] < 0
  {
  }

  // ----- The alphabets: tables 1 to 3 of RFC 4648, and section 8 -----

  lemma Base64Digits(d: nat)
    requires d < 64
    ensures d < 26 ==> Alphabet(Base64)[d] as int == 'A' as int + d
    ensures 26 <= d < 52 ==> Alphabet(Base64)[d] as int == 'a' as int + (d - 26)
    ensures 52 <= d < 62 ==> Alphabet(Base64)[d] as int == '0' as int + (d - 52)
    ensures Alphabet(Base64)[62] == '+' && Alphabet(Base64)[63] == '/'
    ensures Alphabet(Base64Safe)[d] == if d == 62 then '-' else if d == 63 then '_' else Alphabet(Base64)[d]
  {
  }

  lemma OtherDigits(d: nat)
    ensures d < 26 ==> Alphabet(Base32)[d] as int == 'A' as int + d
    ensures 26 <= d < 32 ==> Alphabet(Base32)[d] as int == '2' as int + (d - 26)
    ensures d < 10 ==> Alphabet(Base16)[d] == Alphabet(Base16Lower)[d] == ('0' as int + d) as char
    ensures 10 <= d < 16 ==> Alphabet(Base16)[d] == ('A' as int + (d - 10)) as char
    ensures 10 <= d < 16 ==> Alphabet(Base16Lower)[d] == ('a' as int + (d - 10)) as char
  {
  }

  // How many padding characters a last block of so many bytes gets.
  function Pads64(bytes: nat): nat {
    if bytes == 1 then 2 else if bytes == 2 then 1 else 0
  }

  function Pads32(bytes: nat): nat {
    if bytes == 1 then 6 else if bytes == 2 then 4 else if bytes == 3 then 3 else if bytes == 4 then 1 else 0
  }

  lemma PaddingOfGroup(b: ByteString)
    ensures 1 <= |b| <= 3 ==>
              forall i :: 0 <= i < 4 ==> (Group(Base64, b)[i] == '=' <==> i >= 4 - Pads64(|b|))
    ensures 1 <= |b| <= 5 ==>
              forall i :: 0 <= i < 8 ==> (Group(Base32, b)[i] == '=' <==> i >= 8 - Pads32(|b|))
  {
    hide Alphabet, DigitsOf, Needed;
    NeededTable();
    if 1 <= |b| <= 3 {
      forall i | 0 <= i < 4
        ensures Group(Base64, b)[i] == '=' <==> i >= 4 - Pads64(|b|)
      {
        NoPadDigit(Base64, DigitsOf(Base64, Filled(Base64, b))[i]);
      }
    }
    if 1 <= |b| <= 5 {
      forall i | 0 <= i < 8
        ensures Group(Base32, b)[i] == '=' <==> i >= 8 - Pads32(|b|)
      {
        NoPadDigit(Base32, DigitsOf(Base32, Filled(Base32, b))[i]);
      }
    }
  }

  lemma NeededTable()
    ensures forall n :: 1 <= n <= 3 ==> Needed(Base64, n) == 4 - Pads64(n)
    ensures forall n :: 1 <= n <= 5 ==> Needed(Base32, n) == 8 - Pads32(n)
  {
  }

  lemma NoPadDigit(e: Encoding, d: nat)
    requires d < Radix(e)
    ensures Alphabet(e)[d] != '='
  {
    AlphabetReadsBack(e, d);
    assert ToInt(e, '=') < 0;
  }

  // ----- What strict decoding refuses -----

  // Base 64 digits of both alphabets, base 32 digits in capitals, base 16 digits in either case.
  predicate IsDigit(e: Encoding, c: char) {
    match e
    case Base32 => 'A' <= c <= 'Z' || '2' <= c <= '7'
    case Base16 => '0' <= c <= '9' || 'A' <= c <= 'F' || 'a' <= c <= 'f'
    case Base16Lower => '0' <= c <= '9' || 'A' <= c <= 'F' || 'a' <= c <= 'f'
    case _ => 'A' <= c <= 'Z' || 'a' <= c <= 'z' || '0' <= c <= '9' || c in "+/-_"
  }

  lemma DigitsExactly(e: Encoding, c: char)
    ensures ToInt(e, c) >= 0 <==> IsDigit(e, c)
    ensures !e.Base16? && !e.Base16Lower? ==> (ToInt(e, c) == INVALID <==> !IsDigit(e, c) && c != '=')
  {
  }

  // How many digits a text begins with.
  function DigitRun(e: Encoding, t: string): (n: nat)
    ensures n <= |t| && (forall i :: 0 <= i < n ==> IsDigit(e, t[i])) && (n < |t| ==> !IsDigit(e, t[n]))
  {
    if t == "" || !IsDigit(e, t[0]) then 0 else 1 + DigitRun(e, t[1..])
  }

  // The group after the whole ones is refused: in base 16 always, otherwise when it has a single digit, or is cut
  // short, or holds a character that is neither digit nor padding.
  ghost predicate LastGroupRefused(e: Encoding, t: string, from: nat) {
    || e.Base16? || e.Base16Lower?
    || DigitRun(e, t) == from + 1
    || exists i: nat :: from <= i < from + Width(e) && IsAlien(e, t, i)
  }

  // Neither digit nor padding, or nothing at all.
  ghost predicate IsAlien(e: Encoding, t: string, i: nat) {
    i >= |t| || (!IsDigit(e, t[i]) && t[i] != '=')
  }

  // Strict decoding fails exactly on texts that go on behind their whole groups of digits, with characters or with
  // white space, and whose next group is refused.
  lemma StrictRefusesExactly(e: Encoding, s: string)
    ensures ghost var t := Stripped(s);
            ghost var from := DigitRun(e, t) / Width(e) * Width(e);
            Decoded(e, s, false).None? <==> (from < |t| || Trailing(s)) && LastGroupRefused(e, t, from)
  {
    hide DecodedFrom, Stripped, LastGroupRefused;
    TextRefusedExactly(e, Stripped(s), Trailing(s));
  }

  lemma {:induction false} TextRefusedExactly(e: Encoding, t: string, trailing: bool)
    ensures ghost var from := DigitRun(e, t) / Width(e) * Width(e);
            DecodedFrom(e, t, trailing, false).None? <==> (from < |t| || trailing) && LastGroupRefused(e, t, from)
    decreases |t|
  {
    hide Values, BytesOf, Refused, Partly, LastGroupRefused, DigitRun;
    var w := Width(e);
    var n := DigitRun(e, t);
    AllDigits(e, t);
    LeadingIsRun(e, t);
    if n >= w {
      TextRefusedExactly(e, t[w..], trailing);
      RunBehind(e, t);
      GroupsBehind(n, w);
      RefusedBehind(e, t, (n - w) / w * w);
    } else {
      WholeNumber(n, w);
      RefusedIsLastGroup(e, t);
    }
  }

  // The leading digits of a group are those of the text, as far as the group goes.
  lemma LeadingIsRun(e: Encoding, t: string)
    ensures Leading(Values(e, t)) == if DigitRun(e, t) < Width(e) then DigitRun(e, t) else Width(e)
  {
    hide ToInt, Leading;
    var n := if DigitRun(e, t) < Width(e) then DigitRun(e, t) else Width(e);
    var values := Values(e, t);
    forall i | 0 <= i < Width(e)
      ensures values[i] >= 0 <==> i < |t| && IsDigit(e, t[i])
    {
      DigitsExactly(e, CharAt(t, i));
    }
    LeadingIs(values, n);
  }

  lemma RunBehind(e: Encoding, t: string)
    requires DigitRun(e, t) >= Width(e)
    ensures DigitRun(e, t[Width(e)..]) == DigitRun(e, t) - Width(e)
  {
    RunIs(e, t[Width(e)..], DigitRun(e, t) - Width(e));
  }

  lemma {:induction false} RunIs(e: Encoding, t: string, n: nat)
    requires n <= |t| && (forall i :: 0 <= i < n ==> IsDigit(e, t[i])) && (n < |t| ==> !IsDigit(e, t[n]))
    ensures DigitRun(e, t) == n
  {
    hide IsDigit;
    if n > 0 {
      RunIs(e, t[1..], n - 1);
    }
  }

  lemma GroupsBehind(n: nat, w: nat)
    requires n >= w > 0
    ensures n / w * w == (n - w) / w * w + w
  {
    DivModUnique(n, w, (n - w) / w + 1, (n - w) % w);
  }

  lemma WholeNumber(n: nat, w: nat)
    requires n < w
    ensures n / w * w == 0
  {
  }

  lemma RefusedBehind(e: Encoding, t: string, from: nat)
    requires DigitRun(e, t) >= Width(e)
    ensures LastGroupRefused(e, t, from + Width(e)) <==> LastGroupRefused(e, t[Width(e)..], from)
  {
    hide IsDigit, DigitRun, IsAlien;
    RunBehind(e, t);
    var w := Width(e);
    var u := t[w..];
    forall i: nat
      ensures IsAlien(e, u, i) <==> IsAlien(e, t, i + w)
    {
      AlienBehind(e, t, w, i);
    }
    if i: nat :| from + w <= i < from + w + w && IsAlien(e, t, i) {
      assert IsAlien(e, u, i - w);
    }
    if i: nat :| from <= i < from + w && IsAlien(e, u, i) {
      assert IsAlien(e, t, i + w);
    }
  }

  lemma AlienBehind(e: Encoding, t: string, w: nat, i: nat)
    requires w <= |t|
    ensures IsAlien(e, t[w..], i) <==> IsAlien(e, t, i + w)
  {
  }

  lemma RefusedIsLastGroup(e: Encoding, t: string)
    requires DigitRun(e, t) < Width(e)
    ensures Refused(e, Values(e, t)) <==> LastGroupRefused(e, t, 0)
  {
    hide ToInt, Leading, IsDigit, DigitRun;
    LeadingIsRun(e, t);
    var values := Values(e, t);
    if !e.Base16? && !e.Base16Lower? {
      forall i: nat | i < Width(e)
        ensures values[i] == INVALID <==> IsAlien(e, t, i)
      {
        DigitsExactly(e, CharAt(t, i));
        NoCharacter(e);
      }
      if INVALID in values {
        var i: nat :| i < |values| && values[i] == INVALID;
        assert IsAlien(e, t, i);
      }
      if i: nat :| 0 <= i < Width(e) && IsAlien(e, t, i) {
        assert values[i] == INVALID;
      }
    }
  }

  lemma NoCharacter(e: Encoding)
    ensures !IsDigit(e, 0 as char) && 0 as char != '='
  {
  }
}
