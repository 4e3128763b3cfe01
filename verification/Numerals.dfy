// Numbers and their digits, most significant first.
module Numerals {
  import opened Arithmetic

  ghost predicate Below(digits: seq<int>, radix: nat) {
    forall i :: 0 <= i < |digits| ==> 0 <= digits[i] < radix
  }

  // The number that digits stand for, most significant first.
  function Number(digits: seq<int>, radix: nat): int {
    if digits == [] then 0 else Number(digits[..|digits| - 1], radix) * radix + digits[|digits| - 1]
  }

  lemma NumberGrows(digits: seq<int>, d: int, radix: nat)
    ensures Number(digits + [d], radix) == Number(digits, radix) * radix + d
  {
    assert (digits + [d])[..|digits|] == digits;
  }

  // Digits are determined by their number.
  lemma {:induction false} NumberDetermines(a: seq<int>, b: seq<int>, radix: nat)
    requires |a| == |b| && Below(a, radix) && Below(b, radix) && Number(a, radix) == Number(b, radix)
    ensures a == b
  {
    if a != [] {
      var n := |a| - 1;
      var x, y := Number(a[..n], radix), Number(b[..n], radix);
      DivModUnique(x * radix + a[n], radix, x, a[n]);
      DivModUnique(y * radix + b[n], radix, y, b[n]);
      NumberDetermines(a[..n], b[..n], radix);
      assert a == a[..n] + [a[n]];
      assert b == b[..n] + [b[n]];
    }
  }

  function Pow(radix: nat, n: nat): (r: nat)
    ensures radix > 0 ==> r > 0
  {
    if n == 0 then 1 else radix * Pow(radix, n - 1)
  }

  // More significant digits in front.
  lemma {:induction false} NumberOfConcat(a: seq<int>, b: seq<int>, radix: nat)
    ensures Number(a + b, radix) == Number(a, radix) * Pow(radix, |b|) + Number(b, radix)
    decreases |b|
  {
    hide Number;
    if b == [] {
      assert a + b == a;
      NumberOfNothing(radix);
    } else {
      var n := |b| - 1;
      var front, last := b[..n], b[n];
      NumberOfConcat(a, front, radix);
      assert a + b == (a + front) + [last];
      assert b == front + [last];
      NumberGrows(a + front, last, radix);
      NumberGrows(front, last, radix);
      Distributes(Number(a, radix), Pow(radix, n), Number(front, radix), radix);
    }
  }

  lemma NumberOfNothing(radix: nat)
    ensures Number([], radix) == 0
  {
  }

  lemma Distributes(a: int, p: int, b: int, radix: int)
    ensures (a * p + b) * radix == a * (radix * p) + b * radix
  {
  }

  lemma NumberOfDigit(d: int, radix: nat)
    ensures Number([d], radix) == d
  {
    NumberGrows([], d, radix);
    assert [] + [d] == [d];
  }

  lemma {:induction false} NumberIsBounded(digits: seq<int>, radix: nat)
    requires Below(digits, radix) && radix > 0
    ensures 0 <= Number(digits, radix) < Pow(radix, |digits|)
    decreases |digits|
  {
    if digits != [] {
      var n := |digits| - 1;
      NumberIsBounded(digits[..n], radix);
      OneMoreDigit(Number(digits[..n], radix), Pow(radix, n), digits[n], radix);
    }
  }

  lemma OneMoreDigit(x: int, p: int, d: int, radix: int)
    requires 0 <= x < p && 0 <= d < radix
    ensures 0 <= x * radix + d < radix * p
  {
    assert (x + 1) * radix <= p * radix;
  }
}
