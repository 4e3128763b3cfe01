// Libraries/pbxbuild/Sources/DerivedDataHash.cpp: the name of a directory of derived data.
module DerivedDataHashes {
  import opened Bytes
  import opened Numerals
  import opened Md5

  const LETTERS: nat := 14

  // The numbers of the letters of a text.
  function LetterNumbers(text: string): (r: seq<int>)
    ensures |r| == |text|
  {
    seq(|text|, i requires 0 <= i < |text| => text[i] as int - 'a' as int)
  }

  predicate AreLetters(text: string) {
    forall c :: c in text ==> 'a' <= c <= 'z'
  }

  // The text writes the halves of a digest, read as big-endian numbers, in base 26.
  ghost predicate IsHash(text: string, digest: ByteString) {
    && |text| == 2 * LETTERS && AreLetters(text) && |digest| == 16
    && Number(LetterNumbers(text[..LETTERS]), 26) == Number(digest[..8], 256)
    && Number(LetterNumbers(text[LETTERS..]), 26) == Number(digest[8..], 256)
  }

  lemma LetterNumbersAreBelow(text: string)
    requires AreLetters(text)
    ensures Below(LetterNumbers(text), 26)
  {
    forall i | 0 <= i < |text| ensures 0 <= LetterNumbers(text)[i] < 26 {
      assert text[i] in text;
    }
  }

  lemma SameLetters(a: string, b: string)
    requires LetterNumbers(a) == LetterNumbers(b)
    ensures a == b
  {
    forall i | 0 <= i < |a| ensures a[i] == b[i] {
      assert LetterNumbers(a)[i] == LetterNumbers(b)[i];
    }
  }

  // Nothing of the digest is lost.
  lemma HashDeterminesDigest(text: string, a: ByteString, b: ByteString)
    requires IsHash(text, a) && IsHash(text, b)
    ensures a == b
  {
    NumberDetermines(a[..8], b[..8], 256);
    NumberDetermines(a[8..], b[8..], 256);
    assert a == a[..8] + a[8..];
    assert b == b[..8] + b[8..];
  }

  // And the digest has one text.
  lemma DigestDeterminesHash(digest: ByteString, a: string, b: string)
    requires IsHash(a, digest) && IsHash(b, digest)
    ensures a == b
  {
    var n := LETTERS;
    assert forall c :: c in a[..n] ==> c in a;
    assert forall c :: c in a[n..] ==> c in a;
    assert forall c :: c in b[..n] ==> c in b;
    assert forall c :: c in b[n..] ==> c in b;
    LetterNumbersAreBelow(a[..n]);
    LetterNumbersAreBelow(b[..n]);
    LetterNumbersAreBelow(a[n..]);
    LetterNumbersAreBelow(b[n..]);
    NumberDetermines(LetterNumbers(a[..n]), LetterNumbers(b[..n]), 26);
    NumberDetermines(LetterNumbers(a[n..]), LetterNumbers(b[n..]), 26);
    SameLetters(a[..n], b[..n]);
    SameLetters(a[n..], b[n..]);
    assert a == a[..n] + a[n..];
    assert b == b[..n] + b[n..];
  }

  // Fourteen letters have room for any 64-bit number.
  lemma LettersSuffice()
    ensures Pow(256, 8) == 0x1_0000_0000_0000_0000 < Pow(26, LETTERS)
  {
    PowSteps(256, 2);
    PowSteps(256, 4);
    PowSteps(256, 6);
    PowSteps(256, 8);
    PowSteps(26, 2);
    PowSteps(26, 4);
    PowSteps(26, 6);
    PowSteps(26, 8);
    PowSteps(26, 10);
    PowSteps(26, 12);
    PowSteps(26, 14);
  }

  lemma PowSteps(radix: nat, n: nat)
    requires n >= 2
    ensures Pow(radix, 0) == 1 && Pow(radix, n) == radix * radix * Pow(radix, n - 2)
  {
    assert Pow(radix, n) == radix * (radix * Pow(radix, n - 2));
  }

  method ReadBigEndian8(bytes: ByteString) returns (v: nat)
    requires |bytes| == 8
    ensures v == Number(bytes, 256) && v < 0x1_0000_0000_0000_0000
  {
    hide Number, Pow;
    v := 0;
    var shift := 1;
    assert bytes[8..] == [];
    NumberOfNothing(256);
    assert Pow(256, 0) == 1 by {
      PowSteps(256, 2);
    }
    for i := 0 to 8
      invariant v == Number(bytes[8 - i..], 256) && shift == Pow(256, i)
    {
      // The bytes do not overlap, so that or-ing them together adds them.
      v := v + bytes[8 - i - 1] as int * shift;
      assert bytes[8 - i - 1..] == [bytes[8 - i - 1]] + bytes[8 - i..];
      NumberOfConcat([bytes[8 - i - 1]], bytes[8 - i..], 256);
      NumberOfDigit(bytes[8 - i - 1], 256);
      PowStep(256, i);
      shift := 256 * shift;
    }
    assert bytes[0..] == bytes;
    NumberIsBounded(bytes, 256);
    LettersSuffice();
  }

  lemma PowStep(radix: nat, n: nat)
    ensures Pow(radix, n + 1) == radix * Pow(radix, n)
  {
  }

  // The loop that writes one half, from its last letter to its first.
  method WriteHalf(hash: array<char>, first: nat, value: nat)
    requires first + LETTERS <= hash.Length && value < 0x1_0000_0000_0000_0000
    modifies hash
    ensures Number(LetterNumbers(hash[first..first + LETTERS]), 26) == value && AreLetters(hash[first..first + LETTERS])
    ensures forall i :: 0 <= i < hash.Length && !(first <= i < first + LETTERS) ==> hash[i] == old(hash[i])
  {
    hide Number, Pow;
    var v := value;
    var end := first + LETTERS;
    var counter: int := end - 1;
    assert hash[end..end] == [];
    assert LetterNumbers([]) == [];
    NumberOfNothing(26);
    assert Pow(26, 0) == 1 by {
      PowSteps(26, 2);
    }
    while counter >= first
      invariant first - 1 <= counter < end
      invariant AreLetters(hash[counter + 1..end]) && v >= 0
      invariant value == v * Pow(26, end - counter - 1) + Number(LetterNumbers(hash[counter + 1..end]), 26)
      invariant forall i :: 0 <= i < hash.Length && !(first <= i < end) ==> hash[i] == old(hash[i])
    {
      ghost var written := hash[counter + 1..end];
      var letter := ('a' as int + v % 26) as char;
      hash[counter] := letter;
      assert hash[counter + 1..end] == written;
      assert hash[counter..end] == [letter] + written;
      assert LetterNumbers([letter] + written) == [v % 26] + LetterNumbers(written);
      NumberOfConcat([v % 26], LetterNumbers(written), 26);
      NumberOfDigit(v % 26, 26);
      PowStep(26, |written|);
      OneLetter(v, Pow(26, |written|));
      v := v / 26;
      counter := counter - 1;
    }
    LettersSuffice();
    LetterNumbersAreBelow(hash[first..end]);
    NumberIsBounded(LetterNumbers(hash[first..end]), 26);
    NothingLeft(v, Pow(26, LETTERS), value);
  }

  lemma OneLetter(v: nat, p: nat)
    ensures v * p == v / 26 * (26 * p) + v % 26 * p
  {
    assert v == v / 26 * 26 + v % 26;
    assert (v / 26 * 26 + v % 26) * p == v / 26 * 26 * p + v % 26 * p;
  }

  lemma NothingLeft(v: nat, p: nat, value: nat)
    requires v * p <= value < p
    ensures v == 0
  {
    assert v >= 1 ==> v * p >= p;
  }

  // ComputeDerivedDataHash
  method ComputeDerivedDataHash(compress: Compression, path: ByteString) returns (hash: string)
    requires |path| + 63 < 0x8000_0000
    ensures IsHash(hash, Digest(compress, path))
  {
    hide Digest, Number;
    var state := new Md5State(compress);
    assert [] + path == path;
    state.Append(path);
    var digest := state.Finish();
    DigestLength(compress, path);
    var letters := new char[28];
    var first := ReadBigEndian8(digest[..8]);
    WriteHalf(letters, 0, first);
    ghost var half := letters[..14];
    var second := ReadBigEndian8(digest[8..16]);
    WriteHalf(letters, 14, second);
    assert letters[..14] == half;
    hash := letters[..];
    assert hash[..LETTERS] == half && hash[LETTERS..] == letters[14..28];
    assert digest[8..16] == digest[8..];
    assert hash == half + letters[14..28];
  }

  lemma DigestLength(compress: Compression, path: ByteString)
    ensures |Digest(compress, path)| == 16
  {
  }

  // Twenty-eight letters; the last of each half stands for what the half leaves over when divided by 26, `a` for 0.
  lemma LastLetters(text: string, digest: ByteString)
    requires IsHash(text, digest)
    ensures |text| == 28
    ensures text[13] as int == 'a' as int + Number(digest[..8], 256) % 26
    ensures text[27] as int == 'a' as int + Number(digest[8..], 256) % 26
  {
    assert forall c :: c in text[..14] ==> c in text;
    assert forall c :: c in text[14..] ==> c in text;
    LastLetter(text[..14]);
    LastLetter(text[14..]);
    assert text[..14][13] == text[13];
    assert text[14..][13] == text[27];
  }

  lemma LastDigit(front: int, digit: int)
    requires 0 <= digit < 26
    ensures (front * 26 + digit) % 26 == digit
  {
  }

  lemma LastLetter(text: string)
    requires text != [] && AreLetters(text)
    ensures text[|text| - 1] as int == 'a' as int + Number(LetterNumbers(text), 26) % 26
  {
    var n := |text| - 1;
    var numbers := LetterNumbers(text);
    assert text[n] in text;
    LastDigit(Number(numbers[..n], 26), numbers[n]);
  }
}
