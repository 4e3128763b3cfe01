// Searching in strings, as std::string does it, and the character classes of <ctype.h>.
module Strings {
  import opened Wrappers

  predicate IsSpace(c: char) {
    c == ' ' || 9 as char <= c <= 13 as char
  }

  // Exactly these characters are white space.
  lemma SpaceCharacters(c: char)
    ensures IsSpace(c) <==> c == ' ' || c == '\t' || c == '\n' || c == '\r' || c as int == 11 || c as int == 12
  {
  }

  lemma SmallLetters(c: char)
    ensures c in "abcdefghijklmnopqrstuvwxyz" <==> 'a' <= c <= 'z'
  {
  }

  lemma CapitalLetters(c: char)
    ensures c in "ABCDEFGHIJKLMNOPQRSTUVWXYZ" <==> 'A' <= c <= 'Z'
  {
  }

  lemma Digits(c: char)
    ensures c in "0123456789" <==> '0' <= c <= '9'
  {
  }

  predicate At(s: string, pattern: string, i: nat) {
    i + |pattern| <= |s| && s[i..i + |pattern|] == pattern
  }

  // std::string::find
  function Find(s: string, pattern: string, from: nat): (r: Option<nat>)
    ensures r.Some? ==> from <= r.value && At(s, pattern, r.value)
    ensures r.Some? ==> forall i: nat :: from <= i < r.value ==> !At(s, pattern, i)
    ensures r.None? ==> forall i: nat :: from <= i ==> !At(s, pattern, i)
    decreases |s| - from
  {
    if from + |pattern| > |s| then None
    else if At(s, pattern, from) then Some(from)
    else if from == |s| then None
    else Find(s, pattern, from + 1)
  }

  // The first position from `from` on that holds c, or the end.
  function Next(s: string, c: char, from: nat): (r: nat)
    requires from <= |s|
    ensures from <= r <= |s| && (r < |s| ==> s[r] == c) && forall i :: from <= i < r ==> s[i] != c
    decreases |s| - from
  {
    if from == |s| || s[from] == c then from else Next(s, c, from + 1)
  }
}
