// Libraries/pbxsetting/Sources/Value.cpp: build setting expressions, their parser and their printer.
module SettingValues {
  import opened Wrappers
  import opened Strings

  datatype Entry = Text(text: string) | Reference(value: Value)

  datatype Value = Value(entries: seq<Entry>)

  datatype Delimiter = NoDelimiter | Parentheses | Braces | Identifier

  datatype Parsed = Parsed(end: nat, entries: seq<Entry>)

  // ----- Printing -----

  function RawEntry(e: Entry): string {
    match e
    case Text(text) => text
    case Reference(value) => "$(" + RawEntries(value.entries) + ")"
  }

  function RawEntries(entries: seq<Entry>): string {
    if entries == [] then "" else RawEntry(entries[0]) + RawEntries(entries[1..])
  }

  lemma {:induction false} RawOfConcat(a: seq<Entry>, b: seq<Entry>)
    ensures RawEntries(a + b) == RawEntries(a) + RawEntries(b)
  {
    hide RawEntry;
    if a == [] {
      assert a + b == b;
    } else {
      assert (a + b)[0] == a[0];
      RawOfConcat(a[1..], b);
      assert (a + b)[1..] == a[1..] + b;
      Associative(RawEntry(a[0]), RawEntries(a[1..]), RawEntries(b));
    }
  }

  method Raw(v: Value) returns (out: string)
    ensures out == RawEntries(v.entries)
    decreases v
  {
    out := "";
    for i := 0 to |v.entries|
      invariant out == RawEntries(v.entries[..i])
    {
      match v.entries[i] {
        case Text(text) =>
          out := out + text;
        case Reference(value) =>
          var inner := Raw(value);
          out := out + "$(" + inner + ")";
      }
      assert v.entries[..i + 1] == v.entries[..i] + [v.entries[i]];
      RawOfConcat(v.entries[..i], [v.entries[i]]);
      assert RawEntries([v.entries[i]]) == RawEntry(v.entries[i]);
    }
    assert v.entries[..|v.entries|] == v.entries;
  }

  // ----- Searching -----

  predicate IsIdentifier(c: char) {
    'a' <= c <= 'z' || 'A' <= c <= 'Z' || '0' <= c <= '9' || c == '_'
  }

  // Exactly these characters belong to a bare name.
  lemma IdentifierCharacters(c: char)
    ensures IsIdentifier(c)
            <==> || c in "abcdefghijklmnopqrstuvwxyz" || c in "ABCDEFGHIJKLMNOPQRSTUVWXYZ"
                 || c in "0123456789" || c == '_'
  {
    SmallLetters(c);
    CapitalLetters(c);
    Digits(c);
  }

  // std::string::find_first_not_of the identifier characters, or the end.
  function IdentifierEnd(s: string, from: nat): (r: nat)
    requires from <= |s|
    ensures from <= r <= |s| && (r < |s| ==> !IsIdentifier(s[r])) && forall i :: from <= i < r ==> IsIdentifier(s[i])
    decreases |s| - from
  {
    if from == |s| || !IsIdentifier(s[from]) then from else IdentifierEnd(s, from + 1)
  }

  // ----- The language -----

  predicate Closes(d: Delimiter, c: char) {
    (d.Parentheses? && c == ')') || (d.Braces? && c == '}')
  }

  // Where a value that began with the given delimiter ends.
  function Closing(s: string, from: nat, d: Delimiter): (r: Option<nat>)
    requires from <= |s|
    ensures r.Some? ==> from <= r.value <= |s| && r.value + Closer(d) <= |s|
  {
    match d
    case NoDelimiter => Some(|s|)
    case Parentheses => var n := Next(s, ')', from); if n < |s| then Some(n) else None
    case Braces => var n := Next(s, '}', from); if n < |s| then Some(n) else None
    case Identifier => var n := IdentifierEnd(s, from); if n == from then None else Some(n)
  }

  // What the dollar sign at `open` opens.
  function Opens(s: string, open: nat): (d: Delimiter)
    requires open < |s|
    ensures open + Opener(d) <= |s|
  {
    if open + 1 < |s| && s[open + 1] == '(' then Parentheses
    else if open + 1 < |s| && s[open + 1] == '{' then Braces
    else Identifier
  }

  function Opener(d: Delimiter): nat {
    if d.Identifier? then 1 else 2
  }

  function Closer(d: Delimiter): nat {
    if d.Parentheses? || d.Braces? then 1 else 0
  }

  function Piece(s: string, a: nat, b: nat): seq<Entry>
    requires a <= b <= |s|
  {
    if a == b then [] else [Text(s[a..b])]
  }

  // The value of s from `append` to its closing delimiter, where s[append..search] is already known to be text. A
  // dollar sign that opens nothing is text as well.
  function Scan(s: string, search: nat, append: nat, d: Delimiter): (r: Option<Parsed>)
    requires append <= search <= |s|
    ensures r.Some? ==> search <= r.value.end && r.value.end + Closer(d) <= |s|
    decreases |s| - search, 1
  {
    ScanTo(s, Closing(s, search, d), Next(s, '$', search), append, d)
  }

  // The same, up to `closing` unless the dollar sign at `open` comes first and opens something.
  function ScanTo(s: string, closing: Option<nat>, open: nat, append: nat, d: Delimiter): (r: Option<Parsed>)
    requires append <= open <= |s|
    requires closing.Some? ==> append <= closing.value && closing.value + Closer(d) <= |s|
    ensures r.Some? ==> r.value.end + Closer(d) <= |s| && (open <= r.value.end || closing == Some(r.value.end))
    decreases |s| - open, 0
  {
    if closing.None? then None
    else if open >= closing.value then Some(Parsed(closing.value, Piece(s, append, closing.value)))
    else
      var kind := Opens(s, open);
      var start := open + Opener(kind);
      match Scan(s, start, start, kind)
      case None => Scan(s, start, append, d)
      case Some(inner) =>
        var next := inner.end + Closer(kind);
        match Scan(s, next, next, d)
        case None => None
        case Some(rest) =>
          Some(Parsed(rest.end, Piece(s, append, open) + [Reference(Value(inner.entries))] + rest.entries))
  }

  lemma ScanCases(s: string, search: nat, append: nat, d: Delimiter)
    requires append <= search <= |s|
    ensures Closing(s, search, d).None? ==> Scan(s, search, append, d).None?
    ensures Closing(s, search, d).Some? ==>
              ScansTo(s, Closing(s, search, d).value, Next(s, '$', search), append, d, Scan(s, search, append, d))
  {
    hide ScanTo;
    ScanToCases(s, Closing(s, search, d), Next(s, '$', search), append, d);
  }

  ghost predicate ScansTo(s: string, closing: nat, open: nat, append: nat, d: Delimiter, r: Option<Parsed>)
    requires append <= open <= |s| && append <= closing <= |s|
  {
    if open >= closing then r == Some(Parsed(closing, Piece(s, append, closing)))
    else
      var start := open + Opener(Opens(s, open));
      var inner := Scan(s, start, start, Opens(s, open));
      if inner.None? then r == Scan(s, start, append, d)
      else
        var next := inner.value.end + Closer(Opens(s, open));
        var rest := Scan(s, next, next, d);
        if rest.None? then r == None
        else r == Some(Parsed(rest.value.end,
                              Piece(s, append, open) + [Reference(Value(inner.value.entries))] + rest.value.entries))
  }

  lemma ScanToCases(s: string, closing: Option<nat>, open: nat, append: nat, d: Delimiter)
    requires append <= open <= |s|
    requires closing.Some? ==> append <= closing.value && closing.value + Closer(d) <= |s|
    ensures closing.None? ==> ScanTo(s, closing, open, append, d) == None
    ensures closing.Some? ==> ScansTo(s, closing.value, open, append, d, ScanTo(s, closing, open, append, d))
  {
    hide Scan, Opens;
  }

  function Parse(s: string): Value {
    var r := Scan(s, 0, 0, NoDelimiter);
    if r.Some? then Value(r.value.entries) else Value([])
  }

  lemma {:induction false} OutermostIsFound(s: string, search: nat, append: nat)
    requires append <= search <= |s|
    ensures Scan(s, search, append, NoDelimiter).Some? && Scan(s, search, append, NoDelimiter).value.end == |s|
    decreases |s| - search
  {
    var open := Next(s, '$', search);
    if open < |s| {
      var kind := Opens(s, open);
      var start := open + Opener(kind);
      var inner := Scan(s, start, start, kind);
      if inner.None? {
        OutermostIsFound(s, start, append);
      } else {
        OutermostIsFound(s, inner.value.end + Closer(kind), inner.value.end + Closer(kind));
      }
    }
  }

  // ----- The forms of a reference -----

  predicate IsName(name: string) {
    forall i :: 0 <= i < |name| ==> name[i] != '$' && name[i] != ')' && name[i] != '}'
  }

  function Named(name: string): Value {
    Value(if name == "" then [] else [Text(name)])
  }

  // A name between parentheses or between braces is a reference, and so is a dollar sign before a bare name. Without
  // the delimiter that belongs to its opening, all is text.
  lemma ReferenceForms(name: string)
    requires IsName(name)
    ensures Parse("$(" + name + ")") == Value([Reference(Named(name))])
    ensures Parse("${" + name + "}") == Value([Reference(Named(name))])
    ensures Parse("$(" + name) == Value([Text("$(" + name)])
    ensures Parse("${" + name) == Value([Text("${" + name)])
    ensures Parse("$(" + name + "}") == Value([Text("$(" + name + "}")])
    ensures Parse("${" + name + ")") == Value([Text("${" + name + ")")])
  {
    hide Parse;
    ClosedReference("$(" + name + ")", name, Parentheses);
    ClosedReference("${" + name + "}", name, Braces);
    OpenReference("$(" + name, Parentheses);
    OpenReference("${" + name, Braces);
    OpenReference("$(" + name + "}", Parentheses);
    OpenReference("${" + name + ")", Braces);
  }

  // A bare name ends with its last identifier character.
  lemma BareForm(name: string, rest: string)
    requires name != "" && forall i :: 0 <= i < |name| ==> IsIdentifier(name[i])
    requires (rest != "" ==> !IsIdentifier(rest[0])) && forall i :: 0 <= i < |rest| ==> rest[i] != '$'
    ensures Parse("$" + name + rest)
            == Value([Reference(Value([Text(name)]))] + if rest == "" then [] else [Text(rest)])
  {
    hide ScanTo;
    var s, end := "$" + name + rest, 1 + |name|;
    assert IdentifierEnd(s, 1) == end by {
      assert forall i :: 1 <= i < end ==> s[i] == name[i - 1];
      assert rest != "" ==> s[end] == rest[0];
      NameEnds(s, 1, end);
    }
    assert forall i :: end <= i < |s| ==> s[i] == rest[i - end];
    assert Next(s, '$', 1) >= end && Next(s, '$', end) == |s|;
    ScanCases(s, 1, 1, Identifier);
    ScanCases(s, end, end, NoDelimiter);
    assert s[1..end] == name && s[end..|s|] == rest;
    assert s[1] == name[0] && Opens(s, 0).Identifier?;
    assert Scan(s, 1, 1, Identifier) == Some(Parsed(end, [Text(name)]));
    assert Scan(s, end, end, NoDelimiter) == Some(Parsed(|s|, Piece(s, end, |s|)));
    assert Next(s, '$', 0) == 0 && Piece(s, 0, 0) == [];
    assert [] + [Reference(Value([Text(name)]))] == [Reference(Value([Text(name)]))];
    ScanCases(s, 0, 0, NoDelimiter);
  }

  lemma {:induction false} NameEnds(s: string, from: nat, end: nat)
    requires from <= end <= |s| && forall i :: from <= i < end ==> IsIdentifier(s[i])
    requires end < |s| ==> !IsIdentifier(s[end])
    ensures IdentifierEnd(s, from) == end
    decreases end - from
  {
    if from < end {
      NameEnds(s, from + 1, end);
    }
  }

  lemma ClosedReference(s: string, name: string, d: Delimiter)
    requires IsName(name) && (d.Parentheses? || d.Braces?)
    requires s == (if d.Parentheses? then "$(" else "${") + name + (if d.Parentheses? then ")" else "}")
    ensures Parse(s) == Value([Reference(Named(name))])
  {
    hide ScanTo;
    var end := 2 + |name|;
    assert forall i :: 2 <= i < end ==> s[i] == name[i - 2];
    var closer := if d.Parentheses? then ')' else '}';
    assert s[end] == closer && Next(s, closer, 2) == end;
    assert Next(s, '$', 2) == |s| && Next(s, '$', 0) == 0;
    ScanCases(s, 2, 2, d);
    assert s[2..end] == name;
    ScanCases(s, |s|, |s|, NoDelimiter);
    ScanCases(s, 0, 0, NoDelimiter);
  }

  lemma OpenReference(s: string, d: Delimiter)
    requires (d.Parentheses? && "$(" <= s) || (d.Braces? && "${" <= s)
    requires forall i :: 2 <= i < |s| ==> s[i] != '$' && !Closes(d, s[i])
    ensures Parse(s) == Value([Text(s)])
  {
    hide ScanTo;
    assert Next(s, '$', 2) == |s| && Next(s, '$', 0) == 0;
    assert Closing(s, 2, d).None?;
    ScanCases(s, 2, 2, d);
    ScanCases(s, 0, 0, NoDelimiter);
    ScanCases(s, 2, 0, NoDelimiter);
    assert s[0..|s|] == s;
  }

  // ----- The parser -----

  // Characters that neither open nor close anything can be skipped.
  lemma {:induction false} SkipText(s: string, search: nat, later: nat, append: nat, d: Delimiter)
    requires append <= search <= later <= |s| && !d.Identifier?
    requires forall i :: search <= i < later ==> s[i] != '$' && !Closes(d, s[i])
    ensures Scan(s, search, append, d) == Scan(s, later, append, d)
  {
    hide ScanTo;
    NextSkips(s, '$', search, later);
    if d.Parentheses? {
      NextSkips(s, ')', search, later);
    }
    if d.Braces? {
      NextSkips(s, '}', search, later);
    }
  }

  lemma {:induction false} NextSkips(s: string, c: char, search: nat, later: nat)
    requires search <= later <= |s|
    requires forall i :: search <= i < later ==> s[i] != c
    ensures Next(s, c, search) == Next(s, c, later)
    decreases later - search
  {
    if search < later {
      NextSkips(s, c, search + 1, later);
    }
  }

  // After a failed reference the search goes on `Opener` characters after where it began, not after the dollar sign.
  // That re-examines text, and the same dollar sign again, but skips nothing.
  lemma RetryFindsTheSame(s: string, search: nat, append: nat, d: Delimiter, open: nat)
    requires append <= search <= open < |s| && open == Next(s, '$', search)
    requires Closing(s, search, d).Some? && open < Closing(s, search, d).value
    requires Scan(s, open + Opener(Opens(s, open)), open + Opener(Opens(s, open)), Opens(s, open)).None?
    ensures Scan(s, search + Opener(Opens(s, open)), append, d) == Scan(s, search, append, d)
  {
    hide Scan, ScanTo, Closing, Opens;
    var kind := Opens(s, open);
    var retry := search + Opener(kind);
    ScanCases(s, search, append, d);
    TextBefore(s, search, d, open);
    if retry <= open {
      SkipText(s, search, retry, append, d);
    } else {
      SkipText(s, retry, open + Opener(kind), append, d);
    }
  }

  lemma TextBefore(s: string, search: nat, d: Delimiter, open: nat)
    requires search <= open < |s| && open == Next(s, '$', search)
    requires Closing(s, search, d).Some? && open < Closing(s, search, d).value
    ensures !d.Identifier?
    ensures forall i :: search <= i < open ==> s[i] != '$' && !Closes(d, s[i])
    ensures Opener(Opens(s, open)) == 2 ==> open + 1 < |s| && s[open + 1] != '$' && !Closes(d, s[open + 1])
  {
    assert d.Identifier? ==> IsIdentifier(s[open]);
  }

  datatype ParseResult = ParseResult(found: bool, end: nat, value: Value)

  method FindClosing(s: string, search: nat, end: Delimiter) returns (to: Option<nat>)
    requires search <= |s|
    ensures to == Closing(s, search, end)
  {
    FindIsClosing(s, search, end);
    match end {
      case NoDelimiter =>
        to := Some(|s|);
      case Parentheses =>
        to := Find(s, ")", search);
      case Braces =>
        to := Find(s, "}", search);
      case Identifier =>
        to := Some(IdentifierEnd(s, search));
        if to.value == search {
          to := None;
        }
    }
  }

  method FindOpening(s: string, search: nat) returns (open: Option<nat>, start: Delimiter)
    requires search <= |s|
    ensures open.None? <==> Next(s, '$', search) == |s|
    ensures open.None? <==> start.NoDelimiter?
    ensures open.Some? ==> open.value == Next(s, '$', search) && start == Opens(s, open.value)
  {
    FindIsOpening(s, search);
    var pno := Find(s, "$(", search);
    var cbo := Find(s, "${", search);
    var ido := Find(s, "$", search);
    open, start := None, NoDelimiter;
    if pno.Some? && (ido.None? || pno.value <= ido.value) && (cbo.None? || pno.value < cbo.value) {
      open, start := pno, Parentheses;
    } else if cbo.Some? && (ido.None? || cbo.value <= ido.value) && (pno.None? || cbo.value < pno.value) {
      open, start := cbo, Braces;
    } else if ido.Some? && (pno.None? || ido.value < pno.value) && (cbo.None? || ido.value < cbo.value) {
      open, start := ido, Identifier;
    }
  }

  // The entries collected so far, followed by what the rest of the scan finds, are all that the scan finds.
  ghost predicate Continues(whole: Option<Parsed>, entries: seq<Entry>, rest: Option<Parsed>) {
    whole == if rest.None? then None else Some(Parsed(rest.value.end, entries + rest.value.entries))
  }

  lemma ContinuesWith(whole: Option<Parsed>, entries: seq<Entry>, rest: Option<Parsed>, more: seq<Entry>,
                      last: Option<Parsed>)
    requires Continues(whole, entries, rest) && Continues(rest, more, last)
    ensures Continues(whole, entries + more, last)
  {
    if last.Some? {
      assert entries + (more + last.value.entries) == (entries + more) + last.value.entries;
    }
  }

  method ParseValue(s: string, from: nat, end: Delimiter) returns (r: ParseResult)
    requires from <= |s|
    ensures r.found <==> Scan(s, from, from, end).Some?
    ensures r.found ==> Scan(s, from, from, end) == Some(Parsed(r.end, r.value.entries))
    ensures !r.found ==> r.end == from
    decreases |s| - from
  {
    hide Scan, ScanTo, Opens, Closing, Continues;
    var entries: seq<Entry> := [];
    var search := from;
    var append := from;
    ghost var whole := Scan(s, from, from, end);
    assert Continues(whole, entries, whole) by {
      StartsWithNothing(whole);
    }
    while true
      invariant from <= append <= search <= |s|
      invariant Continues(whole, entries, Scan(s, search, append, end))
      decreases |s| - search
    {
      ScanCases(s, search, append, end);
      var to := FindClosing(s, search, end);
      if to.None? {
        ContinuesCases(whole, entries, None);
        return ParseResult(false, from, Value(entries));
      }

      var open, start := FindOpening(s, search);
      if open.None? || start.NoDelimiter? || open.value >= to.value {
        ContinuesCases(whole, entries, Some(Parsed(to.value, Piece(s, append, to.value))));
        ghost var all := entries + Piece(s, append, to.value);
        if to.value > append {
          entries := entries + [Text(s[append..to.value])];
        }
        assert entries == all;
        return ParseResult(true, to.value, Value(entries));
      }

      var result := ParseValue(s, open.value + Opener(start), start);
      if result.found {
        ghost var next := result.end + Closer(start);
        ghost var before := entries;
        ghost var more := Piece(s, append, open.value) + [Reference(result.value)];
        FoundReference(s, search, append, end, whole, entries);
        if open.value > append {
          entries := entries + [Text(s[append..open.value])];
        }
        entries := entries + [Reference(result.value)];
        assert entries == before + more;
        append := result.end + Closer(start);
        search := result.end + Closer(start);
      } else {
        RetryFindsTheSame(s, search, append, end, open.value);
        search := search + Opener(start);
      }
    }
  }

  lemma FoundReference(s: string, search: nat, append: nat, d: Delimiter, whole: Option<Parsed>, entries: seq<Entry>)
    requires append <= search <= |s| && Continues(whole, entries, Scan(s, search, append, d))
    requires Closing(s, search, d).Some? && Next(s, '$', search) < Closing(s, search, d).value
    requires ghost var start := Next(s, '$', search) + Opener(Opens(s, Next(s, '$', search)));
             Scan(s, start, start, Opens(s, Next(s, '$', search))).Some?
    ensures ghost var open := Next(s, '$', search);
            ghost var start := open + Opener(Opens(s, open));
            ghost var inner := Scan(s, start, start, Opens(s, open)).value;
            ghost var next := inner.end + Closer(Opens(s, open));
            Continues(whole, entries + (Piece(s, append, open) + [Reference(Value(inner.entries))]),
                      Scan(s, next, next, d))
  {
    hide Scan, ScanTo, Opens, Closing, Continues;
    ScanCases(s, search, append, d);
    var open := Next(s, '$', search);
    var start := open + Opener(Opens(s, open));
    var inner := Scan(s, start, start, Opens(s, open)).value;
    var next := inner.end + Closer(Opens(s, open));
    var more := Piece(s, append, open) + [Reference(Value(inner.entries))];
    ContinuesCases(Scan(s, search, append, d), more, Scan(s, next, next, d));
    ContinuesWith(whole, entries, Scan(s, search, append, d), more, Scan(s, next, next, d));
  }

  lemma StartsWithNothing(whole: Option<Parsed>)
    ensures Continues(whole, [], whole)
  {
    if whole.Some? {
      assert [] + whole.value.entries == whole.value.entries;
    }
  }

  lemma ContinuesCases(whole: Option<Parsed>, entries: seq<Entry>, rest: Option<Parsed>)
    ensures Continues(whole, entries, rest)
            <==> whole == if rest.None? then None else Some(Parsed(rest.value.end, entries + rest.value.entries))
  {
  }

  lemma FindIsClosing(s: string, search: nat, end: Delimiter)
    requires search <= |s|
    ensures end.Parentheses? ==> Find(s, ")", search) == Closing(s, search, end)
    ensures end.Braces? ==> Find(s, "}", search) == Closing(s, search, end)
    ensures end.NoDelimiter? ==> Closing(s, search, end) == Some(|s|)
    ensures end.Identifier? ==>
              Closing(s, search, end)
              == if IdentifierEnd(s, search) == search then None else Some(IdentifierEnd(s, search))
  {
    FindIsNext(s, ')', search);
    FindIsNext(s, '}', search);
  }

  lemma FindIsNext(s: string, c: char, search: nat)
    requires search <= |s|
    ensures Find(s, [c], search) == if Next(s, c, search) < |s| then Some(Next(s, c, search)) else None
  {
    var n := Next(s, c, search);
    if n < |s| {
      assert At(s, [c], n);
    }
    forall i: nat | search <= i && At(s, [c], i)
      ensures n <= i && n < |s|
    {
      assert s[i] == s[i..i + 1][0];
    }
  }

  // Which of the three searches wins: the first dollar sign, by the character after it.
  lemma FindIsOpening(s: string, search: nat)
    requires search <= |s|
    ensures Find(s, "$", search).Some? <==> Next(s, '$', search) < |s|
    ensures ghost var open := Next(s, '$', search);
            open < |s| ==>
              && Find(s, "$", search) == Some(open)
              && (Opens(s, open).Parentheses? <==> Find(s, "$(", search) == Some(open))
              && (Opens(s, open).Braces? <==> Find(s, "${", search) == Some(open))
    ensures Find(s, "$(", search).Some? ==> Next(s, '$', search) <= Find(s, "$(", search).value < |s|
    ensures Find(s, "${", search).Some? ==> Next(s, '$', search) <= Find(s, "${", search).value < |s|
  {
    FindIsNext(s, '$', search);
    var open := Next(s, '$', search);
    PairIsDollar(s, '(', search);
    PairIsDollar(s, '{', search);
  }

  lemma PairIsDollar(s: string, c: char, search: nat)
    requires search <= |s|
    ensures ghost var pair := Find(s, ['$', c], search);
            ghost var open := Next(s, '$', search);
            && (pair.Some? ==> open <= pair.value < |s|)
            && (open < |s| ==> (pair == Some(open) <==> open + 1 < |s| && s[open + 1] == c))
  {
    var pair := Find(s, ['$', c], search);
    var open := Next(s, '$', search);
    if pair.Some? {
      assert s[pair.value] == s[pair.value..pair.value + 2][0];
      assert s[pair.value + 1] == s[pair.value..pair.value + 2][1];
    }
    if open + 1 < |s| && s[open + 1] == c {
      assert s[open..open + 2] == ['$', c];
      assert At(s, ['$', c], open);
    }
  }

  // Value::Parse. The parser terminates on every string.
  method ParseString(s: string) returns (v: Value)
    ensures v == Parse(s)
  {
    var r := ParseValue(s, 0, NoDelimiter);
    OutermostIsFound(s, 0, 0);
    v := r.value;
  }

  // ----- What parsing keeps -----

  function StripChar(c: char): string {
    if c in "(){}" then "" else [c]
  }

  // A text without its delimiters.
  function Strip(s: string): string {
    if s == "" then "" else StripChar(s[0]) + Strip(s[1..])
  }

  lemma {:induction false} StripOfConcat(a: string, b: string)
    ensures Strip(a + b) == Strip(a) + Strip(b)
  {
    hide StripChar;
    if a == "" {
      assert a + b == b;
    } else {
      StripOfConcat(a[1..], b);
      assert (a + b)[0] == a[0] && (a + b)[1..] == a[1..] + b;
      Associative(StripChar(a[0]), Strip(a[1..]), Strip(b));
    }
  }

  lemma StripOfSlices(s: string, a: nat, b: nat, c: nat)
    requires a <= b <= c <= |s|
    ensures Strip(s[a..c]) == Strip(s[a..b]) + Strip(s[b..c])
  {
    assert s[a..c] == s[a..b] + s[b..c];
    StripOfConcat(s[a..b], s[b..c]);
  }

  lemma RawOfPiece(s: string, a: nat, b: nat)
    requires a <= b <= |s|
    ensures RawEntries(Piece(s, a, b)) == s[a..b]
  {
    if a < b {
      assert RawEntries([Text(s[a..b])]) == RawEntry(Text(s[a..b])) + RawEntries([]);
    }
  }

  // The printed form of a text piece, a reference and what follows.
  lemma RawOfParts(s: string, a: nat, b: nat, inner: seq<Entry>, rest: seq<Entry>)
    requires a <= b <= |s|
    ensures RawEntries(Piece(s, a, b) + [Reference(Value(inner))] + rest)
            == s[a..b] + "$(" + RawEntries(inner) + ")" + RawEntries(rest)
  {
    hide RawEntries;
    var reference := Reference(Value(inner));
    RawOfPiece(s, a, b);
    RawOfConcat(Piece(s, a, b) + [reference], rest);
    RawOfConcat(Piece(s, a, b), [reference]);
    RawOfOne(reference);
  }

  lemma RawOfOne(e: Entry)
    ensures RawEntries([e]) == RawEntry(e)
  {
    assert RawEntries([e]) == RawEntry(e) + RawEntries([]);
  }

  lemma StripOfReference(inner: string)
    ensures Strip("$(" + inner + ")") == "$" + Strip(inner)
  {
    hide Strip;
    StripOfConcat("$(" + inner, ")");
    StripOfConcat("$(", inner);
    StripOfConcat("$", "(");
    assert "$" + "(" == "$(";
    StripOfDelimiter('$');
    StripOfDelimiter('(');
    StripOfDelimiter(')');
  }

  // What Opens consumes, without delimiters, is the dollar sign; what closes it is nothing.
  lemma StripOfDelimiters(s: string, open: nat, kind: Delimiter, end: nat)
    requires open < |s| && s[open] == '$' && kind == Opens(s, open)
    requires end <= |s| && Scan(s, open + Opener(kind), open + Opener(kind), kind).Some?
    requires end == Scan(s, open + Opener(kind), open + Opener(kind), kind).value.end
    ensures Strip(s[open..open + Opener(kind)]) == "$"
    ensures end + Closer(kind) <= |s| && Strip(s[end..end + Closer(kind)]) == ""
  {
    hide Scan, ScanTo, Opens, Strip;
    var start := open + Opener(kind);
    EndsAtCloser(s, start, start, kind);
    StripOfOpener(s, open);
    if Closer(kind) == 1 {
      assert s[end..end + 1] == [s[end]];
      StripOfDelimiter(s[end]);
    } else {
      assert s[end..end] == "";
      StripOfDelimiter('(');
    }
  }

  lemma StripOfDelimiter(c: char)
    ensures Strip("") == ""
    ensures Strip([c]) == StripChar(c)
  {
    assert [c][1..] == "";
  }

  lemma StripOfOpener(s: string, open: nat)
    requires open < |s| && s[open] == '$'
    ensures Strip(s[open..open + Opener(Opens(s, open))]) == "$"
  {
    hide Strip;
    var start := open + Opener(Opens(s, open));
    StripOfDelimiter(s[open]);
    if Opens(s, open).Identifier? {
      assert s[open..start] == [s[open]];
    } else {
      assert s[open..start] == [s[open]] + [s[open + 1]];
      StripOfConcat([s[open]], [s[open + 1]]);
      StripOfDelimiter(s[open + 1]);
    }
  }

  lemma {:induction false} EndsAtCloser(s: string, search: nat, append: nat, d: Delimiter)
    requires append <= search <= |s| && Scan(s, search, append, d).Some?
    ensures Scan(s, search, append, d).value.end + Closer(d) <= |s|
    ensures d.Parentheses? || d.Braces? ==> Closes(d, s[Scan(s, search, append, d).value.end])
    decreases |s| - search
  {
    hide Scan, ScanTo, Opens;
    ScanCases(s, search, append, d);
    var open := Next(s, '$', search);
    if open < Closing(s, search, d).value {
      var start := open + Opener(Opens(s, open));
      var inner := Scan(s, start, start, Opens(s, open));
      if inner.None? {
        EndsAtCloser(s, start, append, d);
      } else {
        var next := inner.value.end + Closer(Opens(s, open));
        EndsAtCloser(s, next, next, d);
      }
    }
  }

  // Parsing loses no text: up to the delimiters, the printed form of the entries is what was scanned.
  lemma {:induction false} ScanKeepsText(s: string, search: nat, append: nat, d: Delimiter)
    requires append <= search <= |s| && Scan(s, search, append, d).Some?
    ensures append <= Scan(s, search, append, d).value.end <= |s|
    ensures Strip(RawEntries(Scan(s, search, append, d).value.entries))
            == Strip(s[append..Scan(s, search, append, d).value.end])
    decreases |s| - search
  {
    hide Scan, ScanTo, Opens, Closing, RawEntries, Strip;
    ScanCases(s, search, append, d);
    var open := Next(s, '$', search);
    var result := Scan(s, search, append, d).value;
    if open >= Closing(s, search, d).value {
      RawOfPiece(s, append, result.end);
    } else {
      var kind := Opens(s, open);
      var start := open + Opener(kind);
      var scanned := Scan(s, start, start, kind);
      if scanned.None? {
        ScanKeepsText(s, start, append, d);
      } else {
        var inner := scanned.value;
        var next := inner.end + Closer(kind);
        var rest := Scan(s, next, next, d).value;
        ScanKeepsText(s, start, start, kind);
        ScanKeepsText(s, next, next, d);
        StripOfDelimiters(s, open, kind, inner.end);
        RawOfParts(s, append, open, inner.entries, rest.entries);
        StripAround(s, append, open, start, inner.end, next, rest.end, RawEntries(inner.entries),
                    RawEntries(rest.entries));
      }
    }
  }

  lemma StripOfParts(before: string, inner: string, rest: string)
    ensures Strip(before + "$(" + inner + ")" + rest) == Strip(before) + "$" + Strip(inner) + Strip(rest)
  {
    hide Strip;
    StripOfConcat(before + "$(" + inner + ")", rest);
    assert before + "$(" + inner + ")" == before + ("$(" + inner + ")");
    StripOfConcat(before, "$(" + inner + ")");
    StripOfReference(inner);
  }

  lemma StripAround(s: string, append: nat, open: nat, start: nat, innerEnd: nat, next: nat, end: nat, inner: string,
                    rest: string)
    requires append <= open <= start <= innerEnd <= next <= end <= |s|
    requires Strip(s[open..start]) == "$" && Strip(s[innerEnd..next]) == ""
    requires Strip(inner) == Strip(s[start..innerEnd]) && Strip(rest) == Strip(s[next..end])
    ensures Strip(s[append..open] + "$(" + inner + ")" + rest) == Strip(s[append..end])
  {
    hide Strip;
    StripOfSlices(s, append, open, end);
    StripOfSlices(s, open, start, end);
    StripOfSlices(s, start, innerEnd, end);
    StripOfSlices(s, innerEnd, next, end);
    StripOfParts(s[append..open], inner, rest);
  }

  // For every text: printing what was parsed gives the text back, up to delimiters.
  lemma ParseKeepsText(s: string)
    ensures Strip(RawEntries(Parse(s).entries)) == Strip(s)
  {
    OutermostIsFound(s, 0, 0);
    ScanKeepsText(s, 0, 0, NoDelimiter);
    assert s[0..|s|] == s;
  }

  // ----- When printing gives back the text itself -----

  ghost predicate IsBare(s: string, i: nat) {
    i + 1 < |s| && s[i] == '$' && IsIdentifier(s[i + 1])
  }

  // A reference in braces that is closed.
  ghost predicate IsBraced(s: string, i: nat) {
    i + 1 < |s| && s[i] == '$' && s[i + 1] == '{' && Scan(s, i + 2, i + 2, Braces).Some?
  }

  // The number of references without parentheses or braces.
  ghost function Bare(s: string, from: nat, to: nat): nat
    requires from <= to <= |s|
    decreases |s| - from
  {
    if from == to then 0 else (if IsBare(s, from) then 1 else 0) + Bare(s, from + 1, to)
  }

  lemma {:induction false} BareSplits(s: string, a: nat, b: nat, c: nat)
    requires a <= b <= c <= |s|
    ensures Bare(s, a, c) == Bare(s, a, b) + Bare(s, b, c)
    decreases b - a
  {
    if a < b {
      BareSplits(s, a + 1, b, c);
    }
  }

  lemma {:induction false} NoneBare(s: string, a: nat, b: nat)
    requires a <= b <= |s|
    requires forall i :: a <= i < b ==> !IsBare(s, i)
    ensures Bare(s, a, b) == 0
    decreases b - a
  {
    if a < b {
      NoneBare(s, a + 1, b);
    }
  }

  lemma BareReferenceIsFound(s: string, open: nat)
    requires open < |s| && s[open] == '$'
    ensures IsBare(s, open) ==> Opens(s, open).Identifier? && Scan(s, open + 1, open + 1, Identifier).Some?
    ensures Opens(s, open).Identifier? && Scan(s, open + 1, open + 1, Identifier).Some? ==> IsBare(s, open)
  {
    hide Scan, ScanTo;
    ScanCases(s, open + 1, open + 1, Identifier);
    IdentifierEndsBeforeDollar(s, open + 1);
  }

  // An identifier ends before any dollar sign.
  lemma IdentifierEndsBeforeDollar(s: string, from: nat)
    requires from <= |s|
    ensures Closing(s, from, Identifier).Some? ==> Closing(s, from, Identifier).value <= Next(s, '$', from)
  {
    var n := IdentifierEnd(s, from);
    var open := Next(s, '$', from);
    assert open < n ==> IsIdentifier(s[open]);
  }

  lemma BareInOpener(s: string, open: nat)
    requires open < |s| && s[open] == '$'
    ensures ghost var start := open + Opener(Opens(s, open));
            Bare(s, open, start)
            == if Opens(s, open).Identifier? && Scan(s, start, start, Identifier).Some? then 1 else 0
  {
    hide Scan, ScanTo;
    BareReferenceIsFound(s, open);
    var start := open + Opener(Opens(s, open));
    if start == open + 2 {
      assert Bare(s, open, start) == Bare(s, open + 1, start);
      assert !IsBare(s, open + 1);
      NoneBare(s, open, start);
    } else {
      assert Bare(s, open + 1, start) == 0;
    }
  }

  // What a scan adds to the text it covers.
  ghost predicate Grows(s: string, search: nat, append: nat, r: Parsed) {
    && append <= search <= r.end <= |s|
    && |RawEntries(r.entries)| == r.end - append + 2 * Bare(s, search, r.end)
  }

  lemma {:induction false} ScanLength(s: string, search: nat, append: nat, d: Delimiter)
    requires append <= search <= |s| && Scan(s, search, append, d).Some?
    ensures Grows(s, search, append, Scan(s, search, append, d).value)
    decreases |s| - search
  {
    hide Scan, ScanTo, Opens, Closing, RawEntries, Bare, Piece, Grows;
    ScanCases(s, search, append, d);
    var open := Next(s, '$', search);
    var result := Scan(s, search, append, d).value;
    if open >= Closing(s, search, d).value {
      LastPieceGrows(s, search, append, result.end);
    } else {
      var kind := Opens(s, open);
      var start := open + Opener(kind);
      var scanned := Scan(s, start, start, kind);
      if scanned.None? {
        ScanLength(s, start, append, d);
        RetryGrows(s, search, append, open, result);
      } else {
        var next := scanned.value.end + Closer(kind);
        ScanLength(s, start, start, kind);
        ScanLength(s, next, next, d);
        ReferenceGrows(s, search, append, open, scanned.value, Scan(s, next, next, d).value);
      }
    }
  }

  lemma LastPieceGrows(s: string, search: nat, append: nat, end: nat)
    requires append <= search <= end <= |s| && end <= Next(s, '$', search)
    ensures Grows(s, search, append, Parsed(end, Piece(s, append, end)))
  {
    RawOfPiece(s, append, end);
    NoneBare(s, search, end);
  }

  lemma RetryGrows(s: string, search: nat, append: nat, open: nat, r: Parsed)
    requires append <= search <= open < |s| && open == Next(s, '$', search)
    requires ghost var start := open + Opener(Opens(s, open));
             Scan(s, start, start, Opens(s, open)).None? && Grows(s, start, append, r)
    ensures Grows(s, search, append, r)
  {
    hide Scan, ScanTo, Bare, RawEntries;
    var start := open + Opener(Opens(s, open));
    NoneBare(s, search, open);
    BareInOpener(s, open);
    BareSplits(s, search, open, r.end);
    BareSplits(s, open, start, r.end);
  }

  lemma ReferenceGrows(s: string, search: nat, append: nat, open: nat, inner: Parsed, rest: Parsed)
    requires append <= search <= open < |s| && open == Next(s, '$', search)
    requires ghost var kind := Opens(s, open);
             ghost var start := open + Opener(kind);
             && Scan(s, start, start, kind) == Some(inner) && Grows(s, start, start, inner)
             && Grows(s, inner.end + Closer(kind), inner.end + Closer(kind), rest)
    ensures ghost var entries := Piece(s, append, open) + [Reference(Value(inner.entries))] + rest.entries;
            Grows(s, search, append, Parsed(rest.end, entries))
  {
    hide Scan, ScanTo, Bare, RawEntries, Piece;
    var kind := Opens(s, open);
    var start := open + Opener(kind);
    var next := inner.end + Closer(kind);
    NoneBare(s, search, open);
    BareInOpener(s, open);
    NoneBareInCloser(s, start, kind);
    BareSplits(s, search, open, rest.end);
    BareSplits(s, open, start, rest.end);
    BareSplits(s, start, inner.end, rest.end);
    BareSplits(s, inner.end, next, rest.end);
    RawOfParts(s, append, open, inner.entries, rest.entries);
  }

  lemma NoneBareInCloser(s: string, start: nat, d: Delimiter)
    requires start <= |s| && Scan(s, start, start, d).Some?
    ensures ghost var end := Scan(s, start, start, d).value.end;
            Bare(s, end, end + Closer(d)) == 0
  {
    hide Scan, ScanTo;
    EndsAtCloser(s, start, start, d);
    var end := Scan(s, start, start, d).value.end;
    NoneBare(s, end, end + Closer(d));
  }

  lemma {:induction false} ScanKeepsExactly(s: string, search: nat, append: nat, d: Delimiter)
    requires append <= search <= |s| && Scan(s, search, append, d).Some?
    requires forall i: nat :: i < |s| ==> !IsBare(s, i) && !IsBraced(s, i)
    ensures ghost var r := Scan(s, search, append, d).value;
            append <= r.end <= |s| && RawEntries(r.entries) == s[append..r.end]
    decreases |s| - search
  {
    hide Scan, ScanTo, Closing, RawEntries, IsBraced, IsBare;
    ScanCases(s, search, append, d);
    var open := Next(s, '$', search);
    var result := Scan(s, search, append, d).value;
    if open >= Closing(s, search, d).value {
      RawOfPiece(s, append, result.end);
    } else {
      var kind := Opens(s, open);
      var start := open + Opener(kind);
      var scanned := Scan(s, start, start, kind);
      if scanned.None? {
        ScanKeepsExactly(s, start, append, d);
      } else {
        var inner := scanned.value;
        var next := inner.end + Closer(kind);
        var rest := Scan(s, next, next, d).value;
        BareReferenceIsFound(s, open);
        BraceIsFound(s, open);
        ScanKeepsExactly(s, start, start, kind);
        ScanKeepsExactly(s, next, next, d);
        EndsAtCloser(s, start, start, kind);
        RawOfParts(s, append, open, inner.entries, rest.entries);
        FiveSlices(s, append, open, start, inner.end, next, rest.end);
      }
    }
  }

  lemma BraceIsFound(s: string, open: nat)
    requires open < |s| && s[open] == '$'
    ensures IsBraced(s, open) <==> Opens(s, open).Braces? && Scan(s, open + 2, open + 2, Braces).Some?
  {
    hide Scan;
  }

  // A closed reference in braces is printed with a parenthesis in place of its brace.
  lemma {:induction false} BraceShows(s: string, search: nat, append: nat, d: Delimiter, i: nat)
    requires append <= search <= |s| && Scan(s, search, append, d).Some? && !d.Identifier?
    requires forall j: nat :: j < |s| ==> !IsBare(s, j)
    requires IsBraced(s, i) && search <= i < Scan(s, search, append, d).value.end
    ensures ghost var r := Scan(s, search, append, d).value;
            append <= r.end && |RawEntries(r.entries)| == r.end - append
            && i + 1 < r.end && RawEntries(r.entries)[i + 1 - append] == '('
    decreases |s| - search
  {
    hide Scan, ScanTo, Closing, RawEntries, IsBare, Bare, IsBraced, Opens;
    ScanCases(s, search, append, d);
    SameLength(s, search, append, d);
    BracedCharacters(s, i);
    var open := Next(s, '$', search);
    var kind := Opens(s, open);
    var start := open + Opener(kind);
    var scanned := Scan(s, start, start, kind);
    OpenerCharacters(s, open);
    BraceIsFound(s, open);
    if scanned.None? {
      BraceShows(s, start, append, d, i);
    } else {
      var inner := scanned.value;
      var next := inner.end + Closer(kind);
      var rest := Scan(s, next, next, d).value;
      BareReferenceIsFound(s, open);
      EndsAtCloser(s, start, start, kind);
      SameLength(s, start, start, kind);
      SameLength(s, next, next, d);
      if start <= i < inner.end {
        BraceShows(s, start, start, kind, i);
      } else if next <= i {
        BraceShows(s, next, next, d, i);
      }
      RawOfParts(s, append, open, inner.entries, rest.entries);
      BraceInParts(s, append, open, inner.end, rest.end, RawEntries(inner.entries), RawEntries(rest.entries), i);
    }
  }

  lemma SameLength(s: string, search: nat, append: nat, d: Delimiter)
    requires append <= search <= |s| && Scan(s, search, append, d).Some?
    requires forall j: nat :: j < |s| ==> !IsBare(s, j)
    ensures ghost var r := Scan(s, search, append, d).value;
            append <= r.end <= |s| && |RawEntries(r.entries)| == r.end - append
  {
    hide Scan, RawEntries, IsBare;
    ScanLength(s, search, append, d);
    NoneBare(s, search, Scan(s, search, append, d).value.end);
  }

  lemma BraceInParts(s: string, append: nat, open: nat, innerEnd: nat, end: nat, inner: string, rest: string, i: nat)
    requires append <= open <= |s| && open + 2 <= innerEnd < end
    requires |inner| == innerEnd - (open + 2) && |rest| == end - (innerEnd + 1)
    requires i == open || open + 2 <= i < innerEnd || innerEnd < i < end
    requires open + 2 <= i < innerEnd ==> i + 1 < innerEnd && inner[i + 1 - (open + 2)] == '('
    requires innerEnd < i ==> i + 1 < end && rest[i + 1 - (innerEnd + 1)] == '('
    ensures ghost var printed := s[append..open] + "$(" + inner + ")" + rest;
            |printed| == end - append && i + 1 < end && printed[i + 1 - append] == '('
  {
  }

  lemma BracedCharacters(s: string, i: nat)
    ensures IsBraced(s, i) ==> i + 1 < |s| && s[i] == '$' && s[i + 1] == '{'
  {
  }

  lemma OpenerCharacters(s: string, open: nat)
    requires open < |s|
    ensures !Opens(s, open).NoDelimiter?
    ensures !Opens(s, open).Identifier? ==> open + 1 < |s| && (s[open + 1] == '(' || s[open + 1] == '{')
  {
  }

  lemma FiveSlices(s: string, append: nat, open: nat, start: nat, innerEnd: nat, next: nat, end: nat)
    requires append <= open <= start <= innerEnd <= next <= end <= |s|
    requires start == open + 2 && s[open] == '$' && s[open + 1] == '('
    requires next == innerEnd + 1 && s[innerEnd] == ')'
    ensures s[append..open] + "$(" + s[start..innerEnd] + ")" + s[next..end] == s[append..end]
  {
    assert s[open..start] == "$(";
    assert s[innerEnd..next] == ")";
  }

  // Printing gives the text back exactly when it has no bare reference and no closed one in braces. A `$(` or `${` that
  // is never closed does not matter.
  lemma PrintsBackExactly(s: string)
    ensures RawEntries(Parse(s).entries) == s <==> forall i: nat :: i < |s| ==> !IsBare(s, i) && !IsBraced(s, i)
  {
    hide Scan, ScanTo, RawEntries, IsBraced;
    OutermostIsFound(s, 0, 0);
    ScanLength(s, 0, 0, NoDelimiter);
    if i: nat :| i < |s| && IsBare(s, i) {
      BareSplits(s, 0, i, |s|);
      assert Bare(s, 0, |s|) > 0;
    } else if i: nat :| i < |s| && IsBraced(s, i) {
      BraceShows(s, 0, 0, NoDelimiter, i);
      BracedCharacters(s, i);
    } else {
      ScanKeepsExactly(s, 0, 0, NoDelimiter);
      assert s[0..|s|] == s;
    }
  }

  // Every text, braces included: printing adds one pair of parentheses per bare reference.
  lemma PrintingAddsParentheses(s: string)
    ensures |RawEntries(Parse(s).entries)| == |s| + 2 * Bare(s, 0, |s|)
  {
    OutermostIsFound(s, 0, 0);
    ScanLength(s, 0, 0, NoDelimiter);
  }

  // ----- When parsing gives back the value itself -----

  // Texts are not empty and not adjacent, at any depth.
  ghost predicate Tidy(entries: seq<Entry>) {
    && (forall e :: e in entries ==> TidyEntry(e))
    && forall i, j :: 0 <= i < j < |entries| && j == i + 1 ==> entries[i].Reference? || entries[j].Reference?
  }

  ghost predicate TidyEntry(e: Entry) {
    match e
    case Text(text) => text != ""
    case Reference(value) => Tidy(value.entries)
  }

  // No text holds c, at any depth.
  ghost predicate Without(entries: seq<Entry>, c: char) {
    forall e :: e in entries ==> EntryWithout(e, c)
  }

  ghost predicate EntryWithout(e: Entry, c: char) {
    match e
    case Text(text) => c !in text
    case Reference(value) => Without(value.entries, c)
  }

  // No text below the top level holds c.
  ghost predicate WithoutBelow(entries: seq<Entry>, c: char) {
    forall e :: e in entries && e.Reference? ==> Without(e.value.entries, c)
  }

  lemma WithoutIsWithoutBelow(entries: seq<Entry>, c: char)
    ensures Without(entries, c) ==> WithoutBelow(entries, c)
  {
    if Without(entries, c) {
      forall e | e in entries && e.Reference?
        ensures Without(e.value.entries, c)
      {
        assert EntryWithout(e, c);
      }
    }
  }

  // Whatever is parsed is tidy.
  lemma {:induction false} ScanIsTidy(s: string, search: nat, append: nat, d: Delimiter)
    requires append <= search <= |s| && Scan(s, search, append, d).Some?
    ensures Tidy(Scan(s, search, append, d).value.entries)
    decreases |s| - search
  {
    hide Scan, ScanTo, Opens, Closing;
    ScanCases(s, search, append, d);
    var open := Next(s, '$', search);
    if open < Closing(s, search, d).value {
      var start := open + Opener(Opens(s, open));
      var scanned := Scan(s, start, start, Opens(s, open));
      if scanned.None? {
        ScanIsTidy(s, start, append, d);
      } else {
        var next := scanned.value.end + Closer(Opens(s, open));
        ScanIsTidy(s, start, start, Opens(s, open));
        ScanIsTidy(s, next, next, d);
      }
    }
  }

  // The dollar sign at i opens a reference that is found.
  ghost predicate OpensReference(s: string, i: nat) {
    && i < |s| && s[i] == '$'
    && var start := i + Opener(Opens(s, i));
       Scan(s, start, start, Opens(s, i)).Some?
  }

  // No dollar sign in the range opens anything.
  ghost predicate InertRange(s: string, from: nat, to: nat) {
    forall i: nat :: from <= i < to ==> !OpensReference(s, i)
  }

  // In the printed form, which s holds at `at`, no dollar sign of a text opens a reference.
  ghost predicate Inert(s: string, at: nat, entries: seq<Entry>)
    decreases entries
  {
    entries == [] || (InertEntry(s, at, entries[0]) && Inert(s, at + |RawEntry(entries[0])|, entries[1..]))
  }

  ghost predicate InertEntry(s: string, at: nat, e: Entry)
    decreases e
  {
    match e
    case Text(text) => InertRange(s, at, at + |text|)
    case Reference(value) => Inert(s, at + 2, value.entries)
  }

  // Where references only open by parentheses, no text inside a reference holds a closing parenthesis.
  lemma {:induction false} ScanIsClosed(s: string, search: nat, append: nat, d: Delimiter)
    requires append <= search <= |s| && Scan(s, search, append, d).Some?
    requires forall i: nat :: i < |s| ==> !IsBare(s, i) && !IsBraced(s, i)
    requires d.NoDelimiter? || (d.Parentheses? && forall i :: append <= i < search ==> s[i] != ')')
    ensures WithoutBelow(Scan(s, search, append, d).value.entries, ')')
    ensures d.Parentheses? ==> Without(Scan(s, search, append, d).value.entries, ')')
    decreases |s| - search
  {
    hide Scan, ScanTo, IsBare, IsBraced, Opens;
    ScanCases(s, search, append, d);
    var open := Next(s, '$', search);
    if open < Closing(s, search, d).value {
      var kind := Opens(s, open);
      var start := open + Opener(kind);
      var scanned := Scan(s, start, start, kind);
      OpenerCharacters(s, open);
      BareReferenceIsFound(s, open);
      BraceIsFound(s, open);
      if scanned.None? {
        ScanIsClosed(s, start, append, d);
      } else {
        ScanIsClosed(s, start, start, Parentheses);
        ScanIsClosed(s, scanned.value.end + 1, scanned.value.end + 1, d);
      }
    }
  }

  // Whatever stays text while scanning opens nothing.
  lemma {:induction false} ScanIsInert(s: string, search: nat, append: nat, d: Delimiter)
    requires append <= search <= |s| && Scan(s, search, append, d).Some?
    requires forall i: nat :: i < |s| ==> !IsBare(s, i) && !IsBraced(s, i)
    requires InertRange(s, append, search)
    ensures Inert(s, append, Scan(s, search, append, d).value.entries)
    decreases |s| - search
  {
    hide Scan, ScanTo, IsBare, IsBraced, Opens, Closing, Piece, RawEntries, Inert;
    ScanCases(s, search, append, d);
    var open := Next(s, '$', search);
    if open >= Closing(s, search, d).value {
      NothingIsInert(s, Closing(s, search, d).value);
      InertPiece(s, append, Closing(s, search, d).value, []);
      NoMoreEntries(Piece(s, append, Closing(s, search, d).value));
    } else {
      var kind := Opens(s, open);
      var start := open + Opener(kind);
      var scanned := Scan(s, start, start, kind);
      OpenerCharacters(s, open);
      BareReferenceIsFound(s, open);
      BraceIsFound(s, open);
      if scanned.None? {
        ScanIsInert(s, start, append, d);
      } else {
        var inner := scanned.value;
        var next := inner.end + 1;
        var rest := Scan(s, next, next, d).value;
        ScanIsInert(s, start, start, kind);
        ScanIsInert(s, next, next, d);
        ScanKeepsExactly(s, start, start, kind);
        InertReference(s, open, inner.entries, rest.entries);
        InertPiece(s, append, open, [Reference(Value(inner.entries))] + rest.entries);
        NoMoreEntries(Piece(s, append, open));
        assert Piece(s, append, open) + [Reference(Value(inner.entries))] + rest.entries
            == Piece(s, append, open) + ([Reference(Value(inner.entries))] + rest.entries);
      }
    }
  }

  lemma NothingIsInert(s: string, at: nat)
    ensures Inert(s, at, [])
  {
  }

  lemma NoMoreEntries(entries: seq<Entry>)
    ensures entries + [] == entries
  {
  }

  lemma InertPiece(s: string, a: nat, b: nat, entries: seq<Entry>)
    requires a <= b <= |s| && InertRange(s, a, b) && Inert(s, b, entries)
    ensures Inert(s, a, Piece(s, a, b) + entries)
  {
    hide OpensReference, RawEntries;
    if a == b {
      assert Piece(s, a, b) + entries == entries;
    } else {
      var all := [Text(s[a..b])] + entries;
      assert all[0] == Text(s[a..b]) && all[1..] == entries;
    }
  }

  lemma InertReference(s: string, at: nat, inner: seq<Entry>, rest: seq<Entry>)
    requires Inert(s, at + 2, inner) && Inert(s, at + |RawEntries(inner)| + 3, rest)
    ensures Inert(s, at, [Reference(Value(inner))] + rest)
  {
    hide RawEntries;
    var all := [Reference(Value(inner))] + rest;
    assert all[0] == Reference(Value(inner)) && all[1..] == rest;
  }

  // Texts without dollar signs open nothing.
  lemma {:induction false} WithoutDollarsIsInert(s: string, at: nat, entries: seq<Entry>, d: Delimiter)
    requires Holds(s, at, entries, d) && Without(entries, '$')
    ensures Inert(s, at, entries)
    decreases |RawEntries(entries)|, |entries|
  {
    hide RawEntries, Holds, OpensReference;
    if entries != [] {
      assert entries[0] in entries && EntryWithout(entries[0], '$');
      if entries[0].Text? {
        HoldsText(s, at, entries, d);
        WithoutDollarsIsInert(s, at + |entries[0].text|, entries[1..], d);
        TextWithoutDollars(s, at, entries[0].text);
      } else {
        HoldsReference(s, at, entries, d);
        WithoutDollarsIsInert(s, at + 2, entries[0].value.entries, Parentheses);
        WithoutDollarsIsInert(s, at + |RawEntries(entries[0].value.entries)| + 3, entries[1..], d);
      }
    }
  }

  lemma TextWithoutDollars(s: string, at: nat, text: string)
    requires at + |text| <= |s| && s[at..at + |text|] == text && '$' !in text
    ensures InertRange(s, at, at + |text|)
  {
    forall i: nat | at <= i < at + |text|
      ensures s[i] != '$'
    {
      assert s[i] == text[i - at];
    }
  }

  // s holds the printed entries at `at`, followed by the end of the value.
  ghost predicate Holds(s: string, at: nat, entries: seq<Entry>, d: Delimiter) {
    var end := at + |RawEntries(entries)|;
    && end <= |s| && s[at..end] == RawEntries(entries)
    && (if d.Parentheses? then end < |s| && s[end] == ')' else d.NoDelimiter? && end == |s|)
  }

  lemma HoldsText(s: string, at: nat, entries: seq<Entry>, d: Delimiter)
    requires Holds(s, at, entries, d) && entries != [] && entries[0].Text?
    ensures at + |entries[0].text| <= |s| && s[at..at + |entries[0].text|] == entries[0].text
    ensures |RawEntries(entries)| == |entries[0].text| + |RawEntries(entries[1..])|
    ensures Holds(s, at + |entries[0].text|, entries[1..], d)
  {
    hide RawEntries;
    var end := at + |RawEntries(entries)|;
    var n := |entries[0].text|;
    RawOfFirst(entries);
    SliceOfSlice(s, at, end, 0, n);
    SliceOfSlice(s, at, end, n, end - at);
  }

  lemma HoldsReference(s: string, at: nat, entries: seq<Entry>, d: Delimiter)
    requires Holds(s, at, entries, d) && entries != [] && entries[0].Reference?
    ensures ghost var inner := RawEntries(entries[0].value.entries);
            && at + |inner| + 3 <= |s| && s[at] == '$' && s[at + 1] == '(' && s[at + 2 + |inner|] == ')'
            && |RawEntries(entries)| == |inner| + 3 + |RawEntries(entries[1..])|
            && Holds(s, at + 2, entries[0].value.entries, Parentheses)
            && Holds(s, at + |inner| + 3, entries[1..], d)
  {
    hide RawEntries;
    var rest := RawEntries(entries[1..]);
    RawOfFirst(entries);
    assert RawEntries(entries) == "$(" + RawEntries(entries[0].value.entries) + ")" + rest;
    PartsOfReference(s, at, at + |RawEntries(entries)|, RawEntries(entries[0].value.entries), rest);
  }

  lemma RawOfFirst(entries: seq<Entry>)
    requires entries != []
    ensures RawEntries(entries) == RawEntry(entries[0]) + RawEntries(entries[1..])
  {
  }

  lemma PartsOfReference(s: string, at: nat, end: nat, inner: string, rest: string)
    requires at <= end <= |s| && s[at..end] == "$(" + inner + ")" + rest
    ensures end == at + 3 + |inner| + |rest|
    ensures s[at] == '$' && s[at + 1] == '(' && s[at + 2 + |inner|] == ')'
    ensures s[at + 2..at + 2 + |inner|] == inner && s[at + 3 + |inner|..end] == rest
  {
    var n := |inner|;
    assert s[at] == s[at..end][0] && s[at + 1] == s[at..end][1];
    assert s[at + 2 + n] == s[at..end][2 + n];
    SliceOfSlice(s, at, end, 2, 2 + n);
    SliceOfSlice(s, at, end, 3 + n, end - at);
    assert s[at..end][2..2 + n] == inner;
    assert s[at..end][3 + n..end - at] == rest;
  }

  // What is asked of the entries of a value holds of its first entry and of the rest.
  lemma HeadAndTail(entries: seq<Entry>)
    requires entries != [] && Tidy(entries) && WithoutBelow(entries, ')')
    ensures Tidy(entries[1..]) && WithoutBelow(entries[1..], ')')
    ensures Without(entries, ')') ==> Without(entries[1..], ')') && (entries[0].Text? ==> ')' !in entries[0].text)
    ensures entries[0].Text? ==> entries[0].text != ""
    ensures entries[0].Text? ==> entries[1..] == [] || entries[1].Reference?
    ensures entries[0].Reference? ==>
              ghost var inner := entries[0].value.entries;
              Tidy(inner) && Without(inner, ')') && WithoutBelow(inner, ')')
  {
    assert entries[0] in entries;
    assert TidyEntry(entries[0]);
    if entries[0].Reference? {
      WithoutIsWithoutBelow(entries[0].value.entries, ')');
    }
    assert Without(entries, ')') ==> EntryWithout(entries[0], ')');
  }

  // Scanning from `at` gives the entries, after the text in s[append..at].
  ghost predicate ReadsBack(s: string, at: nat, append: nat, entries: seq<Entry>, d: Delimiter)
    requires append <= at <= |s|
  {
    Scan(s, at, append, d) == Some(Parsed(at + |RawEntries(entries)|, Piece(s, append, at) + entries))
  }

  lemma {:induction false} ScanReadsBack(s: string, at: nat, append: nat, entries: seq<Entry>, d: Delimiter)
    requires append <= at <= |s| && Holds(s, at, entries, d)
    requires append < at ==> entries == [] || entries[0].Reference?
    requires Tidy(entries) && Inert(s, at, entries) && WithoutBelow(entries, ')')
    requires d.Parentheses? ==> Without(entries, ')') && forall i :: append <= i < at ==> s[i] != ')'
    ensures ReadsBack(s, at, append, entries, d)
    decreases |RawEntries(entries)|, |entries|
  {
    hide RawEntries, Holds, Tidy, Without, WithoutBelow, ReadsBack, InertRange;
    if entries == [] {
      ReadEnd(s, at, append, d);
    } else {
      HeadAndTail(entries);
      if entries[0].Text? {
        HoldsText(s, at, entries, d);
        ScanReadsBack(s, at + |entries[0].text|, append, entries[1..], d);
        ReadText(s, at, entries, d);
      } else {
        HoldsReference(s, at, entries, d);
        var inner := entries[0].value.entries;
        var next := at + |RawEntries(inner)| + 3;
        ScanReadsBack(s, at + 2, at + 2, inner, Parentheses);
        ScanReadsBack(s, next, next, entries[1..], d);
        ReadReference(s, at, append, entries, d);
      }
    }
  }

  lemma ReadEnd(s: string, at: nat, append: nat, d: Delimiter)
    requires append <= at <= |s| && Holds(s, at, [], d)
    ensures ReadsBack(s, at, append, [], d)
  {
    hide Scan, ScanTo;
    ScanCases(s, at, append, d);
    assert Piece(s, append, at) + [] == Piece(s, append, at);
  }

  lemma ReadText(s: string, at: nat, entries: seq<Entry>, d: Delimiter)
    requires at <= |s| && Holds(s, at, entries, d) && entries != [] && entries[0].Text? && entries[0].text != ""
    requires InertRange(s, at, at + |entries[0].text|) && (d.Parentheses? ==> ')' !in entries[0].text)
    requires entries[1..] == [] || entries[1].Reference?
    requires at + |entries[0].text| <= |s| && ReadsBack(s, at + |entries[0].text|, at, entries[1..], d)
    ensures ReadsBack(s, at, at, entries, d)
  {
    hide Scan, ScanTo, RawEntries, Holds;
    HoldsText(s, at, entries, d);
    var end := at + |entries[0].text|;
    SkipGivenText(s, at, at, entries, d);
    PieceIsText(s, at, end, entries);
  }

  lemma ReadReference(s: string, at: nat, append: nat, entries: seq<Entry>, d: Delimiter)
    requires append <= at < |s| && Holds(s, at, entries, d) && entries != [] && entries[0].Reference?
    requires ghost var inner := entries[0].value.entries;
             ghost var next := at + |RawEntries(inner)| + 3;
             && next <= |s| && ReadsBack(s, at + 2, at + 2, inner, Parentheses)
             && ReadsBack(s, next, next, entries[1..], d)
    ensures ReadsBack(s, at, append, entries, d)
  {
    hide Scan, ScanTo, RawEntries, Holds, Piece;
    HoldsReference(s, at, entries, d);
    var inner := entries[0].value.entries;
    var next := at + |RawEntries(inner)| + 3;
    NoPiece(s, at + 2, inner);
    NoPiece(s, next, entries[1..]);
    HoldsEnd(s, at, entries, d);
    ScanCases(s, at, append, d);
    HeadAgain(Piece(s, append, at), entries);
  }

  lemma NoPiece(s: string, at: nat, entries: seq<Entry>)
    requires at <= |s|
    ensures Piece(s, at, at) + entries == entries
  {
  }

  lemma PieceIsText(s: string, at: nat, end: nat, entries: seq<Entry>)
    requires at < end <= |s| && entries != [] && entries[0] == Text(s[at..end])
    ensures Piece(s, at, end) + entries[1..] == Piece(s, at, at) + entries
  {
  }

  lemma HeadAgain(before: seq<Entry>, entries: seq<Entry>)
    requires entries != []
    ensures before + [entries[0]] + entries[1..] == before + entries
  {
  }

  lemma SkipGivenText(s: string, at: nat, append: nat, entries: seq<Entry>, d: Delimiter)
    requires append <= at <= |s| && Holds(s, at, entries, d) && entries != [] && entries[0].Text?
    requires InertRange(s, at, at + |entries[0].text|) && (d.Parentheses? ==> ')' !in entries[0].text)
    requires entries[1..] == [] || entries[1].Reference?
    ensures at + |entries[0].text| <= |s|
    ensures Scan(s, at, append, d) == Scan(s, at + |entries[0].text|, append, d)
  {
    hide Scan, ScanTo, RawEntries, InertRange, Holds;
    HoldsText(s, at, entries, d);
    var text := entries[0].text;
    var end := at + |text|;
    forall i | at <= i < end ensures s[i] in text {
      assert s[i] == s[at..end][i - at];
    }
    AfterText(s, end, entries[1..], d);
    SkipInert(s, at, end, append, d);
  }

  // What follows a text: a reference, or the end of the value.
  lemma AfterText(s: string, at: nat, entries: seq<Entry>, d: Delimiter)
    requires Holds(s, at, entries, d) && (entries == [] || entries[0].Reference?)
    ensures d.NoDelimiter? || (d.Parentheses? && exists i :: at <= i < |s| && s[i] == ')')
    ensures at < |s| ==> s[at] == '$' || s[at] == ')'
  {
    if entries != [] {
      HoldsReference(s, at, entries, d);
    }
  }

  // Dollar signs that open nothing are skipped like other text.
  lemma {:induction false} SkipInert(s: string, search: nat, end: nat, append: nat, d: Delimiter)
    requires append <= search <= end <= |s| && InertRange(s, search, end)
    requires d.NoDelimiter?
             || (&& d.Parentheses?
                 && (forall i :: search <= i < end ==> s[i] != ')')
                 && exists i :: end <= i < |s| && s[i] == ')')
    requires end < |s| ==> s[end] == '$' || s[end] == ')'
    ensures Scan(s, search, append, d) == Scan(s, end, append, d)
    decreases end - search
  {
    hide Scan, ScanTo, Opens;
    var open := Next(s, '$', search);
    if open >= end {
      SkipText(s, search, end, append, d);
    } else {
      ScanCases(s, search, append, d);
      OpenerCharacters(s, open);
      assert !OpensReference(s, open);
      SkipInert(s, open + Opener(Opens(s, open)), end, append, d);
    }
  }

  lemma HoldsEnd(s: string, at: nat, entries: seq<Entry>, d: Delimiter)
    requires Holds(s, at, entries, d) && at < |s| && s[at] == '$'
    ensures d.NoDelimiter? || (d.Parentheses? && exists i :: at < i < |s| && s[i] == ')')
  {
  }

  // A value is read back from its printed form exactly when it is tidy, no text inside a reference holds a closing
  // parenthesis, and no dollar sign of a text opens a reference there.
  lemma ReadsBackExactly(v: Value)
    ensures Parse(RawEntries(v.entries)) == v
            <==> Tidy(v.entries) && WithoutBelow(v.entries, ')') && Inert(RawEntries(v.entries), 0, v.entries)
  {
    hide Scan, ScanTo, RawEntries, IsBare, IsBraced, Inert;
    var s := RawEntries(v.entries);
    OutermostIsFound(s, 0, 0);
    if Tidy(v.entries) && WithoutBelow(v.entries, ')') && Inert(s, 0, v.entries) {
      assert s[0..|s|] == s;
      ScanReadsBack(s, 0, 0, v.entries, NoDelimiter);
      assert Piece(s, 0, 0) + v.entries == v.entries;
    }
    if Parse(s) == v {
      PrintsBackExactly(s);
      ScanIsTidy(s, 0, 0, NoDelimiter);
      ScanIsClosed(s, 0, 0, NoDelimiter);
      ScanIsInert(s, 0, 0, NoDelimiter);
    }
  }

  // ----- Concatenation -----

  // operator+: the last text of one value and the first text of the next become one.
  function Concat(a: seq<Entry>, b: seq<Entry>): seq<Entry> {
    if a != [] && b != [] && a[|a| - 1].Text? && b[0].Text?
    then a[..|a| - 1] + [Text(a[|a| - 1].text + b[0].text)] + b[1..]
    else a + b
  }

  method Add(left: Value, right: Value) returns (v: Value)
    ensures v.entries == Concat(left.entries, right.entries)
  {
    var entries := left.entries;
    var it := 0;
    if entries != [] && right.entries != [] {
      if entries[|entries| - 1].Text? && right.entries[0].Text? {
        entries := entries[|entries| - 1 := Text(entries[|entries| - 1].text + right.entries[0].text)];
        it := it + 1;
      }
    }
    entries := entries + right.entries[it..];
    v := Value(entries);
  }

  lemma ConcatPrints(a: seq<Entry>, b: seq<Entry>)
    ensures RawEntries(Concat(a, b)) == RawEntries(a) + RawEntries(b)
  {
    hide RawEntries;
    RawOfConcat(a, b);
    if a != [] && b != [] && a[|a| - 1].Text? && b[0].Text? {
      var front, x, y := a[..|a| - 1], a[|a| - 1], b[0];
      var both := Text(x.text + y.text);
      assert a == front + [x];
      assert b == [y] + b[1..];
      RawOfThree(front, x, []);
      RawOfThree([], y, b[1..]);
      RawOfThree(front, both, b[1..]);
    }
  }

  lemma RawOfThree(front: seq<Entry>, e: Entry, back: seq<Entry>)
    ensures RawEntries(front + [e] + back) == RawEntries(front) + RawEntry(e) + RawEntries(back)
    ensures RawEntries([]) == "" && front + [e] + [] == front + [e] && [] + [e] + back == [e] + back
  {
    RawOfConcat(front + [e], back);
    RawOfConcat(front, [e]);
    RawOfOne(e);
  }

  lemma ConcatIsTidy(a: seq<Entry>, b: seq<Entry>)
    requires Tidy(a) && Tidy(b)
    ensures Tidy(Concat(a, b))
  {
  }

  lemma ConcatWithout(a: seq<Entry>, b: seq<Entry>, c: char)
    ensures Without(a, c) && Without(b, c) ==> Without(Concat(a, b), c)
    ensures WithoutBelow(a, c) && WithoutBelow(b, c) ==> WithoutBelow(Concat(a, b), c)
  {
    if Without(a, c) && Without(b, c) {
      forall e | e in Concat(a, b)
        ensures EntryWithout(e, c)
      {
        if a != [] && b != [] {
          assert EntryWithout(a[|a| - 1], c) && EntryWithout(b[0], c);
        }
      }
    }
  }

  // Adding two values is parsing the concatenation of their texts exactly when the sum is tidy, holds no closing
  // parenthesis inside a reference, and no dollar sign of its texts opens a reference, at the seam say.
  lemma ConcatReadsBack(a: Value, b: Value)
    ensures ghost var sum := Concat(a.entries, b.entries);
            ghost var s := RawEntries(a.entries) + RawEntries(b.entries);
            Parse(s) == Value(sum) <==> Tidy(sum) && WithoutBelow(sum, ')') && Inert(s, 0, sum)
  {
    hide Parse, RawEntries, Tidy, WithoutBelow, Inert;
    ConcatPrints(a.entries, b.entries);
    ReadsBackExactly(Value(Concat(a.entries, b.entries)));
  }

  // For values that are tidy and closed themselves only the dollar signs matter, and without any there is no exception.
  lemma TidyConcatReadsBack(a: Value, b: Value)
    requires Tidy(a.entries) && WithoutBelow(a.entries, ')')
    requires Tidy(b.entries) && WithoutBelow(b.entries, ')')
    ensures ghost var sum := Concat(a.entries, b.entries);
            ghost var s := RawEntries(a.entries) + RawEntries(b.entries);
            && (Parse(s) == Value(sum) <==> Inert(s, 0, sum))
            && (Without(a.entries, '$') && Without(b.entries, '$') ==> Parse(s) == Value(sum))
  {
    hide Parse, RawEntries, Tidy, Without, WithoutBelow, Inert;
    var sum := Concat(a.entries, b.entries);
    ConcatReadsBack(a, b);
    ConcatPrints(a.entries, b.entries);
    ConcatIsTidy(a.entries, b.entries);
    ConcatWithout(a.entries, b.entries, ')');
    ConcatWithout(a.entries, b.entries, '$');
    var s := RawEntries(sum);
    assert s[0..|s|] == s;
    if Without(sum, '$') {
      WithoutDollarsIsInert(s, 0, sum, NoDelimiter);
    }
  }

  // A dollar sign at the end of one text and a parenthesis at the start of the next open a reference that neither has.
  lemma SeamOpensReference()
    ensures ghost var a, b := [Text("$")], [Text("(X)")];
            && Parse(RawEntries(a)) == Value(a) && Parse(RawEntries(b)) == Value(b)
            && Parse(RawEntries(a) + RawEntries(b)) == Value([Reference(Value([Text("X")]))])
            && Value(Concat(a, b)) == Value([Text("$(X)")])
  {
    hide Parse, RawEntries;
    RawOfOne(Text("$"));
    RawOfOne(Text("(X)"));
    LoneDollar();
    LoneParentheses();
    ReferenceToX();
    assert "$" + "(X)" == "$(X)";
  }

  lemma LoneDollar()
    ensures Parse("$") == Value([Text("$")])
  {
    hide ScanTo;
    var s := "$";
    assert Next(s, '$', 0) == 0 && Next(s, '$', 1) == 1;
    ScanCases(s, 1, 1, Identifier);
    ScanCases(s, 0, 0, NoDelimiter);
    ScanCases(s, 1, 0, NoDelimiter);
    assert s[0..1] == s;
  }

  lemma LoneParentheses()
    ensures Parse("(X)") == Value([Text("(X)")])
  {
    hide ScanTo;
    var s := "(X)";
    assert Next(s, '$', 0) == 3;
    ScanCases(s, 0, 0, NoDelimiter);
    assert s[0..3] == s;
  }

  lemma ReferenceToX()
    ensures Parse("$(X)") == Value([Reference(Value([Text("X")]))])
  {
    hide ScanTo;
    var s := "$(X)";
    assert Next(s, '$', 0) == 0;
    assert Next(s, '$', 2) == 4;
    assert Next(s, ')', 3) == 3;
    assert Next(s, ')', 2) == 3;
    assert s[2..3] == "X";
    ScanCases(s, 2, 2, Parentheses);
    ScanCases(s, 4, 4, NoDelimiter);
    ScanCases(s, 0, 0, NoDelimiter);
    assert Piece(s, 0, 0) + [Reference(Value([Text("X")]))] + [] == [Reference(Value([Text("X")]))];
  }
}
