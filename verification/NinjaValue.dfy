// Libraries/ninja/Sources/Value.cpp and the `build` statements of Writer.cpp: escaping for Ninja files.
module NinjaValues {
  import opened Wrappers
  import opened Strings
  import opened ShellQuoting

  // ----- Replacing -----

  // Every occurrence from the left, none inside what was put in.
  function Replaced(s: string, search: string, replace: string): string
    requires search != ""
  {
    if s == "" then ""
    else if At(s, search, 0) then replace + Replaced(s[|search|..], search, replace)
    else [s[0]] + Replaced(s[1..], search, replace)
  }

  lemma {:induction false} ReplacedSkips(s: string, search: string, replace: string, n: nat)
    requires search != "" && n <= |s| && forall i: nat :: i < n ==> !At(s, search, i)
    ensures Replaced(s, search, replace) == s[..n] + Replaced(s[n..], search, replace)
    decreases n
  {
    if n > 0 {
      assert !At(s, search, 0);
      forall i: nat | i < n - 1 ensures !At(s[1..], search, i) {
        if i + 1 + |search| <= |s| {
          assert s[1..][i..i + |search|] == s[i + 1..i + 1 + |search|];
        }
        assert !At(s, search, i + 1);
      }
      ReplacedSkips(s[1..], search, replace, n - 1);
      assert s[1..][n - 1..] == s[n..];
      assert s[..n] == [s[0]] + s[1..][..n - 1];
    }
  }

  lemma {:induction false} ReplacedNothing(s: string, search: string, replace: string)
    requires search != "" && forall i: nat :: !At(s, search, i)
    ensures Replaced(s, search, replace) == s
  {
    ReplacedSkips(s, search, replace, |s|);
  }

  method Replace(original: string, search: string, replace: string) returns (s: string)
    requires search != ""
    ensures s == Replaced(original, search, replace)
  {
    hide Replaced, At;
    s := original;
    var pos := 0;
    ghost var rest := original;
    assert s[0..] == rest && s[..0] == "";
    assert "" + Replaced(rest, search, replace) == Replaced(rest, search, replace);
    while true
      invariant pos <= |s| && s[pos..] == rest
      invariant s[..pos] + Replaced(rest, search, replace) == Replaced(original, search, replace)
      decreases |rest|
    {
      var found := Find(s, search, pos);
      FindInRest(s, search, pos);
      if found.None? {
        ReplacedNothing(rest, search, replace);
        assert s == s[..pos] + rest;
        return;
      }
      var k := found.value - pos;
      ReplacedSkips(rest, search, replace, k);
      OneReplaced(rest[k..], search, replace);
      ghost var before := s[..pos];
      ghost var later := rest[k + |search|..];
      assert rest[k..][|search|..] == later;
      assert s[..found.value] == before + rest[..k];
      assert s[found.value + |search|..] == later;
      s := s[..found.value] + replace + s[found.value + |search|..];
      pos := found.value + |replace|;
      assert s[..pos] == before + rest[..k] + replace;
      assert s[pos..] == later;
      Regroup(before, rest[..k], replace, Replaced(later, search, replace));
      rest := later;
    }
  }

  lemma Regroup(a: string, b: string, c: string, d: string)
    ensures a + (b + (c + d)) == a + b + c + d
  {
  }

  lemma OneReplaced(s: string, search: string, replace: string)
    requires search != "" && At(s, search, 0)
    ensures |search| <= |s| && Replaced(s, search, replace) == replace + Replaced(s[|search|..], search, replace)
  {
  }

  // Finding in a text from a position is finding in its rest.
  lemma FindInRest(s: string, search: string, pos: nat)
    requires search != "" && pos <= |s|
    ensures ghost var found := Find(s, search, pos);
            ghost var rest := s[pos..];
            && (found.None? ==> forall i: nat :: !At(rest, search, i))
            && (found.Some? ==> found.value + |search| <= |s| && At(rest[found.value - pos..], search, 0)
                                && forall i: nat :: i < found.value - pos ==> !At(rest, search, i))
  {
    var found := Find(s, search, pos);
    var rest := s[pos..];
    forall i: nat ensures At(rest, search, i) <==> At(s, search, pos + i) {
      if pos + i + |search| <= |s| {
        assert rest[i..i + |search|] == s[pos + i..pos + i + |search|];
      }
    }
    if found.Some? {
      var k := found.value - pos;
      assert rest[k..][0..|search|] == s[found.value..found.value + |search|];
    }
  }

  // ----- Escaping -----

  datatype Chunk = Literal(text: string) | Expression(text: string)

  datatype EscapeMode = ValueMode | PathList | BuildPathList

  function ResolvedChunk(chunk: Chunk, mode: EscapeMode): string {
    match chunk
    case Literal(text) =>
      (match mode
       case ValueMode => Replaced(text, "$", "$$")
       case PathList => Replaced(Replaced(text, "$", "$$"), " ", "$ ")
       case BuildPathList => Replaced(Replaced(Replaced(text, "$", "$$"), " ", "$ "), ":", "$:"))
    case Expression(text) =>
      match mode
      case ValueMode => text
      case PathList => Replaced(Replaced(text, "$ ", "$$ "), " ", "$ ")
      case BuildPathList => Replaced(Replaced(Replaced(Replaced(text, "$ ", "$$ "), " ", "$ "), "$:", "$$:"), ":", "$:")
  }

  function Resolved(chunks: seq<Chunk>, mode: EscapeMode): string {
    if chunks == [] then ""
    else Resolved(chunks[..|chunks| - 1], mode) + ResolvedChunk(chunks[|chunks| - 1], mode)
  }

  method Resolve(chunks: seq<Chunk>, mode: EscapeMode) returns (result: string)
    ensures result == Resolved(chunks, mode)
  {
    hide Replaced;
    result := "";
    for i := 0 to |chunks|
      invariant result == Resolved(chunks[..i], mode)
    {
      assert chunks[..i + 1][..i] == chunks[..i];
      var text := chunks[i].text;
      if chunks[i].Literal? {
        text := Replace(text, "$", "$$");
        if !mode.ValueMode? {
          text := Replace(text, " ", "$ ");
        }
        if mode.BuildPathList? {
          text := Replace(text, ":", "$:");
        }
      } else if !mode.ValueMode? {
        text := Replace(text, "$ ", "$$ ");
        text := Replace(text, " ", "$ ");
        if mode.BuildPathList? {
          text := Replace(text, "$:", "$$:");
          text := Replace(text, ":", "$:");
        }
      }
      result := result + text;
    }
    assert chunks[..|chunks|] == chunks;
  }

  // One pass over the characters: a dollar sign before each special one.
  function DollaredChar(c: char, special: string): string {
    if c in special then ['$', c] else [c]
  }

  function Dollared(s: string, special: string): string {
    if s == "" then "" else DollaredChar(s[0], special) + Dollared(s[1..], special)
  }

  function SpecialIn(mode: EscapeMode): string {
    match mode
    case ValueMode => "$"
    case PathList => "$ "
    case BuildPathList => "$ :"
  }

  lemma AtOne(s: string, c: char)
    ensures At(s, [c], 0) <==> s != "" && s[0] == c
  {
    if s != "" {
      assert s[0..1] == [s[0]];
    }
  }

  lemma {:induction false} DollarPass(s: string)
    ensures Replaced(s, "$", "$$") == Dollared(s, "$")
  {
    AtOne(s, '$');
    if s != "" {
      DollarPass(s[1..]);
    }
  }

  // A later pass for another character escapes that character as well, and nothing that is escaped already.
  lemma {:induction false} NextPass(s: string, special: string, c: char)
    requires c != '$' && c !in special
    ensures Replaced(Dollared(s, special), [c], ['$', c]) == Dollared(s, special + [c])
  {
    hide Replaced, At;
    if s == "" {
      ReplacedEmpty([c], ['$', c]);
    } else {
      var rest := Dollared(s[1..], special);
      NextPass(s[1..], special, c);
      if s[0] in special {
        assert ['$', s[0]] + rest == ['$'] + ([s[0]] + rest);
        PassOne('$', [s[0]] + rest, c);
        PassOne(s[0], rest, c);
        assert ['$', s[0]] + Dollared(s[1..], special + [c]) == ['$'] + ([s[0]] + Dollared(s[1..], special + [c]));
      } else {
        PassOne(s[0], rest, c);
      }
    }
  }

  lemma ReplacedEmpty(search: string, replace: string)
    requires search != ""
    ensures Replaced("", search, replace) == ""
  {
  }

  lemma PassOne(first: char, rest: string, c: char)
    ensures Replaced([first] + rest, [c], ['$', c])
            == (if first == c then ['$', c] else [first]) + Replaced(rest, [c], ['$', c])
  {
    var s := [first] + rest;
    AtOne(s, c);
    assert s[1..] == rest;
  }

  // For every literal string, in every mode: the passes amount to one.
  lemma PassesAreOne(text: string, mode: EscapeMode)
    ensures ResolvedChunk(Literal(text), mode) == Dollared(text, SpecialIn(mode))
    ensures Resolved([Literal(text)], mode) == Dollared(text, SpecialIn(mode))
  {
    hide Replaced, Dollared;
    DollarPass(text);
    NextPass(text, "$", ' ');
    assert "$" + [' '] == "$ ";
    NextPass(text, "$ ", ':');
    assert "$ " + [':'] == "$ :";
    assert [Literal(text)][..0] == [];
    assert Resolved([], mode) == "";
  }

  // ----- Ninja's reading -----

  // The value of a binding: `$$`, `$ ` and `$:` stand for the character; any other dollar sign is a variable or a
  // continued line, and a new line ends the binding.
  function Unescaped(t: string): Option<string>
    decreases |t|
  {
    if t == "" then Some("")
    else if t[0] == '\n' then None
    else if t[0] == '$' then
      if |t| < 2 || t[1] !in "$ :" then None
      else
        match Unescaped(t[2..])
        case None => None
        case Some(rest) => Some([t[1]] + rest)
    else
      match Unescaped(t[1..])
      case None => None
      case Some(rest) => Some([t[0]] + rest)
  }

  lemma UnescapedChar(c: char, mode: EscapeMode, rest: string)
    ensures ghost var r := Unescaped(rest);
            Unescaped(DollaredChar(c, SpecialIn(mode)) + rest)
            == if c == '\n' || r.None? then None else Some([c] + r.value)
  {
    var special := SpecialIn(mode);
    var t := DollaredChar(c, special) + rest;
    if c in special {
      assert t == ['$', c] + rest;
      assert t[2..] == rest;
    } else {
      assert t == [c] + rest;
      assert t[1..] == rest;
    }
  }

  // Exactly the strings without a new line come back.
  lemma {:induction false} UnescapedOfDollared(s: string, mode: EscapeMode)
    ensures Unescaped(Dollared(s, SpecialIn(mode))) == if '\n' in s then None else Some(s)
  {
    hide DollaredChar, SpecialIn;
    if s != "" {
      hide Unescaped;
      UnescapedOfDollared(s[1..], mode);
      UnescapedChar(s[0], mode, Dollared(s[1..], SpecialIn(mode)));
      assert s == [s[0]] + s[1..];
    }
  }

  // ----- Expressions -----

  // In a value an expression is written as it is.
  lemma ExpressionIsKept(text: string)
    ensures Resolved([Expression(text)], ValueMode) == text
  {
    var chunks := [Expression(text)];
    assert Resolved(chunks, ValueMode) == Resolved(chunks[..0], ValueMode) + text;
    assert chunks[..0] == [];
  }

  // In a path a dollar sign goes before each special character, and two more where there was one.
  function DollaredExpression(s: string, special: string): string {
    if s == "" then ""
    else if s[0] == '$' && |s| > 1 && s[1] in special then ['$', '$', '$', s[1]] + DollaredExpression(s[2..], special)
    else DollaredChar(s[0], special) + DollaredExpression(s[1..], special)
  }

  lemma AtTwo(s: string, c: char)
    ensures At(s, ['$', c], 0) <==> |s| > 1 && s[0] == '$' && s[1] == c
  {
    if |s| > 1 {
      assert s[0..2] == [s[0], s[1]];
    }
  }

  lemma ReplacedCases(s: string, search: string, replace: string)
    requires search != ""
    ensures s == "" ==> Replaced(s, search, replace) == ""
    ensures s != "" && !At(s, search, 0) ==> Replaced(s, search, replace) == [s[0]] + Replaced(s[1..], search, replace)
  {
  }

  lemma {:induction false} ExpressionPass(s: string, c: char)
    requires c != '$'
    ensures Replaced(Replaced(s, ['$', c], ['$', '$', c]), [c], ['$', c]) == DollaredExpression(s, [c])
  {
    hide At, Replaced;
    AtTwo(s, c);
    ReplacedCases(s, ['$', c], ['$', '$', c]);
    ReplacedCases("", [c], ['$', c]);
    if s != "" {
      if At(s, ['$', c], 0) {
        OneReplaced(s, ['$', c], ['$', '$', c]);
        ExpressionPass(s[2..], c);
        PassThree(Replaced(s[2..], ['$', c], ['$', '$', c]), c);
      } else {
        ExpressionPass(s[1..], c);
        PassOne(s[0], Replaced(s[1..], ['$', c], ['$', '$', c]), c);
      }
    }
  }

  lemma PassThree(rest: string, c: char)
    requires c != '$'
    ensures Replaced(['$', '$', c] + rest, [c], ['$', c]) == ['$', '$', '$', c] + Replaced(rest, [c], ['$', c])
  {
    hide Replaced;
    var last := Replaced(rest, [c], ['$', c]);
    assert ['$', '$', c] + rest == ['$'] + (['$'] + ([c] + rest));
    PassOne('$', ['$'] + ([c] + rest), c);
    PassOne('$', [c] + rest, c);
    PassOne(c, rest, c);
    assert ['$'] + (['$'] + (['$', c] + last)) == ['$', '$', '$', c] + last;
  }

  lemma ExpressionCases(s: string, special: string)
    ensures s == "" ==> DollaredExpression(s, special) == ""
    ensures |s| > 1 && s[0] == '$' && s[1] in special ==>
              DollaredExpression(s, special) == ['$', '$', '$', s[1]] + DollaredExpression(s[2..], special)
    ensures s != "" && !(|s| > 1 && s[0] == '$' && s[1] in special) ==>
              DollaredExpression(s, special) == DollaredChar(s[0], special) + DollaredExpression(s[1..], special)
  {
  }

  // The pass for a second character escapes it as well, and nothing else.
  lemma {:induction false} SecondExpressionPass(s: string)
    ensures DollaredExpression(DollaredExpression(s, " "), ":") == DollaredExpression(s, " :")
  {
    hide DollaredExpression;
    ExpressionCases(s, " ");
    ExpressionCases(s, " :");
    if s == "" {
      ExpressionCases("", ":");
    } else if |s| > 1 && s[0] == '$' && s[1] == ' ' {
      SecondExpressionPass(s[2..]);
      SecondPassOfThree(DollaredExpression(s[2..], " "));
    } else if |s| > 1 && s[0] == '$' && s[1] == ':' {
      SecondExpressionPass(s[2..]);
      SecondPassOfColon(s[1..], DollaredExpression(s[2..], " "));
    } else {
      SecondExpressionPass(s[1..]);
      var rest := DollaredExpression(s[1..], " ");
      if s[0] == ' ' {
        SecondPassOfTwo(rest);
      } else {
        ExpressionCases(s[1..], " ");
        OrdinaryOrColon(s[0], rest);
      }
    }
  }

  lemma SecondPassOfTwo(rest: string)
    ensures DollaredExpression(['$', ' '] + rest, ":") == ['$', ' '] + DollaredExpression(rest, ":")
  {
    hide DollaredExpression;
    assert ['$', ' '] + rest == ['$'] + ([' '] + rest);
    OrdinaryFirst('$', [' '] + rest);
    OrdinaryFirst(' ', rest);
  }

  lemma SecondPassOfThree(rest: string)
    ensures DollaredExpression(['$', '$', '$', ' '] + rest, ":") == ['$', '$', '$', ' '] + DollaredExpression(rest, ":")
  {
    hide DollaredExpression;
    assert ['$', '$', '$', ' '] + rest == ['$'] + (['$'] + (['$', ' '] + rest));
    OrdinaryFirst('$', ['$'] + (['$', ' '] + rest));
    OrdinaryFirst('$', ['$', ' '] + rest);
    SecondPassOfTwo(rest);
  }

  lemma SecondPassOfColon(s: string, rest: string)
    requires s != "" && s[0] == ':' && rest == DollaredExpression(s[1..], " ")
    ensures ['$'] + DollaredExpression(s, " ") == ['$', ':'] + rest
    ensures DollaredExpression(['$', ':'] + rest, ":") == ['$', '$', '$', ':'] + DollaredExpression(rest, ":")
  {
    hide DollaredExpression;
    ExpressionCases(s, " ");
    var u := ['$', ':'] + rest;
    ExpressionCases(u, ":");
    assert u[2..] == rest;
  }

  lemma OrdinaryFirst(c: char, rest: string)
    requires c != ':' && (c == '$' && rest != "" ==> rest[0] != ':')
    ensures DollaredExpression([c] + rest, ":") == [c] + DollaredExpression(rest, ":")
  {
    assert ([c] + rest)[1..] == rest;
  }

  lemma OrdinaryOrColon(c: char, rest: string)
    requires c == '$' && rest != "" ==> rest[0] != ':'
    ensures DollaredExpression([c] + rest, ":") == DollaredChar(c, ":") + DollaredExpression(rest, ":")
  {
    assert ([c] + rest)[1..] == rest;
  }

  lemma ExpressionPassesAreOne(text: string)
    ensures Resolved([Expression(text)], PathList) == DollaredExpression(text, " ")
    ensures Resolved([Expression(text)], BuildPathList) == DollaredExpression(text, " :")
  {
    hide Replaced, DollaredExpression;
    ExpressionPass(text, ' ');
    ExpressionPass(DollaredExpression(text, " "), ':');
    SecondExpressionPass(text);
    assert "$ " == ['$', ' '] && "$$ " == ['$', '$', ' '] && "$:" == ['$', ':'] && "$$:" == ['$', '$', ':'];
    assert " " == [' '] && ":" == [':'];
    assert [Expression(text)][..0] == [];
    assert Resolved([], PathList) == "" && Resolved([], BuildPathList) == "";
  }

  // What Ninja takes a text for: characters and variables.
  datatype Piece = Char(c: char) | Variable(name: string)

  predicate IsNameChar(c: char, braces: bool) {
    'a' <= c <= 'z' || 'A' <= c <= 'Z' || '0' <= c <= '9' || c == '_' || c == '-' || (braces && c == '.')
  }

  function NameLength(t: string, braces: bool): (n: nat)
    ensures n <= |t| && (forall i :: 0 <= i < n ==> IsNameChar(t[i], braces)) && (n < |t| ==> !IsNameChar(t[n], braces))
  {
    if t == "" || !IsNameChar(t[0], braces) then 0 else 1 + NameLength(t[1..], braces)
  }

  // A variable at the start of a text, and the number of characters it takes.
  function VariableAt(t: string): (v: Option<(string, nat)>)
    ensures v.Some? ==> 2 <= v.value.1 <= |t|
  {
    if |t| < 2 || t[0] != '$' then None
    else if t[1] == '{' then
      var n := NameLength(t[2..], true);
      if n > 0 && 2 + n < |t| && t[2 + n] == '}' then Some((t[2..2 + n], 3 + n)) else None
    else
      var n := NameLength(t[1..], false);
      if n > 0 then Some((t[1..1 + n], 1 + n)) else None
  }

  function Before(piece: Piece, rest: Option<seq<Piece>>): Option<seq<Piece>> {
    if rest.None? then None else Some([piece] + rest.value)
  }

  // A whole text as Ninja evaluates it; one of `ends`, or a new line, would end it.
  function Evaluated(t: string, ends: string): Option<seq<Piece>>
    decreases |t|
  {
    if t == "" then Some([])
    else if t[0] == '\n' || t[0] in ends then None
    else if t[0] != '$' then Before(Char(t[0]), Evaluated(t[1..], ends))
    else if |t| > 1 && t[1] in "$ :" then Before(Char(t[1]), Evaluated(t[2..], ends))
    else
      var v := VariableAt(t);
      if v.Some? then Before(Variable(v.value.0), Evaluated(t[v.value.1..], ends))
      else None
  }

  // What an expression stands for in a path: variables are variables, special characters stand for themselves, and so
  // does a dollar sign before one. Two dollar signs before one end the path there.
  function Meaning(t: string, special: string): Option<seq<Piece>>
    decreases |t|
  {
    if t == "" then Some([])
    else if t[0] == '\n' || (t[0] == '|' || (t[0] !in special && t[0] in " :")) then None
    else if t[0] != '$' then Before(Char(t[0]), Meaning(t[1..], special))
    else if |t| > 1 && t[1] in special then Before(Char('$'), Before(Char(t[1]), Meaning(t[2..], special)))
    else if |t| > 1 && t[1] in "$ :" then
      if t[1] == '$' && |t| > 2 && t[2] in special then None
      else Before(Char(t[1]), Meaning(t[2..], special))
    else
      var v := VariableAt(t);
      if v.Some? then Before(Variable(v.value.0), Meaning(t[v.value.1..], special))
      else None
  }

  lemma FirstCharacter(s: string, special: string)
    requires special == " " || special == " :"
    ensures s == "" ==> DollaredExpression(s, special) == ""
    ensures s != "" ==> DollaredExpression(s, special) != ""
    ensures s != "" ==> DollaredExpression(s, special)[0] == if s[0] in special then '$' else s[0]
    ensures s != "" && s[0] !in special && (s[0] == '$' && |s| > 1 ==> s[1] !in special) ==>
              DollaredExpression(s, special) == [s[0]] + DollaredExpression(s[1..], special)
  {
  }

  lemma {:induction false} NamesAreKept(s: string, special: string, braces: bool)
    requires special == " " || special == " :"
    ensures ghost var n := NameLength(s, braces);
            && NameLength(DollaredExpression(s, special), braces) == n
            && DollaredExpression(s, special) == s[..n] + DollaredExpression(s[n..], special)
  {
    hide DollaredExpression, NameLength;
    FirstCharacter(s, special);
    NameLengthCases(s, braces);
    var u := DollaredExpression(s, special);
    NameLengthCases(u, braces);
    if s != "" && IsNameChar(s[0], braces) {
      NamesAreKept(s[1..], special, braces);
      var n := NameLength(s[1..], braces);
      OneMoreKept(s, n, DollaredExpression(s[1..], special), DollaredExpression(s[1..][n..], special));
    } else {
      NothingKept(s, u);
    }
  }

  lemma OneMoreKept(s: string, n: nat, rest: string, later: string)
    requires s != "" && n <= |s[1..]| && rest == s[1..][..n] + later
    ensures [s[0]] + rest == s[..n + 1] + later && ([s[0]] + rest)[1..] == rest
    ensures s[1..][n..] == s[n + 1..]
  {
    assert s[..n + 1] == [s[0]] + s[1..][..n];
  }

  lemma NothingKept(s: string, u: string)
    ensures s[0..] == s && s[..0] + u == u
  {
  }

  lemma NameLengthCases(t: string, braces: bool)
    ensures NameLength(t, braces)
            == if t == "" || !IsNameChar(t[0], braces) then 0 else 1 + NameLength(t[1..], braces)
  {
  }

  // Escaping leaves variables as they are.
  lemma VariablesAreKept(t: string, special: string)
    requires special == " " || special == " :"
    requires t != "" && t[0] == '$' && (|t| > 1 ==> t[1] !in "$ :")
    ensures VariableAt(DollaredExpression(t, special)) == VariableAt(t)
    ensures VariableAt(t).Some? ==>
              ghost var k := VariableAt(t).value.1;
              DollaredExpression(t, special)[k..] == DollaredExpression(t[k..], special)
  {
    hide DollaredExpression, NameLength, VariableAt;
    FirstCharacter(t, special);
    FirstCharacter(t[1..], special);
    if |t| > 1 {
      var u := DollaredExpression(t, special);
      assert u == ['$'] + DollaredExpression(t[1..], special);
      if t[1] == '{' {
        assert t[1..][1..] == t[2..];
        assert u == ['$', '{'] + DollaredExpression(t[2..], special);
        BracedVariable(t, special);
      } else {
        BareVariable(t, special);
      }
    } else {
      assert t == "$" && t[1..] == "";
      assert DollaredExpression(t, special) == "$";
      assert VariableAt(t).None?;
    }
  }

  lemma BracedVariable(t: string, special: string)
    requires special == " " || special == " :"
    requires |t| > 1 && t[0] == '$' && t[1] == '{'
    ensures ghost var u := ['$', '{'] + DollaredExpression(t[2..], special);
            && VariableAt(u) == VariableAt(t)
            && (VariableAt(t).Some? ==>
                  u[VariableAt(t).value.1..] == DollaredExpression(t[VariableAt(t).value.1..], special))
  {
    hide DollaredExpression, NameLength;
    var inner := t[2..];
    var n := NameLength(inner, true);
    NamesAreKept(inner, special, true);
    var rest := inner[n..];
    FirstCharacter(rest, special);
    var u := ['$', '{'] + DollaredExpression(inner, special);
    assert u[2..] == DollaredExpression(inner, special);
    assert u[2..2 + n] == inner[..n] == t[2..2 + n];
    assert u[2 + n..] == DollaredExpression(rest, special);
    assert 2 + n < |t| <==> rest != "";
    assert 2 + n < |u| <==> rest != "";
    if rest != "" {
      assert u[2 + n] == u[2 + n..][0];
      assert t[2 + n] == rest[0];
      assert rest[1..] == t[3 + n..];
      assert rest[0] == '}' ==> u[3 + n..] == u[2 + n..][1..];
    }
  }

  lemma BareVariable(t: string, special: string)
    requires special == " " || special == " :"
    requires |t| > 1 && t[0] == '$' && t[1] != '{' && t[1] !in "$ :"
    ensures ghost var u := ['$'] + DollaredExpression(t[1..], special);
            && VariableAt(u) == VariableAt(t)
            && (VariableAt(t).Some? ==>
                  u[VariableAt(t).value.1..] == DollaredExpression(t[VariableAt(t).value.1..], special))
  {
    hide DollaredExpression, NameLength;
    var inner := t[1..];
    var n := NameLength(inner, false);
    NamesAreKept(inner, special, false);
    FirstCharacter(inner, special);
    var u := ['$'] + DollaredExpression(inner, special);
    assert u[1..] == DollaredExpression(inner, special);
    assert u[1] == u[1..][0];
    assert u[1..1 + n] == inner[..n] == t[1..1 + n];
    assert inner[n..] == t[1 + n..];
    assert u[1 + n..] == DollaredExpression(inner[n..], special);
  }

  lemma EvaluatedCases(t: string, ends: string)
    ensures t == "" ==> Evaluated(t, ends) == Some([])
    ensures t != "" && (t[0] == '\n' || t[0] in ends) ==> Evaluated(t, ends) == None
    ensures t != "" && t[0] != '\n' && t[0] !in ends && t[0] != '$' ==>
              Evaluated(t, ends) == Before(Char(t[0]), Evaluated(t[1..], ends))
    ensures |t| > 1 && t[0] == '$' && '$' !in ends && t[1] in "$ :" ==>
              Evaluated(t, ends) == Before(Char(t[1]), Evaluated(t[2..], ends))
    ensures t != "" && t[0] == '$' && '$' !in ends && (|t| > 1 ==> t[1] !in "$ :") ==>
              Evaluated(t, ends)
              == if VariableAt(t).None? then None
                 else Before(Variable(VariableAt(t).value.0), Evaluated(t[VariableAt(t).value.1..], ends))
  {
    hide VariableAt;
  }

  // For every expression, in both path modes: Ninja reads what it stands for.
  lemma {:induction false} ExpressionReadsBack(t: string, special: string)
    requires special == " " || special == " :"
    ensures Evaluated(DollaredExpression(t, special), " :|") == Meaning(t, special)
    decreases |t|
  {
    hide DollaredExpression, VariableAt, Evaluated;
    FirstCharacter(t, special);
    var u := DollaredExpression(t, special);
    EvaluatedCases(u, " :|");
    if t == "" || t[0] == '\n' || t[0] == '|' || (t[0] !in special && t[0] in " :") {
    } else if t[0] != '$' {
      ExpressionReadsBack(t[1..], special);
      if t[0] in special {
        SpecialCharacter(t, special);
      } else {
        assert u[1..] == DollaredExpression(t[1..], special);
      }
    } else if |t| > 1 && t[1] in special {
      ExpressionReadsBack(t[2..], special);
      DollarBefore(t, special);
    } else if |t| > 1 && t[1] in "$ :" {
      ExpressionReadsBack(t[2..], special);
      DollarOrColon(t, special);
    } else {
      VariablesAreKept(t, special);
      assert |u| > 1 ==> u[1] !in "$ :" by {
        FirstCharacter(t[1..], special);
        assert u[1..] == DollaredExpression(t[1..], special);
      }
      if VariableAt(t).Some? {
        ExpressionReadsBack(t[VariableAt(t).value.1..], special);
      }
    }
  }

  // A special character becomes an escaped one.
  lemma SpecialCharacter(t: string, special: string)
    requires special == " " || special == " :"
    requires t != "" && t[0] in special
    ensures Evaluated(DollaredExpression(t, special), " :|")
            == Before(Char(t[0]), Evaluated(DollaredExpression(t[1..], special), " :|"))
  {
    hide Evaluated;
    var u := DollaredExpression(t, special);
    assert u == ['$', t[0]] + DollaredExpression(t[1..], special);
    assert u[2..] == DollaredExpression(t[1..], special);
    EvaluatedCases(u, " :|");
  }

  // A dollar sign before a special character becomes an escaped one as well.
  lemma DollarBefore(t: string, special: string)
    requires special == " " || special == " :"
    requires |t| > 1 && t[0] == '$' && t[1] in special
    ensures Evaluated(DollaredExpression(t, special), " :|")
            == Before(Char('$'), Before(Char(t[1]), Evaluated(DollaredExpression(t[2..], special), " :|")))
  {
    hide Evaluated;
    var u := DollaredExpression(t, special);
    assert u == ['$', '$', '$', t[1]] + DollaredExpression(t[2..], special);
    EvaluatedCases(u, " :|");
    var v := u[2..];
    assert v == ['$', t[1]] + DollaredExpression(t[2..], special);
    EvaluatedCases(v, " :|");
    assert v[2..] == DollaredExpression(t[2..], special);
  }

  // An escaped dollar sign stays one, and so does a colon where it is not special.
  lemma DollarOrColon(t: string, special: string)
    requires special == " " || special == " :"
    requires |t| > 1 && t[0] == '$' && t[1] !in special && t[1] in "$ :"
    ensures Evaluated(DollaredExpression(t, special), " :|")
            == if t[1] == '$' && |t| > 2 && t[2] in special then None
               else Before(Char(t[1]), Evaluated(DollaredExpression(t[2..], special), " :|"))
  {
    hide Evaluated, DollaredExpression;
    FirstCharacter(t, special);
    FirstCharacter(t[1..], special);
    var u := DollaredExpression(t, special);
    EvaluatedCases(u, " :|");
    assert t[1..][1..] == t[2..];
    if t[1] == '$' && |t| > 2 && t[2] in special {
      TwoDollars(t, special);
    } else {
      assert u == [t[0]] + ([t[1]] + DollaredExpression(t[2..], special));
      assert u[2..] == DollaredExpression(t[2..], special);
    }
  }

  lemma TwoDollars(t: string, special: string)
    requires special == " " || special == " :"
    requires |t| > 2 && t[0] == '$' && t[1] == '$' && t[2] in special
    ensures Evaluated(DollaredExpression(t, special), " :|").None?
  {
    hide Evaluated;
    var rest := DollaredExpression(t[3..], special);
    var u := DollaredExpression(t, special);
    assert t[1..][2..] == t[3..];
    assert DollaredExpression(t[1..], special) == ['$', '$', '$', t[2]] + rest;
    assert u == ['$', '$', '$', '$', t[2]] + rest;
    EvaluatedCases(u, " :|");
    EvaluatedCases(u[2..], " :|");
    EvaluatedCases(u[2..][2..], " :|");
  }

  // Where no dollar sign stands before a special character and nothing else ends a path, an expression is read in a
  // path as it is in a value.
  lemma {:induction false} PathReadsLikeValue(t: string, special: string)
    requires special == " " || special == " :"
    requires '|' !in t && (special == " " ==> ':' !in t)
    requires forall i :: 0 < i < |t| && t[i] in special ==> t[i - 1] != '$'
    ensures Evaluated(DollaredExpression(t, special), " :|") == Evaluated(t, "")
    decreases |t|
  {
    hide DollaredExpression, VariableAt, Evaluated;
    ExpressionReadsBack(t, special);
    EvaluatedCases(t, "");
    if t != "" {
      ExpressionReadsBack(t[1..], special);
      if t[0] != '$' {
        PathReadsLikeValue(t[1..], special);
      } else if |t| > 1 && t[1] in "$ :" {
        assert t[1] == '$';
        ExpressionReadsBack(t[2..], special);
        PathReadsLikeValue(t[2..], special);
      } else if VariableAt(t).Some? {
        var k := VariableAt(t).value.1;
        ExpressionReadsBack(t[k..], special);
        PathReadsLikeValue(t[k..], special);
      }
    }
  }

  // What an invocation's `exec` binding is read as: unescaped by Ninja, then split by the shell.
  function ReadExec(binding: string): Option<seq<string>> {
    match Unescaped(binding)
    case None => None
    case Some(line) => Words(line)
  }

  lemma {:induction false} NewlineInQuoted(s: string)
    ensures '\n' in QuotedChars(s) <==> '\n' in s
  {
    if s != "" {
      NewlineInQuoted(s[1..]);
    }
  }

  lemma NewlineInWord(word: string)
    ensures '\n' in Quoted(word) <==> '\n' in word
  {
    hide QuotedChars;
    NewlineInQuoted(word);
  }

  predicate AnyNewline(words: seq<string>) {
    exists w :: w in words && '\n' in w
  }

  lemma {:induction false} NewlineInLine(words: seq<string>)
    requires words != []
    ensures '\n' in CommandLine(words) <==> AnyNewline(words)
  {
    hide Quoted;
    var n := |words| - 1;
    NewlineInWord(words[n]);
    if n > 0 {
      NewlineInLine(words[..n]);
      assert words == words[..n] + [words[n]];
    } else {
      assert words == [words[0]];
    }
  }

  // The executable and its arguments reach the process as they were given exactly when none is empty and none has a new
  // line.
  lemma ExecReadsBack(words: seq<string>)
    requires words != []
    ensures ReadExec(Resolved([Literal(CommandLine(words))], ValueMode)) == Some(words)
            <==> "" !in words && !AnyNewline(words)
  {
    hide Words, CommandLine, Unescaped, Dollared;
    PassesAreOne(CommandLine(words), ValueMode);
    UnescapedOfDollared(CommandLine(words), ValueMode);
    NewlineInLine(words);
    ShellReadsWords(words);
  }

  // ----- Build statements -----

  datatype Token = Path(path: string) | Colon | Bar | DoubleBar

  function Flushed(path: string): seq<Token> {
    if path == "" then [] else [Path(path)]
  }

  function Prepended(before: seq<Token>, tokens: Option<seq<Token>>): Option<seq<Token>> {
    if tokens.None? then None else Some(before + tokens.value)
  }

  // A line of paths: an escaped character belongs to the path, a space ends it, as do a colon and a bar.
  function Lexed(t: string, path: string): Option<seq<Token>>
    decreases |t|
  {
    if t == "" then Some(Flushed(path))
    else
      match t[0]
      case '\n' => None
      case '$' => if |t| < 2 || t[1] !in "$ :" then None else Lexed(t[2..], path + [t[1]])
      case ' ' => Prepended(Flushed(path), Lexed(t[1..], ""))
      case ':' => Prepended(Flushed(path) + [Colon], Lexed(t[1..], ""))
      case '|' =>
        if |t| >= 2 && t[1] == '|' then Prepended(Flushed(path) + [DoubleBar], Lexed(t[2..], ""))
        else Prepended(Flushed(path) + [Bar], Lexed(t[1..], ""))
      case c => Lexed(t[1..], path + [c])
  }

  predicate IsPath(path: string) {
    path != "" && '|' !in path && '\n' !in path
  }

  function EscapedPath(path: string): string {
    Dollared(path, "$ :")
  }

  lemma LexedChar(c: char, rest: string, path: string)
    requires c != '|' && c != '\n'
    ensures Lexed(DollaredChar(c, "$ :") + rest, path) == Lexed(rest, path + [c])
  {
    if c in "$ :" {
      var t := ['$', c] + rest;
      assert t[2..] == rest;
    } else {
      var t := [c] + rest;
      assert t[1..] == rest;
    }
  }

  lemma {:induction false} LexedPath(p: string, rest: string, path: string)
    requires '|' !in p && '\n' !in p
    ensures Lexed(EscapedPath(p) + rest, path) == Lexed(rest, path + p)
    decreases |p|
  {
    hide Lexed, DollaredChar;
    if p == "" {
      assert EscapedPath(p) + rest == rest;
      assert path + p == path;
    } else {
      var more := EscapedPath(p[1..]) + rest;
      assert EscapedPath(p) + rest == DollaredChar(p[0], "$ :") + more;
      LexedChar(p[0], more, path);
      LexedPath(p[1..], rest, path + [p[0]]);
      assert path + [p[0]] + p[1..] == path + p;
    }
  }

  datatype BuildStatement = BuildStatement(
    outputs: seq<string>,
    rule: string,
    inputs: seq<string>,
    dependencies: seq<string>,
    orders: seq<string>)

  // Paths, each after a space.
  function PathsText(paths: seq<string>): string {
    if paths == [] then "" else PathsText(paths[..|paths| - 1]) + " " + EscapedPath(paths[|paths| - 1])
  }

  function OutputsText(paths: seq<string>): string {
    if paths == [] then ""
    else OutputsText(paths[..|paths| - 1]) + (if |paths| == 1 then "" else " ") + EscapedPath(paths[|paths| - 1])
  }

  // The line that Writer::build writes for literal paths.
  function BuildText(b: BuildStatement): string {
    OutputsText(b.outputs) + ": " + b.rule + PathsText(b.inputs)
    + (if b.dependencies == [] then "" else " |" + PathsText(b.dependencies))
    + (if b.orders == [] then "" else " ||" + PathsText(b.orders))
  }

  method WritePaths(paths: seq<string>) returns (text: string)
    ensures text == PathsText(paths)
  {
    hide Resolved, Dollared;
    text := "";
    for i := 0 to |paths|
      invariant text == PathsText(paths[..i])
    {
      assert paths[..i + 1][..i] == paths[..i];
      PassesAreOne(paths[i], BuildPathList);
      var path := Resolve([Literal(paths[i])], BuildPathList);
      text := text + " " + path;
    }
    assert paths[..|paths|] == paths;
  }

  // Writer::build
  method Build(b: BuildStatement) returns (remaining: string)
    ensures remaining == BuildText(b)
  {
    hide Resolved, Dollared;
    remaining := "";
    for i := 0 to |b.outputs|
      invariant remaining == OutputsText(b.outputs[..i])
    {
      assert b.outputs[..i + 1][..i] == b.outputs[..i];
      if i != 0 {
        remaining := remaining + " ";
      }
      PassesAreOne(b.outputs[i], BuildPathList);
      var output := Resolve([Literal(b.outputs[i])], BuildPathList);
      remaining := remaining + output;
    }
    assert b.outputs[..|b.outputs|] == b.outputs;
    remaining := remaining + ": " + b.rule;
    var inputs := WritePaths(b.inputs);
    remaining := remaining + inputs;
    if b.dependencies != [] {
      var dependencies := WritePaths(b.dependencies);
      remaining := remaining + (" |" + dependencies);
    }
    if b.orders != [] {
      var orders := WritePaths(b.orders);
      remaining := remaining + (" ||" + orders);
    }
  }

  function Paths(paths: seq<string>): seq<Token> {
    seq(|paths|, i requires 0 <= i < |paths| => Path(paths[i]))
  }

  ghost predicate ArePaths(paths: seq<string>) {
    forall p :: p in paths ==> IsPath(p)
  }

  // The text after a path that ends the path.
  predicate EndsPath(rest: string) {
    rest == "" || rest[0] == ' ' || rest[0] == ':'
  }

  lemma LexedEnd(rest: string, path: string)
    requires EndsPath(rest)
    ensures Lexed(rest, path) == Prepended(Flushed(path), Lexed(rest, ""))
    ensures rest != "" && rest[0] == ' ' ==> Lexed(rest, "") == Lexed(rest[1..], "")
    ensures rest != "" && rest[0] == ':' ==> Lexed(rest, "") == Prepended([Colon], Lexed(rest[1..], ""))
  {
    if rest == "" {
      assert Flushed(path) + [] == Flushed(path);
    } else {
      hide Lexed;
      LexedUnfold(rest, path);
      LexedUnfold(rest, "");
      var more := Lexed(rest[1..], "");
      if more.Some? {
        assert Flushed("") + more.value == more.value;
        assert Flushed(path) + [Colon] + more.value == Flushed(path) + ([Colon] + more.value);
        assert [] + [Colon] == [Colon];
      }
    }
  }

  lemma LexedUnfold(t: string, path: string)
    requires t != ""
    ensures t[0] == ' ' ==> Lexed(t, path) == Prepended(Flushed(path), Lexed(t[1..], ""))
    ensures t[0] == ':' ==> Lexed(t, path) == Prepended(Flushed(path) + [Colon], Lexed(t[1..], ""))
    ensures t[0] == '|' && |t| >= 2 && t[1] == '|' ==>
              Lexed(t, path) == Prepended(Flushed(path) + [DoubleBar], Lexed(t[2..], ""))
    ensures t[0] == '|' && (|t| < 2 || t[1] != '|') ==>
              Lexed(t, path) == Prepended(Flushed(path) + [Bar], Lexed(t[1..], ""))
  {
  }

  lemma PrependedTwice(a: seq<Token>, b: seq<Token>, tokens: Option<seq<Token>>)
    ensures Prepended(a, Prepended(b, tokens)) == Prepended(a + b, tokens)
    ensures Prepended([], tokens) == tokens
  {
    if tokens.Some? {
      assert a + (b + tokens.value) == a + b + tokens.value;
      assert [] + tokens.value == tokens.value;
    }
  }

  lemma {:induction false} LexedPaths(paths: seq<string>, rest: string)
    requires ArePaths(paths) && EndsPath(rest)
    ensures Lexed(PathsText(paths) + rest, "") == Prepended(Paths(paths), Lexed(rest, ""))
    decreases |paths|
  {
    hide Lexed, EscapedPath, Prepended;
    if paths == [] {
      assert PathsText(paths) + rest == rest;
      assert Paths(paths) == [];
      PrependedTwice([], [], Lexed(rest, ""));
    } else {
      var front, last := paths[..|paths| - 1], paths[|paths| - 1];
      assert last in paths && IsPath(last);
      var more := " " + (EscapedPath(last) + rest);
      assert PathsText(paths) + rest == PathsText(front) + more;
      assert forall p :: p in front ==> p in paths;
      LexedPaths(front, more);
      LexedEnd(more, "");
      assert more[1..] == EscapedPath(last) + rest;
      LexedPath(last, rest, "");
      assert "" + last == last;
      LexedEnd(rest, last);
      PrependedTwice(Paths(front), [Path(last)], Lexed(rest, ""));
      assert Paths(paths) == Paths(front) + [Path(last)];
    }
  }

  lemma {:induction false} LexedOutputs(paths: seq<string>, rest: string)
    requires ArePaths(paths) && EndsPath(rest)
    ensures Lexed(OutputsText(paths) + rest, "") == Prepended(Paths(paths), Lexed(rest, ""))
  {
    hide Lexed, EscapedPath, Prepended, PathsText;
    if paths == [] {
      assert OutputsText(paths) + rest == rest;
      assert Paths(paths) == [];
      PrependedTwice([], [], Lexed(rest, ""));
    } else {
      // A space in front makes no difference.
      OutputsAreSpaced(paths);
      var spaced := PathsText(paths) + rest;
      assert spaced == " " + (OutputsText(paths) + rest);
      LexedPaths(paths, rest);
      LexedEnd(spaced, "");
      assert spaced[1..] == OutputsText(paths) + rest;
    }
  }

  lemma {:induction false} OutputsAreSpaced(paths: seq<string>)
    requires paths != []
    ensures PathsText(paths) == " " + OutputsText(paths)
  {
    hide EscapedPath;
    var front, last := paths[..|paths| - 1], EscapedPath(paths[|paths| - 1]);
    assert PathsText(paths) == PathsText(front) + " " + last;
    if front != [] {
      assert OutputsText(paths) == OutputsText(front) + " " + last;
      hide PathsText, OutputsText;
      OutputsAreSpaced(front);
    } else {
      assert PathsText(front) == "" && OutputsText(front) == "";
    }
  }

  // A rule name, which is not escaped.
  predicate IsName(rule: string) {
    rule != "" && forall c :: c in rule ==> c !in "$ :|\n"
  }

  lemma {:induction false} NameIsPlain(rule: string)
    requires forall c :: c in rule ==> c !in "$ :|\n"
    ensures EscapedPath(rule) == rule
  {
    if rule != "" {
      assert rule[0] in rule;
      assert forall c :: c in rule[1..] ==> c in rule;
      NameIsPlain(rule[1..]);
    }
  }

  function DependenciesText(b: BuildStatement): string {
    if b.dependencies == [] then "" else " |" + PathsText(b.dependencies)
  }

  function OrdersText(b: BuildStatement): string {
    if b.orders == [] then "" else " ||" + PathsText(b.orders)
  }

  lemma BuildTextNests(b: BuildStatement)
    ensures BuildText(b)
            == OutputsText(b.outputs)
               + (":" + (" " + b.rule + (PathsText(b.inputs) + (DependenciesText(b) + OrdersText(b)))))
  {
    hide OutputsText, PathsText;
    assert ": " == ":" + " ";
  }

  lemma PathsTextBegins(paths: seq<string>)
    ensures paths != [] ==> PathsText(paths) != "" && PathsText(paths)[0] == ' '
    ensures paths == [] ==> PathsText(paths) == ""
  {
    if paths != [] {
      OutputsAreSpaced(paths);
    }
  }

  // A bar and the paths after it.
  lemma LexedBar(paths: seq<string>, rest: string, double: bool)
    requires paths != [] && ArePaths(paths) && EndsPath(rest)
    ensures Lexed((if double then " ||" else " |") + PathsText(paths) + rest, "")
            == Prepended([if double then DoubleBar else Bar] + Paths(paths), Lexed(rest, ""))
  {
    hide Lexed, EscapedPath, PathsText, Prepended;
    PathsTextBegins(paths);
    var more := PathsText(paths) + rest;
    var bar := if double then "||" else "|";
    var text := (if double then " ||" else " |") + PathsText(paths) + rest;
    assert text == " " + (bar + more);
    LexedEnd(text, "");
    assert text[1..] == bar + more;
    LexedUnfold(bar + more, "");
    assert (bar + more)[|bar|..] == more;
    LexedPaths(paths, rest);
    var token := if double then DoubleBar else Bar;
    assert Flushed("") + [token] == [token];
    PrependedTwice([token], Paths(paths), Lexed(rest, ""));
  }

  ghost predicate IsWritable(b: BuildStatement) {
    ArePaths(b.outputs) && IsName(b.rule) && ArePaths(b.inputs) && ArePaths(b.dependencies) && ArePaths(b.orders)
  }

  function DependencyTokens(b: BuildStatement): seq<Token> {
    if b.dependencies == [] then [] else [Bar] + Paths(b.dependencies)
  }

  function OrderTokens(b: BuildStatement): seq<Token> {
    if b.orders == [] then [] else [DoubleBar] + Paths(b.orders)
  }

  lemma LexedTail(b: BuildStatement)
    requires IsWritable(b)
    ensures EndsPath(DependenciesText(b) + OrdersText(b))
    ensures Lexed(DependenciesText(b) + OrdersText(b), "") == Some(DependencyTokens(b) + OrderTokens(b))
  {
    hide Lexed, PathsText, ArePaths;
    LexedNothing();
    if b.orders != [] {
      LexedBar(b.orders, "", true);
      assert OrdersText(b) + "" == OrdersText(b);
      assert OrderTokens(b) + [] == OrderTokens(b);
    }
    if b.dependencies != [] {
      LexedBar(b.dependencies, OrdersText(b), false);
    } else {
      assert "" + OrdersText(b) == OrdersText(b);
      assert [] + OrderTokens(b) == OrderTokens(b);
    }
  }

  lemma LexedNothing()
    ensures Lexed("", "") == Some([])
  {
  }

  // The line is read as the tokens that were meant.
  lemma LexedBuildText(b: BuildStatement)
    requires IsWritable(b)
    ensures Lexed(BuildText(b), "")
            == Some(Paths(b.outputs)
                    + ([Colon] + ([Path(b.rule)] + (Paths(b.inputs) + (DependencyTokens(b) + OrderTokens(b))))))
  {
    hide Lexed, PathsText, OutputsText, ArePaths, EscapedPath, DependenciesText, OrdersText, DependencyTokens,
      OrderTokens;
    LexedTail(b);
    BuildTextNests(b);
    var tail := DependenciesText(b) + OrdersText(b);
    var afterRule := PathsText(b.inputs) + tail;
    PathsTextBegins(b.inputs);
    assert b.inputs == [] ==> afterRule == tail;
    LexedPaths(b.inputs, tail);
    RuleIsPath(b.rule);
    LexedPaths([b.rule], afterRule);
    var afterColon := " " + b.rule + afterRule;
    assert (":" + afterColon)[1..] == afterColon;
    LexedEnd(":" + afterColon, "");
    LexedOutputs(b.outputs, ":" + afterColon);
    assert Paths([b.rule]) == [Path(b.rule)];
  }

  lemma RuleIsPath(rule: string)
    requires IsName(rule)
    ensures ArePaths([rule]) && PathsText([rule]) == " " + rule
  {
    NameIsPlain(rule);
    assert [rule][..0] == [];
    assert PathsText([]) == "";
    assert '|' !in rule && '\n' !in rule;
  }

  // The leading paths of some tokens, and what follows them.
  function TakePaths(tokens: seq<Token>): seq<string> {
    if tokens == [] || !tokens[0].Path? then [] else [tokens[0].path] + TakePaths(tokens[1..])
  }

  function AfterPaths(tokens: seq<Token>): seq<Token> {
    if tokens == [] || !tokens[0].Path? then tokens else AfterPaths(tokens[1..])
  }

  lemma {:induction false} TakesPaths(paths: seq<string>, rest: seq<Token>)
    requires rest == [] || !rest[0].Path?
    ensures TakePaths(Paths(paths) + rest) == paths && AfterPaths(Paths(paths) + rest) == rest
    decreases |paths|
  {
    if paths == [] {
      assert Paths(paths) + rest == rest;
    } else {
      assert (Paths(paths) + rest)[0] == Path(paths[0]);
      assert (Paths(paths) + rest)[1..] == Paths(paths[1..]) + rest;
      TakesPaths(paths[1..], rest);
      assert paths == [paths[0]] + paths[1..];
    }
  }

  // A build statement: outputs, a colon, a rule, inputs, dependencies after a bar, orders after two.
  function Statement(tokens: seq<Token>): Option<BuildStatement> {
    var afterOutputs := AfterPaths(tokens);
    if |afterOutputs| < 2 || !afterOutputs[0].Colon? || !afterOutputs[1].Path? then None
    else
      var afterInputs := AfterPaths(afterOutputs[2..]);
      var hasBar := afterInputs != [] && afterInputs[0].Bar?;
      var dependencies := if hasBar then TakePaths(afterInputs[1..]) else [];
      var afterDependencies := if hasBar then AfterPaths(afterInputs[1..]) else afterInputs;
      var hasDoubleBar := afterDependencies != [] && afterDependencies[0].DoubleBar?;
      var orders := if hasDoubleBar then TakePaths(afterDependencies[1..]) else [];
      if (if hasDoubleBar then AfterPaths(afterDependencies[1..]) else afterDependencies) != [] then None
      else Some(BuildStatement(TakePaths(tokens), afterOutputs[1].path, TakePaths(afterOutputs[2..]), dependencies,
                               orders))
  }

  function ReadBuild(text: string): Option<BuildStatement> {
    match Lexed(text, "")
    case None => None
    case Some(tokens) => Statement(tokens)
  }

  // A build statement with a rule's name is read back as it was written exactly when no path is empty or has a bar or a
  // new line.
  lemma BuildReadsBack(b: BuildStatement)
    requires IsName(b.rule)
    ensures ReadBuild(BuildText(b)) == Some(b) <==> IsWritable(b)
  {
    hide Lexed, BuildText, Statement;
    if IsWritable(b) {
      WritableReadsBack(b);
    }
    if ReadBuild(BuildText(b)) == Some(b) {
      LexesPaths(BuildText(b), "");
      StatementHasPaths(Lexed(BuildText(b), "").value);
    }
  }

  ghost predicate TokensProper(tokens: seq<Token>) {
    forall t :: t in tokens && t.Path? ==> IsPath(t.path)
  }

  // The lexer only gives proper paths.
  lemma {:induction false} LexesPaths(t: string, path: string)
    requires '|' !in path && '\n' !in path
    ensures Lexed(t, path).Some? ==> TokensProper(Lexed(t, path).value)
    decreases |t|
  {
    if t != "" {
      if t[0] == '$' {
        if |t| >= 2 && t[1] in "$ :" {
          LexesPaths(t[2..], path + [t[1]]);
        }
      } else if t[0] == '|' && |t| >= 2 && t[1] == '|' {
        LexesPaths(t[2..], "");
      } else if t[0] in " :|" {
        LexesPaths(t[1..], "");
      } else if t[0] != '\n' {
        LexesPaths(t[1..], path + [t[0]]);
      }
    }
  }

  lemma {:induction false} TakenArePaths(tokens: seq<Token>)
    requires TokensProper(tokens)
    ensures ArePaths(TakePaths(tokens)) && TokensProper(AfterPaths(tokens))
  {
    if tokens != [] && tokens[0].Path? {
      assert tokens[0] in tokens;
      TakenArePaths(tokens[1..]);
    }
  }

  lemma StatementHasPaths(tokens: seq<Token>)
    requires TokensProper(tokens) && Statement(tokens).Some?
    ensures var b := Statement(tokens).value;
            ArePaths(b.outputs) && ArePaths(b.inputs) && ArePaths(b.dependencies) && ArePaths(b.orders)
  {
    hide TakePaths, AfterPaths, IsPath;
    TakenArePaths(tokens);
    var afterOutputs := AfterPaths(tokens);
    TakenArePaths(afterOutputs[2..]);
    var afterInputs := AfterPaths(afterOutputs[2..]);
    var afterDependencies := afterInputs;
    if afterInputs != [] && afterInputs[0].Bar? {
      TakenArePaths(afterInputs[1..]);
      afterDependencies := AfterPaths(afterInputs[1..]);
    }
    if afterDependencies != [] && afterDependencies[0].DoubleBar? {
      TakenArePaths(afterDependencies[1..]);
    }
  }

  lemma WritableReadsBack(b: BuildStatement)
    requires IsWritable(b)
    ensures ReadBuild(BuildText(b)) == Some(b)
  {
    hide Lexed, BuildText, TakePaths, AfterPaths, Paths;
    LexedBuildText(b);
    var orders := OrderTokens(b);
    var tail := DependencyTokens(b) + orders;
    var afterRule := Paths(b.inputs) + tail;
    var afterOutputs := [Colon] + ([Path(b.rule)] + afterRule);
    TakesPaths(b.outputs, afterOutputs);
    assert afterOutputs[2..] == afterRule;
    TakesPaths(b.inputs, tail);
    TakesPaths(b.dependencies, orders);
    TakesPaths(b.orders, []);
    assert Paths(b.orders) + [] == Paths(b.orders);
    if b.dependencies != [] {
      assert tail[1..] == Paths(b.dependencies) + orders;
    } else {
      assert tail == orders;
    }
    if b.orders != [] {
      assert orders[1..] == Paths(b.orders);
    }
    TakesPaths([], []);
  }

  // The first bar or new line, or the end.
  function BarAt(p: string, from: nat): (r: nat)
    requires from <= |p|
    ensures from <= r <= |p| && (r < |p| ==> p[r] == '|' || p[r] == '\n')
    ensures forall i :: from <= i < r ==> p[i] != '|' && p[i] != '\n'
    decreases |p| - from
  {
    if from == |p| || p[from] == '|' || p[from] == '\n' then from else BarAt(p, from + 1)
  }

  lemma {:induction false} EscapedOfConcat(a: string, b: string)
    ensures EscapedPath(a + b) == EscapedPath(a) + EscapedPath(b)
  {
    hide DollaredChar;
    if a == "" {
      assert a + b == b;
    } else {
      assert (a + b)[0] == a[0] && (a + b)[1..] == a[1..] + b;
      EscapedOfConcat(a[1..], b);
    }
  }

  lemma EscapedBar(c: char, rest: string)
    requires c == '|' || c == '\n'
    ensures EscapedPath([c] + rest) == [c] + EscapedPath(rest)
  {
    assert ([c] + rest)[1..] == rest;
  }

  lemma BarIsToken(c: char, rest: string, path: string)
    requires c == '|' || c == '\n'
    ensures Lexed([c] + rest, path).Some? ==>
              var tokens := Lexed([c] + rest, path).value;
              && |tokens| > |Flushed(path)|
              && (tokens[|Flushed(path)|].Bar? || tokens[|Flushed(path)|].DoubleBar?)
  {
  }

  // A path stays one path exactly when it is not empty and has no new line and no bar, which is not escaped.
  lemma PathReadsBack(p: string)
    ensures Lexed(EscapedPath(p), "") == Some([Path(p)]) <==> IsPath(p)
  {
    hide Lexed, EscapedPath;
    var i := BarAt(p, 0);
    var plain := p[..i];
    LexedNothing();
    LexedOnlyPath(plain);
    assert "" + plain == plain;
    if i < |p| {
      var rest := EscapedPath(p[i + 1..]);
      assert p == plain + ([p[i]] + p[i + 1..]);
      EscapedOfConcat(plain, [p[i]] + p[i + 1..]);
      EscapedBar(p[i], p[i + 1..]);
      LexedPath(plain, [p[i]] + rest, "");
      BarIsToken(p[i], rest, plain);
      assert p[i] in p;
    } else {
      assert plain == p;
    }
  }

  lemma LexedOnlyPath(p: string)
    requires '|' !in p && '\n' !in p
    ensures Lexed(EscapedPath(p), "") == Some(Flushed(p))
  {
    hide EscapedPath;
    LexedPath(p, "", "");
    assert EscapedPath(p) + "" == EscapedPath(p);
    assert "" + p == p;
  }

  // ----- The text of a build statement -----

  lemma EscapedPathCharacters(c: char)
    ensures EscapedPath([c]) == if c == '$' || c == ' ' || c == ':' then ['$', c] else [c]
  {
    assert [c][1..] == "";
    assert Dollared("", "$ :") == "";
  }

  // Outputs with spaces between them, a colon, the rule, the inputs, the dependencies behind one bar and the orders
  // behind two.
  lemma BuildForm(a: string, b: string, rule: string, c: string, d: string, e: string, f: string)
    ensures BuildText(BuildStatement([a, b], rule, [c], [d, e], [f]))
            == EscapedPath(a) + " " + EscapedPath(b) + ": " + rule + " " + EscapedPath(c) + " | " + EscapedPath(d) + " "
               + EscapedPath(e) + " || " + EscapedPath(f)
    ensures BuildText(BuildStatement([a], rule, [], [], [])) == EscapedPath(a) + ": " + rule
  {
    hide EscapedPath;
    OutputsForm(a, b);
    PathsForm(c, d);
    PathsForm(d, e);
    PathsForm(f, f);
  }

  lemma OutputsForm(a: string, b: string)
    ensures OutputsText([a]) == EscapedPath(a)
    ensures OutputsText([a, b]) == EscapedPath(a) + " " + EscapedPath(b)
  {
    hide EscapedPath;
    assert [a][..0] == [];
    assert OutputsText([]) == "";
    assert [a, b][..1] == [a];
  }

  lemma PathsForm(a: string, b: string)
    ensures PathsText([]) == ""
    ensures PathsText([a]) == " " + EscapedPath(a)
    ensures PathsText([a, b]) == " " + EscapedPath(a) + " " + EscapedPath(b)
  {
    hide EscapedPath;
    assert [a][..0] == [];
    assert PathsText([]) == "";
    assert [a, b][..1] == [a];
  }
}
