// Escape::Shell of Libraries/libutil/Sources/Escape.cpp, against the quoting rules of the shell.
module ShellQuoting {
  import opened Wrappers
  import opened Strings

  // ----- Quoting -----

  predicate IsPlain(c: char) {
    'a' <= c <= 'z' || 'A' <= c <= 'Z' || '0' <= c <= '9' || c in "@%_-+=:,./"
  }

  // Exactly these characters need no quotes.
  lemma PlainCharacters(c: char)
    ensures IsPlain(c)
            <==> || c in "abcdefghijklmnopqrstuvwxyz" || c in "ABCDEFGHIJKLMNOPQRSTUVWXYZ"
                 || c in "0123456789" || c in "@%_-+=:,./"
  {
    SmallLetters(c);
    CapitalLetters(c);
    Digits(c);
  }

  predicate AllPlain(s: string) {
    forall c :: c in s ==> IsPlain(c)
  }

  function QuotedChar(c: char): string {
    if c == '\'' then "'\\''" else [c]
  }

  function QuotedChars(s: string): string {
    if s == "" then "" else QuotedChar(s[0]) + QuotedChars(s[1..])
  }

  function Quoted(word: string): string {
    if AllPlain(word) then word else "'" + QuotedChars(word) + "'"
  }

  lemma {:induction false} QuotedOfConcat(a: string, b: string)
    ensures QuotedChars(a + b) == QuotedChars(a) + QuotedChars(b)
  {
    hide QuotedChar;
    if a == "" {
      assert a + b == b;
    } else {
      assert (a + b)[0] == a[0] && (a + b)[1..] == a[1..] + b;
      QuotedOfConcat(a[1..], b);
    }
  }

  lemma {:induction false} QuotedWithoutQuotes(s: string)
    requires '\'' !in s
    ensures QuotedChars(s) == s
  {
    if s != "" {
      QuotedWithoutQuotes(s[1..]);
    }
  }

  method Shell(value: string) returns (result: string)
    ensures result == Quoted(value)
  {
    hide QuotedChars, AllPlain, QuotedChar;
    if AllPlain(value) {
      return value;
    }
    result := "'";
    var previous := 0;
    var offset := Next(value, '\'', 0);
    QuotedWithoutQuotes("");
    ghost var body := "";
    while offset < |value|
      invariant previous <= offset <= |value| && offset == Next(value, '\'', previous)
      invariant result == "'" + body && body == QuotedChars(value[..previous])
      decreases |value| - previous
    {
      PieceOfQuoted(value, previous, offset);
      ghost var more := body + value[previous..offset] + "'\\''";
      result := result + value[previous..offset];
      result := result + "'\\''";
      assert result == "'" + more;
      body := more;
      offset := offset + 1;
      previous := offset;
      offset := Next(value, '\'', offset);
    }
    PieceOfQuoted(value, previous, offset);
    assert value[..|value|] == value;
    result := result + value[previous..];
    assert result == "'" + (body + value[previous..]);
    result := result + "'";
  }

  lemma PieceOfQuoted(s: string, from: nat, to: nat)
    requires from <= to <= |s| && '\'' !in s[from..to]
    ensures QuotedChars(s[..to]) == QuotedChars(s[..from]) + s[from..to]
    ensures to < |s| && s[to] == '\'' ==> QuotedChars(s[..to + 1]) == QuotedChars(s[..from]) + s[from..to] + "'\\''"
  {
    assert s[..to] == s[..from] + s[from..to];
    QuotedOfConcat(s[..from], s[from..to]);
    QuotedWithoutQuotes(s[from..to]);
    if to < |s| && s[to] == '\'' {
      assert s[..to + 1] == s[..to] + ['\''];
      QuotedOfConcat(s[..to], ['\'']);
      assert ['\''][1..] == "";
      assert QuotedChars(['\'']) == QuotedChar('\'') + QuotedChars("");
    }
  }

  // ----- The shell's reading: section 2.2 of the POSIX Shell Command Language -----

  datatype State = Between | Word(word: string) | Quote(word: string) | Backslash(word: string)

  datatype Reader = Reader(words: seq<string>, state: State)

  predicate IsBlank(c: char) {
    c == ' ' || c == '\t'
  }

  // What has a meaning of its own outside quotes.
  predicate IsSpecial(c: char) {
    c in "|&;<>()$`\\\"'*?[#~ \t\n"
  }

  function WordOf(s: State): string {
    match s
    case Between => ""
    case Word(w) => w
    case Quote(w) => w
    case Backslash(w) => w
  }

  // One character. None where the text means something other than words: an operator, an expansion, a pattern, double
  // quotes, a new line.
  function Step(r: Reader, c: char): Option<Reader> {
    match r.state
    case Quote(w) => Some(r.(state := if c == '\'' then Word(w) else Quote(w + [c])))
    case Backslash(w) => if c == '\n' then None else Some(r.(state := Word(w + [c])))
    case _ =>
      var w := WordOf(r.state);
      if IsBlank(c) then Some(Reader(if r.state.Word? then r.words + [w] else r.words, Between))
      else if c == '\'' then Some(r.(state := Quote(w)))
      else if c == '\\' then Some(r.(state := Backslash(w)))
      else if IsSpecial(c) then None
      else Some(r.(state := Word(w + [c])))
  }

  function Run(r: Reader, s: string): Option<Reader>
    decreases |s|
  {
    if s == "" then Some(r)
    else
      match Step(r, s[0])
      case None => None
      case Some(next) => Run(next, s[1..])
  }

  // The words of a command line.
  function Words(s: string): Option<seq<string>> {
    match Run(Reader([], Between), s)
    case None => None
    case Some(r) =>
      match r.state
      case Between => Some(r.words)
      case Word(w) => Some(r.words + [w])
      case _ => None
  }

  lemma {:induction false} RunOfConcat(r: Reader, a: string, b: string)
    ensures Run(r, a + b) == match Run(r, a) { case None => None case Some(next) => Run(next, b) }
    decreases |a|
  {
    hide Step;
    if a == "" {
      assert a + b == b;
    } else {
      assert (a + b)[0] == a[0] && (a + b)[1..] == a[1..] + b;
      if Step(r, a[0]).Some? {
        RunOfConcat(Step(r, a[0]).value, a[1..], b);
      }
    }
  }

  lemma RunOfOne(r: Reader, c: char)
    ensures Run(r, [c]) == Step(r, c)
  {
    hide Step;
    assert [c][1..] == "";
    if Step(r, c).Some? {
      assert Run(Step(r, c).value, "") == Step(r, c);
    }
  }

  lemma StepPlain(r: Reader, c: char)
    requires IsPlain(c) && (r.state.Between? || r.state.Word?)
    ensures Step(r, c) == Some(r.(state := Word(WordOf(r.state) + [c])))
  {
    assert !IsSpecial(c);
  }

  lemma RunStep(r: Reader, s: string)
    requires s != ""
    ensures Run(r, s) == if Step(r, s[0]).None? then None else Run(Step(r, s[0]).value, s[1..])
  {
    hide Step;
  }

  lemma {:induction false} PlainRuns(r: Reader, s: string)
    requires AllPlain(s) && (r.state.Between? || r.state.Word?)
    ensures Run(r, s) == Some(if s == "" then r else r.(state := Word(WordOf(r.state) + s)))
    decreases |s|
  {
    hide Step, Run, IsPlain;
    if s == "" {
      RunOfNothing(r);
    } else {
      assert s[0] in s && IsPlain(s[0]);
      var next := r.(state := Word(WordOf(r.state) + [s[0]]));
      StepPlain(r, s[0]);
      RunStep(r, s);
      assert forall c :: c in s[1..] ==> c in s;
      PlainRuns(next, s[1..]);
      assert WordOf(r.state) + [s[0]] + s[1..] == WordOf(r.state) + s;
      if s[1..] == "" {
        assert s == [s[0]];
      }
    }
  }

  lemma QuotedCharRuns(r: Reader, c: char)
    requires r.state.Quote?
    ensures Run(r, QuotedChar(c)) == Some(r.(state := Quote(r.state.word + [c])))
  {
    if c == '\'' {
      var w := r.state.word;
      assert "'\\''" == ['\''] + (['\\'] + (['\''] + ['\'']));
      RunOfConcat(r, ['\''], ['\\'] + (['\''] + ['\'']));
      RunOfOne(r, '\'');
      var r1 := r.(state := Word(w));
      RunOfConcat(r1, ['\\'], ['\''] + ['\'']);
      RunOfOne(r1, '\\');
      var r2 := r.(state := Backslash(w));
      RunOfConcat(r2, ['\''], ['\'']);
      RunOfOne(r2, '\'');
      RunOfOne(r.(state := Word(w + ['\''])), '\'');
    } else {
      RunOfOne(r, c);
    }
  }

  lemma {:induction false} QuotedCharsRun(r: Reader, s: string)
    requires r.state.Quote?
    ensures Run(r, QuotedChars(s)) == Some(r.(state := Quote(r.state.word + s)))
    decreases |s|
  {
    hide Step, QuotedChar, Run;
    if s == "" {
      RunOfNothing(r);
      assert r.state.word + s == r.state.word;
    } else {
      var next := r.(state := Quote(r.state.word + [s[0]]));
      QuotedCharRuns(r, s[0]);
      RunOfConcat(r, QuotedChar(s[0]), QuotedChars(s[1..]));
      QuotedCharsRun(next, s[1..]);
      assert r.state.word + [s[0]] + s[1..] == r.state.word + s;
    }
  }

  lemma RunOfNothing(r: Reader)
    ensures Run(r, "") == Some(r)
  {
  }

  // Between words, a quoted word is read as that word; an empty one is not quoted and leaves nothing.
  lemma QuotedRuns(r: Reader, word: string)
    requires r.state.Between?
    ensures Run(r, Quoted(word)) == Some(if word == "" then r else r.(state := Word(word)))
  {
    hide Run, QuotedChars, Step;
    if AllPlain(word) {
      PlainRuns(r, word);
      assert "" + word == word;
    } else {
      var open := r.(state := Quote(""));
      var closed := r.(state := Quote(word));
      assert "'" + QuotedChars(word) + "'" == ['\''] + (QuotedChars(word) + ['\'']);
      RunOfConcat(r, ['\''], QuotedChars(word) + ['\'']);
      RunOfOne(r, '\'');
      StepQuote(r, word);
      RunOfConcat(open, QuotedChars(word), ['\'']);
      QuotedCharsRun(open, word);
      assert "" + word == word;
      RunOfOne(closed, '\'');
    }
  }

  lemma StepQuote(r: Reader, word: string)
    ensures r.state.Between? ==> Step(r, '\'') == Some(r.(state := Quote("")))
    ensures Step(r.(state := Quote(word)), '\'') == Some(r.(state := Word(word)))
    ensures r.state.Word? ==> Step(r, ' ') == Some(Reader(r.words + [r.state.word], Between))
    ensures r.state.Between? ==> Step(r, ' ') == Some(r)
  {
  }

  // ----- Command lines -----

  // The executable and the arguments, quoted and joined by spaces.
  function CommandLine(words: seq<string>): string
    requires words != []
  {
    if |words| == 1 then Quoted(words[0]) else CommandLine(words[..|words| - 1]) + " " + Quoted(words[|words| - 1])
  }

  method BuildExec(executable: string, arguments: seq<string>) returns (exec: string)
    ensures exec == CommandLine([executable] + arguments)
  {
    hide Quoted;
    exec := Shell(executable);
    for i := 0 to |arguments|
      invariant exec == CommandLine([executable] + arguments[..i])
    {
      var words := [executable] + arguments[..i + 1];
      assert words[..|words| - 1] == [executable] + arguments[..i];
      var quoted := Shell(arguments[i]);
      exec := exec + " " + quoted;
    }
    assert arguments[..|arguments|] == arguments;
  }

  function NonEmptyWords(words: seq<string>): seq<string> {
    if words == [] then []
    else NonEmptyWords(words[..|words| - 1]) + if words[|words| - 1] == "" then [] else [words[|words| - 1]]
  }

  // The reader after a command line: the last word is still open if it is not empty.
  function After(words: seq<string>): Reader
    requires words != []
  {
    var n := |words| - 1;
    Reader(NonEmptyWords(words[..n]), if words[n] == "" then Between else Word(words[n]))
  }

  lemma AfterSpace(words: seq<string>)
    requires words != []
    ensures ghost var r := After(words);
            NonEmptyWords(words) == if r.state.Word? then r.words + [r.state.word] else r.words
    ensures After(words).state.Word? || After(words).state.Between?
  {
  }

  lemma {:induction false} CommandLineRuns(words: seq<string>)
    requires words != []
    ensures Run(Reader([], Between), CommandLine(words)) == Some(After(words))
    decreases |words|
  {
    hide Run, Step, Quoted;
    var start := Reader([], Between);
    var n := |words| - 1;
    if n == 0 {
      QuotedRuns(start, words[0]);
    } else {
      var front := words[..n];
      CommandLineRuns(front);
      var between := Reader(NonEmptyWords(front), Between);
      RunOfConcat(start, CommandLine(front) + " ", Quoted(words[n]));
      RunOfConcat(start, CommandLine(front), " ");
      RunOfOne(After(front), ' ');
      StepQuote(After(front), "");
      AfterSpace(front);
      QuotedRuns(between, words[n]);
    }
  }

  lemma InSnoc(front: seq<string>, last: string)
    ensures "" in front + [last] <==> "" in front || last == ""
  {
  }

  lemma UnfoldWords(words: seq<string>)
    requires words != []
    ensures ghost var n := |words| - 1;
            NonEmptyWords(words) == NonEmptyWords(words[..n]) + if words[n] == "" then [] else [words[n]]
  {
  }

  lemma {:induction false} NonEmptyWordsAre(words: seq<string>)
    ensures "" !in words ==> NonEmptyWords(words) == words
    ensures "" in words ==> |NonEmptyWords(words)| < |words|
    ensures |NonEmptyWords(words)| <= |words|
  {
    if words == [] {
      assert NonEmptyWords(words) == [];
    }
    hide NonEmptyWords;
    if words != [] {
      var n := |words| - 1;
      var front, last := words[..n], words[n];
      NonEmptyWordsAre(front);
      assert words == front + [last];
      InSnoc(front, last);
      UnfoldWords(words);
    }
  }

  // The shell reads exactly the words, whatever is in them, except that it does not see empty ones.
  lemma ShellReadsWords(words: seq<string>)
    requires words != []
    ensures Words(CommandLine(words)) == Some(NonEmptyWords(words))
    ensures Words(CommandLine(words)) == Some(words) <==> "" !in words
  {
    hide Run, Step, CommandLine, NonEmptyWords;
    CommandLineRuns(words);
    AfterSpace(words);
    NonEmptyWordsAre(words);
  }
}
