// Libraries/dependency/Sources/MakefileDependencyInfo.cpp and Escape::Makefile of Libraries/libutil/Sources/Escape.cpp:
// dependency information in the syntax of makefiles.
module MakefileDependencyInfos {
  import opened Wrappers
  import opened Strings

  datatype Record = Record(outputs: seq<string>, inputs: seq<string>)

  // ----- Writing -----

  predicate NeedsEscape(c: char) {
    IsSpace(c) || c == '#' || c == '$' || c == '%' || c == ':'
  }

  function EscapedChar(c: char): string {
    if NeedsEscape(c) then ['\\', c] else [c]
  }

  function Escaped(path: string): string {
    if path == "" then "" else EscapedChar(path[0]) + Escaped(path[1..])
  }

  lemma {:induction false} EscapedOfConcat(a: string, b: string)
    ensures Escaped(a + b) == Escaped(a) + Escaped(b)
  {
    hide EscapedChar;
    if a == "" {
      assert a + b == b;
    } else {
      assert (a + b)[0] == a[0] && (a + b)[1..] == a[1..] + b;
      EscapedOfConcat(a[1..], b);
    }
  }

  method EscapeMakefile(value: string) returns (result: string)
    ensures result == Escaped(value)
  {
    hide EscapedChar;
    result := "";
    for i := 0 to |value|
      invariant result == Escaped(value[..i])
    {
      var c := value[i];
      assert value[..i + 1] == value[..i] + [c];
      EscapedOfConcat(value[..i], [c]);
      EscapedOfOne(c);
      if IsSpace(c) || c == '#' || c == '$' || c == '%' || c == ':' {
        result := result + ['\\'];
      }
      result := result + [c];
    }
    assert value[..|value|] == value;
  }

  lemma EscapedOfOne(c: char)
    ensures Escaped([c]) == EscapedChar(c)
    ensures EscapedChar(c) == if NeedsEscape(c) then ['\\'] + [c] else [c]
  {
    assert [c][1..] == "";
  }

  // Exactly white space, number signs, dollar signs, percent signs and colons get a backslash.
  lemma EscapedCharacters(c: char)
    ensures Escaped([c]) == if IsSpace(c) || c in "#$%:" then ['\\', c] else [c]
  {
    EscapedOfOne(c);
  }

  function OutputsText(outputs: seq<string>): string {
    if outputs == [] then ""
    else if |outputs| == 1 then Escaped(outputs[0])
    else OutputsText(outputs[..|outputs| - 1]) + " " + Escaped(outputs[|outputs| - 1])
  }

  const CONTINUATION: string := " \\\n  "

  function InputsText(inputs: seq<string>): string {
    if inputs == [] then "" else CONTINUATION + Escaped(inputs[0]) + InputsText(inputs[1..])
  }

  function RecordText(r: Record): string {
    OutputsText(r.outputs) + ":" + InputsText(r.inputs)
  }

  const GAP: string := "\n\n"

  function FileText(records: seq<Record>): string {
    if records == [] then ""
    else RecordText(records[0]) + if |records| == 1 then "" else GAP + FileText(records[1..])
  }

  // The layout of a file: outputs with spaces between them, a colon, each input on a line of its own, an empty line
  // between records.
  lemma FileForm(a: string, b: string, c: string, d: string, other: Record)
    ensures RecordText(Record([a, b], [c, d]))
            == Escaped(a) + " " + Escaped(b) + ":" + " \\\n  " + Escaped(c) + " \\\n  " + Escaped(d)
    ensures FileText([Record([a, b], [c, d]), other])
            == RecordText(Record([a, b], [c, d])) + "\n\n" + RecordText(other)
  {
    hide Escaped;
    assert [a, b][..1] == [a];
    assert OutputsText([a, b]) == OutputsText([a]) + " " + Escaped(b);
    assert [c, d][1..] == [d] && [d][1..] == [];
    assert InputsText([d]) == CONTINUATION + Escaped(d) + InputsText([]);
    assert InputsText([c, d]) == CONTINUATION + Escaped(c) + InputsText([d]);
    assert InputsText([c, d]) == CONTINUATION + Escaped(c) + CONTINUATION + Escaped(d);
    var r := Record([a, b], [c, d]);
    assert [r, other][1..] == [other];
    hide RecordText;
    assert FileText([other]) == RecordText(other) + "";
  }

  lemma {:induction false} InputsTextGrows(inputs: seq<string>, input: string)
    ensures InputsText(inputs + [input]) == InputsText(inputs) + CONTINUATION + Escaped(input)
  {
    if inputs == [] {
      assert [input][1..] == [];
    } else {
      assert (inputs + [input])[0] == inputs[0] && (inputs + [input])[1..] == inputs[1..] + [input];
      InputsTextGrows(inputs[1..], input);
    }
  }

  lemma {:induction false} FileTextGrows(records: seq<Record>, r: Record)
    ensures FileText(records + [r]) == FileText(records) + (if records == [] then "" else GAP) + RecordText(r)
  {
    hide RecordText;
    if records == [] {
      assert records + [r] == [r];
    } else {
      assert (records + [r])[0] == records[0] && (records + [r])[1..] == records[1..] + [r];
      FileTextGrows(records[1..], r);
    }
  }

  method Serialize(records: seq<Record>) returns (result: string)
    ensures result == FileText(records)
  {
    hide FileText;
    result := "";
    assert FileText([]) == "" by {
      NoText();
    }
    for i := 0 to |records|
      invariant result == FileText(records[..i]) + (if 0 < i < |records| then GAP else "")
    {
      FileTextGrows(records[..i], records[i]);
      assert records[..i + 1] == records[..i] + [records[i]];
      var text := SerializeRecord(records[i]);
      result := result + text;
      if i != |records| - 1 {
        result := result + "\n\n";
      }
    }
    assert records[..|records|] == records;
  }

  lemma NoText()
    ensures FileText([]) == ""
  {
  }

  // One iteration of the loop over the records.
  method SerializeRecord(r: Record) returns (result: string)
    ensures result == RecordText(r)
  {
    hide Escaped;
    result := "";
    for i := 0 to |r.outputs|
      invariant result == OutputsText(r.outputs[..i])
    {
      assert r.outputs[..i + 1][..i] == r.outputs[..i];
      if i != 0 {
        result := result + " ";
      }
      var output := EscapeMakefile(r.outputs[i]);
      result := result + output;
    }
    assert r.outputs[..|r.outputs|] == r.outputs;
    result := result + ":";
    for i := 0 to |r.inputs|
      invariant result == OutputsText(r.outputs) + ":" + InputsText(r.inputs[..i])
    {
      assert r.inputs[..i + 1] == r.inputs[..i] + [r.inputs[i]];
      InputsTextGrows(r.inputs[..i], r.inputs[i]);
      result := result + " \\\n";
      result := result + "  ";
      var input := EscapeMakefile(r.inputs[i]);
      result := result + input;
    }
    assert r.inputs[..|r.inputs|] == r.inputs;
  }

  // ----- Reading: the state machine -----

  datatype State = Begin | Comment | Output | Inputs

  // What the parser holds between two characters; `escaped` is set after a backslash.
  datatype Config = Config(
    state: State,
    current: string,
    outputs: seq<string>,
    inputs: seq<string>,
    records: seq<Record>,
    escaped: bool)

  predicate IsPath(path: string) {
    path != "" && '\n' !in path
  }

  // What the parser produces: one output each, no path empty or with a newline.
  predicate WellShaped(records: seq<Record>) {
    forall r :: r in records ==> |r.outputs| == 1 && IsPath(r.outputs[0]) && forall p :: p in r.inputs ==> IsPath(p)
  }

  predicate Valid(c: Config) {
    && WellShaped(c.records) && (forall p :: p in c.inputs ==> IsPath(p)) && '\n' !in c.current
    && (match c.state
        case Begin => c.outputs == [] && c.current == "" && !c.escaped
        case Output => c.outputs == [] && c.current != ""
        case Comment => |c.outputs| <= 1 && forall p :: p in c.outputs ==> IsPath(p)
        case Inputs => |c.outputs| == 1 && IsPath(c.outputs[0]))
    && (c.escaped && (c.state.Output? || c.state.Inputs?) ==> c.current != "" && c.current[|c.current| - 1] == '\\')
  }

  function Pushed(inputs: seq<string>, current: string): seq<string> {
    if current == "" then inputs else inputs + [current]
  }

  function Stored(c: Config): seq<Record> {
    if c.outputs == [] then c.records else c.records + [Record(c.outputs, Pushed(c.inputs, c.current))]
  }

  // The end of a line that does not continue.
  function EndLine(c: Config): Config {
    Config(Begin, "", [], if c.outputs == [] then Pushed(c.inputs, c.current) else [], Stored(c), false)
  }

  function Unescaped(c: Config): string {
    if c.current != "" && c.escaped then c.current[..|c.current| - 1] else c.current
  }

  function Step(c: Config, ch: char): (r: Option<Config>)
    requires Valid(c)
    ensures r.Some? ==> Valid(r.value) && r.value.escaped == (ch == '\\')
  {
    var next := c.(escaped := ch == '\\');
    if !c.escaped && ch == '#' then Some(next.(state := Comment))
    else if !c.escaped && ch == '\n' then
      match c.state
      case Begin => Some(next)
      case Output => None
      case _ => Some(EndLine(c))
    else if (!c.escaped && IsSpace(ch)) || (c.escaped && ch == '\n') then
      if c.state.Inputs? then Some(next.(inputs := Pushed(c.inputs, Unescaped(c)), current := "")) else Some(next)
    else if !c.escaped && ch == ':' then
      match c.state
      case Comment => Some(next)
      case Output => Some(next.(outputs := c.outputs + [c.current], current := "", state := Inputs))
      case _ => None
    else if ch == '#' || ch == '%' || (c.escaped && IsSpace(ch)) then
      match c.state
      case Begin => None
      case Comment => Some(next)
      case _ => if c.escaped then Some(next.(current := c.current[..|c.current| - 1] + [ch])) else None
    else
      match c.state
      case Begin => Some(next.(state := Output, current := c.current + [ch]))
      case Comment => Some(next)
      case _ => Some(next.(current := c.current + [ch]))
  }

  function Run(c: Config, s: string): (r: Option<Config>)
    requires Valid(c)
    ensures r.Some? ==> Valid(r.value)
    decreases |s|
  {
    if s == "" then Some(c)
    else
      match Step(c, s[0])
      case None => None
      case Some(next) => Run(next, s[1..])
  }

  function Finished(c: Config): Option<seq<Record>> {
    match c.state
    case Begin => Some(c.records)
    case Output => None
    case _ => Some(Stored(c))
  }

  const INITIAL: Config := Config(Begin, "", [], [], [], false)

  function Read(s: string): Option<seq<Record>> {
    match Run(INITIAL, s)
    case None => None
    case Some(c) => Finished(c)
  }

  lemma {:induction false} RunOfConcat(c: Config, a: string, b: string)
    requires Valid(c)
    ensures Run(c, a + b) == match Run(c, a) { case None => None case Some(next) => Run(next, b) }
    decreases |a|
  {
    hide Step, Valid;
    if a == "" {
      assert a + b == b;
    } else {
      assert (a + b)[0] == a[0] && (a + b)[1..] == a[1..] + b;
      if Step(c, a[0]).Some? {
        RunOfConcat(Step(c, a[0]).value, a[1..], b);
      }
    }
  }

  lemma InitialIsValid()
    ensures Valid(INITIAL)
  {
  }

  lemma RunStep(c: Config, s: string)
    requires Valid(c)
    ensures s == "" ==> Run(c, s) == Some(c)
    ensures s != "" ==> Run(c, s) == if Step(c, s[0]).None? then None else Run(Step(c, s[0]).value, s[1..])
  {
    hide Step, Valid;
  }

  // The cases of a step.
  lemma StepCases(c: Config, ch: char)
    requires Valid(c)
    ensures ghost var next := c.(escaped := ch == '\\');
            ghost var blank := (!c.escaped && IsSpace(ch)) || (c.escaped && ch == '\n');
            ghost var r := Step(c, ch);
            if !c.escaped && ch == '#' then r == Some(next.(state := Comment))
            else if !c.escaped && ch == '\n' then
              r == if c.state.Begin? then Some(next) else if c.state.Output? then None else Some(EndLine(c))
            else if blank then
              r == Some(if c.state.Inputs? then next.(inputs := Pushed(c.inputs, Unescaped(c)), current := "")
                        else next)
            else if !c.escaped && ch == ':' then
              r == if c.state.Comment? then Some(next)
                   else if c.state.Output? then
                     Some(next.(outputs := c.outputs + [c.current], current := "", state := Inputs))
                   else None
            else if ch == '#' || ch == '%' || (c.escaped && IsSpace(ch)) then
              if c.state.Comment? then r == Some(next)
              else if c.state.Begin? || !c.escaped then r == None
              else c.current != "" && r == Some(next.(current := c.current[..|c.current| - 1] + [ch]))
            else if c.state.Comment? then r == Some(next)
            else r == Some(next.(state := if c.state.Begin? then Output else c.state, current := c.current + [ch]))
  {
  }

  lemma EscapedIsBackslash(c: Config)
    requires Valid(c)
    ensures c.escaped && (c.state.Output? || c.state.Inputs?) ==> c.current != "" && c.current[|c.current| - 1] == '\\'
  {
  }

  method Deserialize(contents: string) returns (result: Option<seq<Record>>)
    ensures result == Read(contents)
  {
    hide Step, Run, Valid;
    var records: seq<Record> := [];
    var state := Begin;
    var current := "";
    var outputs: seq<string> := [];
    var inputs: seq<string> := [];
    InitialIsValid();
    ghost var c := INITIAL;
    for it := 0 to |contents|
      invariant c == Config(state, current, outputs, inputs, records, it > 0 && contents[it - 1] == '\\')
      invariant Valid(c) && Run(INITIAL, contents) == Run(c, contents[it..])
    {
      var ch := contents[it];
      var escaped := it > 0 && contents[it - 1] == '\\';
      RunStep(c, contents[it..]);
      StepCases(c, ch);
      EscapedIsBackslash(c);
      assert contents[it..][1..] == contents[it + 1..];
      if !escaped && ch == '#' {
        state := Comment;
      } else if !escaped && ch == '\n' {
        match state {
          case Begin =>
          case Output =>
            return None;
          case _ =>
            if current != "" {
              inputs := inputs + [current];
              current := "";
            }
            if outputs != [] {
              records := records + [Record(outputs, inputs)];
              outputs, inputs := [], [];
            }
            state := Begin;
        }
      } else if (!escaped && IsSpace(ch)) || (escaped && ch == '\n') {
        match state {
          case Inputs =>
            if current != "" && escaped {
              current := current[..|current| - 1];
            }
            if current != "" {
              inputs := inputs + [current];
              current := "";
            }
          case _ =>
        }
      } else if !escaped && ch == ':' {
        match state {
          case Comment =>
          case Output =>
            outputs := outputs + [current];
            current := "";
            state := Inputs;
          case _ =>
            return None;
        }
      } else if ch == '#' || ch == '%' || (escaped && IsSpace(ch)) {
        match state {
          case Begin =>
            return None;
          case Comment =>
          case _ =>
            if escaped {
              current := current[|current| - 1 := ch];
            } else {
              return None;
            }
        }
      } else {
        match state {
          case Begin =>
            state := Output;
            current := current + [ch];
          case Comment =>
          case _ =>
            current := current + [ch];
        }
      }
      c := Step(c, ch).value;
    }
    assert contents[|contents|..] == "";
    RunStep(c, "");
    match state {
      case Begin =>
        return Some(records);
      case Output =>
        return None;
      case _ =>
        if current != "" {
          inputs := inputs + [current];
        }
        if outputs != [] {
          records := records + [Record(outputs, inputs)];
        }
        return Some(records);
    }
  }

  // ----- What the parser has read stays read -----

  // The part of the current path that no later character removes.
  function Stable(current: string): string {
    if current != "" && current[|current| - 1] == '\\' then current[..|current| - 1] else current
  }

  // Some continuation could still give these records.
  ghost predicate Possible(c: Config, result: seq<Record>) {
    var n := |c.records|;
    && c.records <= result
    && (c.state.Output? ==> n < |result| && |result[n].outputs| == 1 && Stable(c.current) <= result[n].outputs[0])
    && (c.outputs != [] ==> n < |result| && result[n].outputs == c.outputs && c.inputs <= result[n].inputs
                            && (Stable(c.current) != "" ==>
                                  |c.inputs| < |result[n].inputs| && Stable(c.current) <= result[n].inputs[|c.inputs|]))
  }

  lemma PrefixOfPrefix<T>(a: seq<T>, b: seq<T>, c: seq<T>)
    requires a <= b && b <= c
    ensures a <= c
  {
  }

  lemma StableGrows(current: string, ch: char)
    ensures Stable(current) <= current && Stable("") == ""
    ensures Stable(current) <= Stable(current + [ch])
    ensures current != "" && current[|current| - 1] == '\\' ==> Stable(current) == current[..|current| - 1]
    ensures current != "" && current[|current| - 1] != '\\' ==> Stable(current) == current
    ensures current != "" && current[|current| - 1] == '\\' && ch != '\\' ==>
              Stable(current) <= Stable(current[..|current| - 1] + [ch])
  {
  }

  // Stepping back, where no comment begins.
  lemma StepNarrows(c: Config, ch: char, result: seq<Record>)
    requires Valid(c) && Step(c, ch).Some? && Possible(Step(c, ch).value, result)
    requires !c.state.Comment? && (ch == '#' ==> c.escaped)
    ensures Possible(c, result) && !Step(c, ch).value.state.Comment?
  {
    hide WellShaped, IsPath, Stable, IsSpace;
    StepCases(c, ch);
    StableGrows(c.current, ch);
    EscapedIsBackslash(c);
    if c.state.Inputs? {
      InputsNarrow(c, ch, result);
    } else {
      OutputNarrows(c, ch, result);
    }
  }

  lemma OutputNarrows(c: Config, ch: char, result: seq<Record>)
    requires Valid(c) && Step(c, ch).Some? && Possible(Step(c, ch).value, result)
    requires (c.state.Begin? || c.state.Output?) && (ch == '#' ==> c.escaped)
    ensures Possible(c, result)
  {
    hide WellShaped, IsPath, Stable, Step;
    StepCases(c, ch);
    StableGrows(c.current, ch);
    EscapedIsBackslash(c);
    var n := |c.records|;
    var next := Step(c, ch).value;
    if c.state.Output? {
      var output := result[n].outputs[0];
      if next.state.Output? {
        PrefixOfPrefix(Stable(c.current), Stable(next.current), output);
      } else {
        assert next.outputs == [c.current];
      }
    }
  }

  lemma InputsNarrow(c: Config, ch: char, result: seq<Record>)
    requires Valid(c) && Step(c, ch).Some? && Possible(Step(c, ch).value, result)
    requires c.state.Inputs? && (ch == '#' ==> c.escaped)
    ensures Possible(c, result)
  {
    hide WellShaped, IsPath, Stable, Step;
    StepCases(c, ch);
    StableGrows(c.current, ch);
    EscapedIsBackslash(c);
    var n := |c.records|;
    var next := Step(c, ch).value;
    if next.state.Begin? {
      var stored := Record(c.outputs, Pushed(c.inputs, c.current));
      assert (c.records + [stored])[n] == stored;
      assert result[n] == stored;
      PushedNarrows(c.inputs, c.current, c.current, stored.inputs);
    } else if next.current == "" {
      PushedNarrows(c.inputs, Unescaped(c), c.current, result[n].inputs);
    } else {
      var k := |c.inputs|;
      if Stable(c.current) != "" {
        PrefixOfPrefix(Stable(c.current), Stable(next.current), result[n].inputs[k]);
      }
    }
  }

  // A path that is pushed holds the stable part of the current path.
  lemma PushedNarrows(inputs: seq<string>, pushed: string, current: string, result: seq<string>)
    requires Pushed(inputs, pushed) <= result
    requires || pushed == current
             || (current != "" && pushed == current[..|current| - 1] && current[|current| - 1] == '\\')
    ensures inputs <= result
    ensures Stable(current) != "" ==> |inputs| < |result| && Stable(current) <= result[|inputs|]
  {
    StableGrows(current, 'a');
    if pushed != "" {
      assert (inputs + [pushed])[|inputs|] == pushed;
      assert result[|inputs|] == pushed;
    }
  }

  // Every `#` comes after a backslash.
  ghost predicate HashesEscaped(s: string, escaped: bool) {
    forall i :: 0 <= i < |s| ==> HashEscaped(s, escaped, i)
  }

  ghost predicate HashEscaped(s: string, escaped: bool, i: int)
    requires 0 <= i < |s|
  {
    s[i] == '#' ==> if i == 0 then escaped else s[i - 1] == '\\'
  }

  lemma {:induction false} RunNarrows(c: Config, s: string, result: seq<Record>)
    requires Valid(c) && !c.state.Comment? && HashesEscaped(s, c.escaped)
    requires Run(c, s).Some? && Finished(Run(c, s).value) == Some(result)
    ensures Possible(c, result)
    decreases |s|
  {
    hide Step, Run, Valid, Possible;
    RunStep(c, s);
    if s == "" {
      FinishedIsPossible(c, result);
    } else {
      var next := Step(c, s[0]).value;
      assert HashEscaped(s, c.escaped, 0);
      StepLeavesComments(c, s[0]);
      forall i | 0 <= i < |s[1..]| ensures HashEscaped(s[1..], next.escaped, i) {
        assert HashEscaped(s, c.escaped, i + 1);
      }
      RunNarrows(next, s[1..], result);
      StepNarrows(c, s[0], result);
    }
  }

  lemma StepLeavesComments(c: Config, ch: char)
    requires Valid(c) && Step(c, ch).Some? && !c.state.Comment? && (ch == '#' ==> c.escaped)
    ensures !Step(c, ch).value.state.Comment?
  {
  }

  lemma FinishedIsPossible(c: Config, result: seq<Record>)
    requires Valid(c) && Finished(c) == Some(result)
    ensures Possible(c, result)
  {
  }

  lemma ReadIsWellShaped(s: string)
    ensures Read(s).Some? ==> WellShaped(Read(s).value)
  {
    if Read(s).Some? {
      StoredIsWellShaped(Run(INITIAL, s).value);
    }
  }

  lemma StoredIsWellShaped(c: Config)
    requires Valid(c)
    ensures WellShaped(Stored(c))
  {
  }

  // From c on, the text s is read as the given records.
  ghost predicate Reads(c: Config, s: string, result: seq<Record>)
    requires Valid(c)
  {
    Run(c, s).Some? && Finished(Run(c, s).value) == Some(result)
  }

  lemma ReadsOn(c: Config, a: string, b: string, next: Config, result: seq<Record>)
    requires Valid(c) && Run(c, a) == Some(next)
    ensures Valid(next) && (Reads(c, a + b, result) <==> Reads(next, b, result))
  {
    hide Step, Valid;
    RunOfConcat(c, a, b);
  }

  lemma OnceImpossible(c: Config, s: string, result: seq<Record>)
    requires Valid(c) && !c.state.Comment? && HashesEscaped(s, false) && !Possible(c, result)
    ensures !Reads(c, s, result)
  {
    hide Step, Valid, Possible, Run;
    if Reads(c, s, result) {
      forall i | 0 <= i < |s| ensures HashEscaped(s, c.escaped, i) {
        assert HashEscaped(s, false, i);
      }
      RunNarrows(c, s, result);
    }
  }

  // ----- Texts without comments -----

  lemma HashesOfConcat(a: string, b: string)
    requires HashesEscaped(a, false) && HashesEscaped(b, false)
    ensures HashesEscaped(a + b, false)
  {
    forall i | 0 <= i < |a + b| ensures HashEscaped(a + b, false, i) {
      if i < |a| {
        assert HashEscaped(a, false, i);
      } else {
        assert HashEscaped(b, false, i - |a|);
      }
    }
  }

  lemma {:induction false} HashesOfEscaped(path: string)
    ensures HashesEscaped(Escaped(path), false)
  {
    if path != "" {
      HashesOfEscaped(path[1..]);
      HashesOfConcat(EscapedChar(path[0]), Escaped(path[1..]));
    }
  }

  lemma {:induction false} HashesOfInputs(inputs: seq<string>)
    ensures HashesEscaped(InputsText(inputs), false)
  {
    if inputs != [] {
      hide HashesEscaped;
      HashesOfEscaped(inputs[0]);
      HashesOfInputs(inputs[1..]);
      assert HashesEscaped(CONTINUATION, false) by {
        NoHashes(CONTINUATION);
      }
      HashesOfConcat(CONTINUATION, Escaped(inputs[0]));
      HashesOfConcat(CONTINUATION + Escaped(inputs[0]), InputsText(inputs[1..]));
    }
  }

  lemma NoHashes(s: string)
    requires '#' !in s
    ensures HashesEscaped(s, false)
  {
  }

  lemma {:induction false} HashesOfFile(records: seq<Record>)
    requires forall r :: r in records ==> |r.outputs| == 1
    ensures HashesEscaped(FileText(records), false)
  {
    if records != [] {
      hide HashesEscaped;
      var r := records[0];
      assert r in records;
      HashesOfEscaped(r.outputs[0]);
      HashesOfInputs(r.inputs);
      NoHashes(":");
      NoHashes(GAP);
      HashesOfConcat(Escaped(r.outputs[0]), ":");
      HashesOfConcat(Escaped(r.outputs[0]) + ":", InputsText(r.inputs));
      if |records| > 1 {
        HashesOfFile(records[1..]);
        HashesOfConcat(GAP, FileText(records[1..]));
        HashesOfConcat(RecordText(r), GAP + FileText(records[1..]));
      } else {
        assert RecordText(r) + "" == RecordText(r);
      }
    } else {
      NoHashes("");
    }
  }

  // ----- Reading one path -----

  // What an escaped path is read as: colons and dollar signs keep their backslash.
  function KeptChar(c: char): string {
    if c == ':' || c == '$' then ['\\', c] else [c]
  }

  function Kept(path: string): string {
    if path == "" then "" else KeptChar(path[0]) + Kept(path[1..])
  }

  predicate EndsInBackslash(path: string) {
    path != "" && path[|path| - 1] == '\\'
  }

  function AfterPath(c: Config, path: string): Config {
    if path == "" then c
    else c.(state := if c.state.Begin? then Output else c.state, current := c.current + Kept(path),
            escaped := EndsInBackslash(path))
  }

  lemma CharRuns(c: Config, ch: char)
    requires Valid(c) && !c.state.Comment? && ch != '\n'
    ensures ghost var next := c.(state := if c.state.Begin? then Output else c.state,
                                 current := c.current + KeptChar(ch), escaped := ch == '\\');
            Valid(next) && Run(c, EscapedChar(ch)) == Some(next)
  {
    hide Step, WellShaped, IsPath;
    if NeedsEscape(ch) {
      StepCases(c, '\\');
      var middle := Step(c, '\\').value;
      StepCases(middle, ch);
      assert middle.current[..|middle.current| - 1] == c.current;
      assert c.current + ['\\'] + [ch] == c.current + ['\\', ch];
      RunStep(c, ['\\', ch]);
      RunStep(middle, [ch]);
      RunStep(Step(middle, ch).value, "");
      assert ['\\', ch][1..] == [ch] && [ch][1..] == "";
    } else {
      StepCases(c, ch);
      RunStep(c, [ch]);
      RunStep(Step(c, ch).value, "");
      assert [ch][1..] == "";
    }
  }

  lemma {:induction false} PathRuns(c: Config, path: string)
    requires Valid(c) && !c.state.Comment? && '\n' !in path
    ensures Valid(AfterPath(c, path)) && Run(c, Escaped(path)) == Some(AfterPath(c, path))
    decreases |path|
  {
    hide Valid, Step, EscapedChar, KeptChar, Run;
    if path == "" {
      RunStep(c, "");
    } else {
      CharRuns(c, path[0]);
      var next := c.(state := if c.state.Begin? then Output else c.state,
                     current := c.current + KeptChar(path[0]), escaped := path[0] == '\\');
      PathRuns(next, path[1..]);
      RunOfConcat(c, EscapedChar(path[0]), Escaped(path[1..]));
      assert c.current + KeptChar(path[0]) + Kept(path[1..]) == c.current + Kept(path);
      if path[1..] == "" {
        assert Kept(path[1..]) == "";
        assert c.current + KeptChar(path[0]) + "" == c.current + KeptChar(path[0]);
      }
    }
  }

  predicate Plain(path: string) {
    ':' !in path && '$' !in path
  }

  // Where a colon or a dollar sign stands, the path that is read has a backslash that stays.
  lemma {:induction false} KeptDiffers(path: string) returns (i: nat)
    requires !Plain(path)
    ensures i < |path| && path[i] != '\\'
    ensures i + 1 < |Kept(path)| && Kept(path)[i] == '\\' && Kept(path)[i + 1] != '\\'
  {
    var rest := path[1..];
    assert Kept(path) == KeptChar(path[0]) + Kept(rest);
    if path[0] == ':' || path[0] == '$' {
      i := 0;
    } else {
      var k := KeptDiffers(rest);
      i := k + 1;
    }
  }

  lemma {:induction false} KeptWhole(path: string)
    requires Plain(path)
    ensures Kept(path) == path
  {
    if path != "" {
      KeptWhole(path[1..]);
      assert path == [path[0]] + path[1..];
    }
  }

  lemma KeptIsPath(path: string)
    requires path != ""
    ensures Plain(path) ==> Kept(path) == path
    ensures !Plain(path) ==> !(Stable(Kept(path)) <= path)
    ensures Kept(path) != ""
  {
    assert Kept(path) == KeptChar(path[0]) + Kept(path[1..]);
    if Plain(path) {
      KeptWhole(path);
    } else {
      var i := KeptDiffers(path);
      var kept := Kept(path);
      if |kept| == i + 2 {
        assert kept[|kept| - 1] != '\\';
      }
      assert |Stable(kept)| > i && Stable(kept)[i] == '\\';
    }
  }

  // ----- Reading a file back -----

  predicate GoodInput(input: string, last: bool) {
    Plain(input) && (EndsInBackslash(input) ==> last)
  }

  // A path has no colon and no dollar sign, and does not end in a backslash unless nothing at all follows it.
  ghost predicate GoodInputs(inputs: seq<string>, from: nat, last: bool) {
    forall i :: from <= i < |inputs| ==> GoodInput(inputs[i], last && i == |inputs| - 1)
  }

  ghost predicate GoodRecord(r: Record, last: bool) {
    |r.outputs| == 1 && GoodInput(r.outputs[0], false) && GoodInputs(r.inputs, 0, last)
  }

  ghost predicate GoodFrom(records: seq<Record>, from: nat) {
    forall k :: from <= k < |records| ==> GoodRecord(records[k], k == |records| - 1)
  }

  // The parser before record number k.
  function Before(records: seq<Record>, k: nat): Config
    requires k <= |records|
  {
    Config(Begin, "", [], [], records[..k], false)
  }

  // The parser after the first i inputs of record number k.
  function Within(records: seq<Record>, k: nat, i: nat): Config
    requires k < |records| && i <= |records[k].inputs|
  {
    var inputs := records[k].inputs;
    if i == 0 then Config(Inputs, "", records[k].outputs, [], records[..k], false)
    else
      Config(Inputs, inputs[i - 1], records[k].outputs, inputs[..i - 1], records[..k], EndsInBackslash(inputs[i - 1]))
  }

  lemma PlacesAreValid(records: seq<Record>, k: nat, i: nat)
    requires WellShaped(records) && k < |records| && i <= |records[k].inputs|
    ensures Valid(Before(records, k)) && Valid(Within(records, k, i))
  {
    assert records[k] in records;
    assert i > 0 ==> records[k].inputs[i - 1] in records[k].inputs;
  }

  // The text after the inputs of record number k.
  function Tail(records: seq<Record>, k: nat): string
    requires k < |records|
  {
    if k == |records| - 1 then "" else GAP + FileText(records[k + 1..])
  }

  lemma HashesOfTail(records: seq<Record>, k: nat)
    requires WellShaped(records) && k < |records|
    ensures HashesEscaped(Tail(records, k), false)
  {
    hide HashesEscaped;
    if k == |records| - 1 {
      NoHashes("");
    } else {
      assert forall r :: r in records[k + 1..] ==> r in records;
      HashesOfFile(records[k + 1..]);
      NoHashes(GAP);
      HashesOfConcat(GAP, FileText(records[k + 1..]));
    }
  }

  // From one input to the next: a space, a continued line, two spaces.
  lemma ContinuationRuns(c: Config)
    requires Valid(c) && c.state.Inputs? && !c.escaped
    ensures ghost var next := c.(inputs := Pushed(c.inputs, c.current), current := "");
            Valid(next) && Run(c, CONTINUATION) == Some(next)
  {
    hide Step, WellShaped, IsPath, Run;
    var c1 := c.(inputs := Pushed(c.inputs, c.current), current := "");
    var c2 := c1.(current := "\\", escaped := true);
    StepCases(c, ' ');
    StepCases(c1, '\\');
    assert "" + ['\\'] == "\\";
    StepCases(c2, '\n');
    assert "\\"[..0] == "";
    StepCases(c1, ' ');
    RunStep(c, " \\\n  ");
    assert " \\\n  "[1..] == "\\\n  ";
    RunStep(c1, "\\\n  ");
    assert "\\\n  "[1..] == "\n  ";
    RunStep(c2, "\n  ");
    assert "\n  "[1..] == "  ";
    RunStep(c1, "  ");
    assert "  "[1..] == " ";
    RunStep(c1, " ");
    assert " "[1..] == "";
    RunStep(c1, "");
  }

  // An input that ends in a backslash swallows the space after it.
  lemma BackslashBeforeInput(records: seq<Record>, k: nat, i: nat, s: string)
    requires WellShaped(records) && k < |records| && 0 < i <= |records[k].inputs| && HashesEscaped(s, false)
    requires EndsInBackslash(records[k].inputs[i - 1])
    ensures Valid(Within(records, k, i))
    ensures !Reads(Within(records, k, i), CONTINUATION + s, records)
  {
    hide Step, WellShaped, Run, HashesEscaped, Reads;
    PlacesAreValid(records, k, i);
    var c := Within(records, k, i);
    StepCases(c, ' ');
    var next := Step(c, ' ').value;
    RunStep(c, " ");
    RunStep(next, "");
    assert " "[1..] == "";
    var rest := CONTINUATION[1..];
    NoHashes(rest);
    HashesOfConcat(rest, s);
    assert CONTINUATION + s == " " + (rest + s);
    ReadsOn(c, " ", rest + s, next, records);
    var p := c.current;
    assert Stable(next.current) == next.current;
    assert next.current[|p| - 1] == ' ' && p[|p| - 1] == '\\';
    OnceImpossible(next, rest + s, records);
  }

  lemma EndsImproperly(records: seq<Record>, k: nat, s: string)
    requires WellShaped(records) && k + 1 < |records| && HashesEscaped(s, false) && records[k].inputs != []
    requires EndsInBackslash(records[k].inputs[|records[k].inputs| - 1])
    ensures Valid(Within(records, k, |records[k].inputs|))
    ensures !Reads(Within(records, k, |records[k].inputs|), GAP + s, records)
  {
    hide Step, WellShaped, Run, HashesEscaped, Reads, IsPath;
    var n := |records[k].inputs|;
    PlacesAreValid(records, k, n);
    var c := Within(records, k, n);
    var p := c.current;
    StepCases(c, '\n');
    var c1 := Step(c, '\n').value;
    StepCases(c1, '\n');
    var c2 := EndLine(c1);
    RunStep(c, GAP);
    assert GAP[1..] == "\n";
    RunStep(c1, "\n");
    assert "\n"[1..] == "";
    RunStep(c2, "");
    ReadsOn(c, GAP, s, c2, records);
    assert c2.records[k].inputs == Pushed(c.inputs, p[..|p| - 1]);
    assert c2.records[k].inputs != records[k].inputs;
    OnceImpossible(c2, s, records);
  }

  lemma GapRuns(records: seq<Record>, k: nat)
    requires WellShaped(records) && k < |records|
    requires ghost var inputs := records[k].inputs; inputs == [] || !EndsInBackslash(inputs[|inputs| - 1])
    ensures Valid(Within(records, k, |records[k].inputs|))
    ensures Run(Within(records, k, |records[k].inputs|), GAP) == Some(Before(records, k + 1))
  {
    hide Step, Run;
    var n := |records[k].inputs|;
    PlacesAreValid(records, k, n);
    var c := Within(records, k, n);
    var next := Before(records, k + 1);
    StepCases(c, '\n');
    StoredWithin(records, k);
    assert Step(c, '\n') == Some(next);
    StepCases(next, '\n');
    RunStep(c, GAP);
    assert GAP[1..] == "\n";
    RunStep(next, "\n");
    assert "\n"[1..] == "";
    RunStep(next, "");
  }

  lemma StoredWithin(records: seq<Record>, k: nat)
    requires WellShaped(records) && k < |records|
    ensures Stored(Within(records, k, |records[k].inputs|)) == records[..k + 1]
  {
    var r := records[k];
    assert r in records;
    var n := |r.inputs|;
    var c := Within(records, k, n);
    if n > 0 {
      assert r.inputs[n - 1] in r.inputs;
      assert Pushed(c.inputs, c.current) == r.inputs;
    }
    assert Record(c.outputs, Pushed(c.inputs, c.current)) == r;
  }

  // The rest of record number k from input number i on, and all that follows.
  lemma {:induction false} ReadsInputsBack(records: seq<Record>, k: nat, i: nat)
    requires WellShaped(records) && k < |records| && i <= |records[k].inputs|
    ensures Valid(Within(records, k, i))
    ensures Reads(Within(records, k, i), InputsText(records[k].inputs[i..]) + Tail(records, k), records)
            <==> && (i > 0 && EndsInBackslash(records[k].inputs[i - 1]) ==>
                       k == |records| - 1 && i == |records[k].inputs|)
                 && GoodInputs(records[k].inputs, i, k == |records| - 1) && GoodFrom(records, k + 1)
    decreases |records| - k, 1, |records[k].inputs| - i
  {
    hide Step, Run, WellShaped, Valid, HashesEscaped, Reads, InputsText, GoodInputs, GoodFrom, Plain, FileText;
    var inputs := records[k].inputs;
    var last := k == |records| - 1;
    var c := Within(records, k, i);
    PlacesAreValid(records, k, i);
    HashesOfTail(records, k);
    InputsTextCases(inputs, i, Tail(records, k));
    GoodInputsCases(inputs, i, last);
    if i == |inputs| {
      if last {
        FileEnds(records);
        GoodFromCases(records, k + 1);
      } else if i > 0 && EndsInBackslash(inputs[i - 1]) {
        assert forall r :: r in records[k + 1..] ==> r in records;
        FileHasNoHashes(records, k + 1);
        EndsImproperly(records, k, FileText(records[k + 1..]));
      } else {
        GapRuns(records, k);
        ReadsOn(c, GAP, FileText(records[k + 1..]), Before(records, k + 1), records);
        ReadsFileBack(records, k + 1);
      }
    } else {
      var rest := InputsText(inputs[i + 1..]) + Tail(records, k);
      HashesOfInputs(inputs[i + 1..]);
      HashesOfConcat(InputsText(inputs[i + 1..]), Tail(records, k));
      HashesOfEscaped(inputs[i]);
      HashesOfConcat(Escaped(inputs[i]), rest);
      if i > 0 && EndsInBackslash(inputs[i - 1]) {
        BackslashBeforeInput(records, k, i, Escaped(inputs[i]) + rest);
      } else {
        ReadsOneInput(records, k, i, rest);
        if Plain(inputs[i]) {
          ReadsInputsBack(records, k, i + 1);
        }
      }
    }
  }

  lemma FileHasNoHashes(records: seq<Record>, k: nat)
    requires WellShaped(records) && k <= |records|
    ensures HashesEscaped(FileText(records[k..]), false)
  {
    assert forall r :: r in records[k..] ==> r in records;
    HashesOfFile(records[k..]);
  }

  lemma InputsTextCases(inputs: seq<string>, i: nat, tail: string)
    requires i <= |inputs|
    ensures i == |inputs| ==> InputsText(inputs[i..]) + tail == tail
    ensures i < |inputs| ==>
              InputsText(inputs[i..]) + tail
              == CONTINUATION + (Escaped(inputs[i]) + (InputsText(inputs[i + 1..]) + tail))
  {
    hide Escaped;
    if i < |inputs| {
      assert inputs[i..][1..] == inputs[i + 1..];
      assert InputsText(inputs[i..]) == CONTINUATION + Escaped(inputs[i]) + InputsText(inputs[i + 1..]);
    }
  }

  lemma GoodInputsCases(inputs: seq<string>, i: nat, last: bool)
    requires i <= |inputs|
    ensures i == |inputs| ==> GoodInputs(inputs, i, last)
    ensures i < |inputs| ==>
              (GoodInputs(inputs, i, last)
               <==> GoodInput(inputs[i], last && i == |inputs| - 1) && GoodInputs(inputs, i + 1, last))
  {
  }

  lemma GoodFromCases(records: seq<Record>, k: nat)
    requires k <= |records|
    ensures k == |records| ==> GoodFrom(records, k)
    ensures k < |records| ==>
              (GoodFrom(records, k) <==> GoodRecord(records[k], k == |records| - 1) && GoodFrom(records, k + 1))
  {
    hide GoodRecord;
  }

  lemma FileEnds(records: seq<Record>)
    requires WellShaped(records) && records != []
    ensures ghost var k := |records| - 1;
            && Valid(Within(records, k, |records[k].inputs|))
            && Reads(Within(records, k, |records[k].inputs|), "", records)
  {
    hide Step, Run, Valid;
    var k := |records| - 1;
    var c := Within(records, k, |records[k].inputs|);
    PlacesAreValid(records, k, |records[k].inputs|);
    RunStep(c, "");
    StoredWithin(records, k);
    assert records[..k + 1] == records;
  }

  // One more input, read as it is or never.
  lemma ReadsOneInput(records: seq<Record>, k: nat, i: nat, rest: string)
    requires WellShaped(records) && k < |records| && i < |records[k].inputs| && HashesEscaped(rest, false)
    requires i > 0 ==> !EndsInBackslash(records[k].inputs[i - 1])
    ensures ghost var c := Within(records, k, i);
            ghost var next := Within(records, k, i + 1);
            && Valid(c) && Valid(next)
            && (Plain(records[k].inputs[i]) ==>
                  (Reads(c, CONTINUATION + (Escaped(records[k].inputs[i]) + rest), records)
                   <==> Reads(next, rest, records)))
            && (!Plain(records[k].inputs[i]) ==>
                  !Reads(c, CONTINUATION + (Escaped(records[k].inputs[i]) + rest), records))
  {
    hide Step, Run, HashesEscaped, Reads, Plain, Kept;
    var inputs := records[k].inputs;
    assert records[k] in records && inputs[i] in inputs;
    var c := Within(records, k, i);
    PlacesAreValid(records, k, i);
    PlacesAreValid(records, k, i + 1);
    ContinuationRuns(c);
    var begun := c.(inputs := Pushed(c.inputs, c.current), current := "");
    PushedWithin(records, k, i);
    PathRuns(begun, inputs[i]);
    KeptIsPath(inputs[i]);
    var after := AfterPath(begun, inputs[i]);
    assert "" + Kept(inputs[i]) == Kept(inputs[i]);
    ReadsOn(c, CONTINUATION, Escaped(inputs[i]) + rest, begun, records);
    ReadsOn(begun, Escaped(inputs[i]), rest, after, records);
    if Plain(inputs[i]) {
      assert after == Within(records, k, i + 1);
    } else {
      StableOfKept(inputs[i]);
      assert inputs[..i] + [inputs[i]] <= inputs;
      OnceImpossible(after, rest, records);
    }
  }

  lemma StableOfKept(path: string)
    requires path != "" && !Plain(path)
    ensures Stable(Kept(path)) != "" && !(Stable(Kept(path)) <= path)
  {
    KeptIsPath(path);
  }

  lemma PushedWithin(records: seq<Record>, k: nat, i: nat)
    requires WellShaped(records) && k < |records| && i <= |records[k].inputs|
    ensures Pushed(Within(records, k, i).inputs, Within(records, k, i).current) == records[k].inputs[..i]
  {
    assert records[k] in records;
    if i > 0 {
      assert records[k].inputs[i - 1] in records[k].inputs;
    }
  }

  lemma {:induction false} ReadsFileBack(records: seq<Record>, k: nat)
    requires WellShaped(records) && k < |records|
    ensures Valid(Before(records, k))
    ensures Reads(Before(records, k), FileText(records[k..]), records) <==> GoodFrom(records, k)
    decreases |records| - k, 2, 0
  {
    hide Step, Run, WellShaped, Valid, HashesEscaped, Reads, GoodFrom, Plain, Escaped, FileText, InputsText, Tail,
      GoodInputs;
    var r := records[k];
    PlacesAreValid(records, k, 0);
    ReadsInputsBack(records, k, 0);
    GoodFromCases(records, k);
    HashesOfInputs(r.inputs);
    HashesOfTail(records, k);
    HashesOfConcat(InputsText(r.inputs), Tail(records, k));
    var rest := InputsText(r.inputs) + Tail(records, k);
    assert r.inputs[0..] == r.inputs;
    FileTextFrom(records, k);
    ReadsOutput(records, k, rest);
  }

  lemma FileTextFrom(records: seq<Record>, k: nat)
    requires WellShaped(records) && k < |records|
    ensures |records[k].outputs| == 1
    ensures FileText(records[k..])
            == Escaped(records[k].outputs[0]) + (":" + (InputsText(records[k].inputs) + Tail(records, k)))
  {
    hide Escaped, InputsText;
    assert records[k] in records;
    assert records[k..][0] == records[k] && records[k..][1..] == records[k + 1..];
  }

  // The output of a record and the colon after it.
  lemma ReadsOutput(records: seq<Record>, k: nat, rest: string)
    requires WellShaped(records) && k < |records| && HashesEscaped(rest, false)
    ensures |records[k].outputs| == 1 && Valid(Before(records, k)) && Valid(Within(records, k, 0))
    ensures ghost var output := records[k].outputs[0];
            Reads(Before(records, k), Escaped(output) + (":" + rest), records)
            <==> GoodInput(output, false) && Reads(Within(records, k, 0), rest, records)
  {
    hide Step, Run, HashesEscaped, Reads, Plain, Kept;
    assert records[k] in records;
    var output := records[k].outputs[0];
    var c := Before(records, k);
    PlacesAreValid(records, k, 0);
    PathRuns(c, output);
    KeptIsPath(output);
    var after := AfterPath(c, output);
    assert "" + Kept(output) == Kept(output);
    ReadsOn(c, Escaped(output), ":" + rest, after, records);
    NoHashes(":");
    HashesOfConcat(":", rest);
    if !Plain(output) {
      OnceImpossible(after, ":" + rest, records);
    } else {
      StepCases(after, ':');
      var next := Step(after, ':').value;
      RunStep(after, ":");
      RunStep(next, "");
      assert ":"[1..] == "";
      ReadsOn(after, ":", rest, next, records);
      if EndsInBackslash(output) {
        assert Stable(next.current) == output + ":";
        OnceImpossible(next, rest, records);
      } else {
        assert next == Within(records, k, 0);
      }
    }
  }

  // Exactly when a file is read back as it was written: every record has one output; no path is empty or has a newline,
  // a colon or a dollar sign; and no path ends in a backslash, except the last input of the last record.
  lemma ReadsBackExactly(records: seq<Record>)
    ensures Read(FileText(records)) == Some(records) <==> WellShaped(records) && GoodFrom(records, 0)
  {
    hide Step, Run, WellShaped, FileText, GoodFrom, Valid;
    ReadIsWellShaped(FileText(records));
    InitialIsValid();
    if records == [] {
      NoText();
      RunStep(INITIAL, "");
      EmptyIsGood();
    } else if WellShaped(records) {
      ReadsFileBack(records, 0);
      assert records[0..] == records && Before(records, 0) == INITIAL;
    }
  }

  lemma EmptyIsGood()
    ensures WellShaped([]) && GoodFrom([], 0)
  {
  }

  // ----- Comments -----

  // A line that begins with a number sign is passed over.
  lemma CommentIsSkipped(text: string, rest: string)
    requires '\n' !in text && !EndsInBackslash(text)
    ensures Read("#" + text + "\n" + rest) == Read(rest)
  {
    hide Run, Step;
    InitialIsValid();
    RemarkRuns([], text);
    RunOfConcat(INITIAL, "#" + text + "\n", rest);
  }

  lemma {:induction false} CommentRuns(c: Config, text: string)
    requires Valid(c) && c.state.Comment? && '\n' !in text
    ensures Run(c, text) == Some(if text == "" then c else c.(escaped := EndsInBackslash(text)))
    decreases |text|
  {
    hide Run, Step;
    RunStep(c, text);
    if text != "" {
      StepCases(c, text[0]);
      var next := c.(escaped := text[0] == '\\');
      CommentRuns(next, text[1..]);
      assert text[1..] != "" ==> text[|text| - 1] == text[1..][|text[1..]| - 1];
    }
  }

  // ----- Whole files, line by line -----

  // Between two paths stand blanks and lines that continue.
  predicate IsGap(gap: string)
    decreases |gap|
  {
    || gap == ""
    || (IsSpace(gap[0]) && gap[0] != '\n' && IsGap(gap[1..]))
    || ("\\\n" <= gap && IsGap(gap[2..]))
  }

  predicate IsWord(path: string) {
    IsPath(path) && !EndsInBackslash(path)
  }

  datatype Word = Word(gap: string, path: string)

  ghost predicate AreWords(words: seq<Word>) {
    forall w :: w in words ==> w.gap != "" && IsGap(w.gap) && IsWord(w.path)
  }

  function WordsText(words: seq<Word>): string {
    if words == [] then "" else words[0].gap + Escaped(words[0].path) + WordsText(words[1..])
  }

  function KeptWords(words: seq<Word>): (r: seq<string>) {
    if words == [] then [] else [Kept(words[0].path)] + KeptWords(words[1..])
  }

  predicate IsBlank(gap: string) {
    forall i :: 0 <= i < |gap| ==> IsSpace(gap[i]) && gap[i] != '\n'
  }

  ghost predicate AreOutputs(outputs: seq<Word>) {
    outputs != [] && forall w :: w in outputs ==> IsBlank(w.gap) && IsWord(w.path)
  }

  // What stands before the colon is one output, whatever blanks are in it.
  function Joined(outputs: seq<Word>): string {
    if outputs == [] then "" else Kept(outputs[0].path) + Joined(outputs[1..])
  }

  datatype Line =
    | Empty
    | Remark(text: string)
    | Rule(outputs: seq<Word>, colonGap: string, words: seq<Word>, gap: string, remark: Option<string>)

  predicate IsRemark(text: string) {
    '\n' !in text && !EndsInBackslash(text)
  }

  ghost predicate IsLine(line: Line) {
    match line
    case Empty => true
    case Remark(text) => IsRemark(text)
    case Rule(outputs, colonGap, words, gap, remark) =>
      && AreOutputs(outputs) && IsBlank(colonGap) && AreWords(words) && IsGap(gap)
      && (remark.Some? ==> IsRemark(remark.value))
  }

  function LineText(line: Line): string {
    match line
    case Empty => "\n"
    case Remark(text) => "#" + text + "\n"
    case Rule(outputs, colonGap, words, gap, remark) =>
      WordsText(outputs) + colonGap + ":" + (WordsText(words) + gap + RemarkText(remark) + "\n")
  }

  function RemarkText(remark: Option<string>): string {
    if remark.Some? then "#" + remark.value else ""
  }

  function LinesText(lines: seq<Line>): string {
    if lines == [] then "" else LineText(lines[0]) + LinesText(lines[1..])
  }

  function RuleOf(line: Line): seq<Record> {
    if line.Rule? then [Record([Joined(line.outputs)], KeptWords(line.words))] else []
  }

  function Rules(lines: seq<Line>): seq<Record> {
    if lines == [] then [] else RuleOf(lines[0]) + Rules(lines[1..])
  }

  lemma {:induction false} BlanksRun(c: Config, gap: string)
    requires Valid(c) && c.state.Inputs? && !c.escaped && IsGap(gap)
    ensures ghost var next := if gap == "" then c else c.(inputs := Pushed(c.inputs, c.current), current := "");
            Valid(next) && Run(c, gap) == Some(next)
    decreases |gap|
  {
    hide Step, Run, Valid;
    RunStep(c, gap);
    if gap != "" {
      StepCases(c, gap[0]);
      var next := Step(c, gap[0]).value;
      if IsSpace(gap[0]) && gap[0] != '\n' {
        BlanksRun(next, gap[1..]);
      } else {
        RunStep(next, gap[1..]);
        StepCases(next, '\n');
        assert next.current[..|next.current| - 1] == c.current;
        assert gap[1..][0] == '\n' && gap[1..][1..] == gap[2..];
        BlanksRun(Step(next, '\n').value, gap[2..]);
      }
    }
  }

  lemma {:induction false} WordsRun(c: Config, words: seq<Word>, gap: string) returns (last: Config)
    requires Valid(c) && c.state.Inputs? && !c.escaped && AreWords(words) && IsGap(gap)
    ensures Valid(last) && last.state.Inputs? && !last.escaped && Run(c, WordsText(words) + gap) == Some(last)
    ensures last.outputs == c.outputs && last.records == c.records
    ensures Pushed(last.inputs, last.current) == Pushed(c.inputs, c.current) + KeptWords(words)
    decreases |words|
  {
    hide Step, Run, Valid, Kept;
    if words == [] {
      BlanksRun(c, gap);
      last := if gap == "" then c else c.(inputs := Pushed(c.inputs, c.current), current := "");
      assert "" + gap == gap;
    } else {
      var word := words[0];
      BlanksRun(c, word.gap);
      var blank := c.(inputs := Pushed(c.inputs, c.current), current := "");
      PathRuns(blank, word.path);
      KeptIsNotEmpty(word.path);
      var after := AfterPath(blank, word.path);
      assert after.current == Kept(word.path);
      last := WordsRun(after, words[1..], gap);
      RunOfThree(c, word.gap, Escaped(word.path), WordsText(words[1..]) + gap);
      assert word.gap + Escaped(word.path) + (WordsText(words[1..]) + gap) == WordsText(words) + gap;
    }
  }

  lemma RunOfThree(c: Config, a: string, b: string, rest: string)
    requires Valid(c)
    requires Run(c, a).Some? && Run(Run(c, a).value, b).Some?
    ensures Run(c, a + b + rest) == Run(Run(Run(c, a).value, b).value, rest)
  {
    hide Run, Valid;
    RunOfConcat(c, a + b, rest);
    RunOfConcat(c, a, b);
    RunIsValid(c, a);
    RunIsValid(Run(c, a).value, b);
  }

  lemma RunIsValid(c: Config, s: string)
    requires Valid(c)
    ensures Run(c, s).Some? ==> Valid(Run(c, s).value)
  {
  }

  lemma KeptIsNotEmpty(path: string)
    requires path != ""
    ensures Kept(path) != ""
  {
  }

  lemma {:induction false} OutputBlanksRun(c: Config, gap: string)
    requires Valid(c) && (c.state.Begin? || c.state.Output?) && !c.escaped && IsBlank(gap)
    ensures Run(c, gap) == Some(c)
    decreases |gap|
  {
    hide Step, Run, Valid;
    RunStep(c, gap);
    if gap != "" {
      StepCases(c, gap[0]);
      OutputBlanksRun(c, gap[1..]);
    }
  }

  lemma {:induction false} OutputsRun(c: Config, outputs: seq<Word>) returns (next: Config)
    requires Valid(c) && (c.state.Begin? || c.state.Output?) && !c.escaped && AreOutputs(outputs)
    ensures next == c.(state := Output, current := c.current + Joined(outputs))
    ensures Valid(next) && Run(c, WordsText(outputs)) == Some(next)
    decreases |outputs|
  {
    hide Step, Run, Valid, Kept;
    var word := outputs[0];
    OutputBlanksRun(c, word.gap);
    PathRuns(c, word.path);
    var after := AfterPath(c, word.path);
    RunOfThree(c, word.gap, Escaped(word.path), WordsText(outputs[1..]));
    if |outputs| == 1 {
      next := after;
      RunStep(after, "");
      assert Joined(outputs[1..]) == "" && Joined(outputs) == Kept(word.path);
    } else {
      next := OutputsRun(after, outputs[1..]);
      assert c.current + Kept(word.path) + Joined(outputs[1..]) == c.current + Joined(outputs);
    }
  }

  // The parser at the start of a line.
  function LineStart(records: seq<Record>): Config {
    INITIAL.(records := records)
  }

  lemma LineStartIsValid(records: seq<Record>)
    ensures Valid(LineStart(records)) <==> WellShaped(records)
  {
  }

  // From the start of a rule to what follows its colon.
  lemma ColonRuns(records: seq<Record>, outputs: seq<Word>, colonGap: string) returns (c: Config)
    requires WellShaped(records) && AreOutputs(outputs) && IsBlank(colonGap)
    ensures c == Config(Inputs, "", [Joined(outputs)], [], records, false)
    ensures Valid(c) && Run(LineStart(records), WordsText(outputs) + colonGap + ":") == Some(c)
  {
    hide Step, Run, Valid, WordsText;
    LineStartIsValid(records);
    var output := OutputsRun(LineStart(records), outputs);
    assert "" + Joined(outputs) == Joined(outputs);
    OutputBlanksRun(output, colonGap);
    RunOfThree(LineStart(records), WordsText(outputs), colonGap, ":");
    StepCases(output, ':');
    RunStep(output, ":");
    c := Step(output, ':').value;
    assert ":"[1..] == "" && [] + [Joined(outputs)] == [Joined(outputs)];
    RunStep(c, "");
  }

  // A line that has a rule ends with the record stored, with or without a remark.
  lemma RuleEnds(c: Config, remark: Option<string>)
    requires Valid(c) && c.state.Inputs? && !c.escaped && (remark.Some? ==> IsRemark(remark.value))
    ensures ghost var records := c.records + [Record(c.outputs, Pushed(c.inputs, c.current))];
            WellShaped(records) && Run(c, RemarkText(remark) + "\n") == Some(LineStart(records))
  {
    hide Step, Run;
    var end := c;
    StoredIsWellShaped(c);
    assert "\n"[1..] == "";
    match remark {
      case None =>
        assert "" + "\n" == "\n";
      case Some(text) =>
        RunStep(c, "#" + text);
        StepCases(c, '#');
        var comment := c.(state := Comment);
        CommentRuns(comment, text);
        assert ("#" + text)[1..] == text;
        end := comment;
        RunOfConcat(c, "#" + text, "\n");
    }
    StepCases(end, '\n');
    RunStep(end, "\n");
    RunStep(EndLine(end), "");
  }

  lemma LineRuns(records: seq<Record>, line: Line)
    requires WellShaped(records) && IsLine(line)
    ensures WellShaped(records + RuleOf(line))
    ensures Run(LineStart(records), LineText(line)) == Some(LineStart(records + RuleOf(line)))
  {
    hide Step, Run, Valid, WellShaped, WordsText, AreWords, AreOutputs, Joined, RemarkText, IsRemark;
    var start := LineStart(records);
    LineStartIsValid(records);
    assert records + [] == records;
    match line {
      case Empty =>
        StepCases(start, '\n');
        RunStep(start, "\n");
        RunStep(start, "");
        assert "\n"[1..] == "";
      case Remark(text) =>
        RemarkRuns(records, text);
      case Rule(outputs, colonGap, words, gap, remark) =>
        var c := ColonRuns(records, outputs, colonGap);
        var last := WordsRun(c, words, gap);
        RuleEnds(last, remark);
        RunOfThree(start, WordsText(outputs) + colonGap + ":", WordsText(words) + gap, RemarkText(remark) + "\n");
        assert WordsText(outputs) + colonGap + ":" + (WordsText(words) + gap) + (RemarkText(remark) + "\n")
            == LineText(line);
        assert [] + KeptWords(words) == KeptWords(words);
    }
  }

  lemma RemarkRuns(records: seq<Record>, text: string)
    requires WellShaped(records) && IsRemark(text)
    ensures Run(LineStart(records), "#" + text + "\n") == Some(LineStart(records))
  {
    hide Step, Run, WellShaped;
    var start := LineStart(records);
    LineStartIsValid(records);
    var comment := start.(state := Comment);
    StepCases(start, '#');
    var line := "#" + text + "\n";
    RunStep(start, line);
    assert line[1..] == text + "\n";
    CommentRuns(comment, text);
    RunOfConcat(comment, text, "\n");
    StepCases(comment, '\n');
    RunStep(comment, "\n");
    RunStep(start, "");
    assert "\n"[1..] == "";
  }

  lemma {:induction false} LinesRun(records: seq<Record>, lines: seq<Line>)
    requires WellShaped(records) && forall line :: line in lines ==> IsLine(line)
    ensures WellShaped(records + Rules(lines))
    ensures Run(LineStart(records), LinesText(lines)) == Some(LineStart(records + Rules(lines)))
    decreases |lines|
  {
    hide Run, Valid, WellShaped, RuleOf, LineText, IsLine;
    LineStartIsValid(records);
    if lines == [] {
      assert records + [] == records;
      RunStep(LineStart(records), "");
    } else {
      LineRuns(records, lines[0]);
      var next := records + RuleOf(lines[0]);
      LinesRun(next, lines[1..]);
      RunOfConcat(LineStart(records), LineText(lines[0]), LinesText(lines[1..]));
      assert next + Rules(lines[1..]) == records + Rules(lines);
    }
  }

  // A file of rules, remarks and empty lines is read as its rules in order.
  lemma RulesAreRead(lines: seq<Line>)
    requires forall line :: line in lines ==> IsLine(line)
    ensures Read(LinesText(lines)) == Some(Rules(lines))
  {
    hide Run, IsLine;
    LinesRun([], lines);
    assert [] + Rules(lines) == Rules(lines);
  }

  // How a line can be wrong.
  datatype Fault =
    | NoOutput(first: char)
    | NoColon(outputs: seq<Word>, gap: string)
    | BadOutput(outputs: seq<Word>, gap: string)
    | BadInputs(outputs: seq<Word>, colonGap: string, words: seq<Word>, gap: string, next: char)

  // A line begins with a colon or a percent sign; ends before its colon; or has a bare percent sign before the colon,
  // or a bare percent sign or second colon after it.
  ghost predicate IsFault(fault: Fault) {
    match fault
    case NoOutput(first) => first == ':' || first == '%'
    case NoColon(outputs, gap) => AreOutputs(outputs) && IsBlank(gap)
    case BadOutput(outputs, gap) => AreOutputs(outputs) && IsBlank(gap)
    case BadInputs(outputs, colonGap, words, gap, next) =>
      AreOutputs(outputs) && IsBlank(colonGap) && AreWords(words) && IsGap(gap) && (next == ':' || next == '%')
  }

  function FaultText(fault: Fault): string {
    match fault
    case NoOutput(first) => [first]
    case NoColon(outputs, gap) => WordsText(outputs) + gap + "\n"
    case BadOutput(outputs, gap) => WordsText(outputs) + gap + "%"
    case BadInputs(outputs, colonGap, words, gap, next) =>
      WordsText(outputs) + colonGap + ":" + (WordsText(words) + gap) + [next]
  }

  lemma FaultStops(records: seq<Record>, fault: Fault)
    requires WellShaped(records) && IsFault(fault)
    ensures Run(LineStart(records), FaultText(fault)).None?
  {
    hide Step, Run, Valid, WellShaped, WordsText, AreWords, AreOutputs, Joined, IsBlank, IsGap;
    var start := LineStart(records);
    LineStartIsValid(records);
    match fault {
      case NoOutput(first) =>
        StepCases(start, first);
        RunStep(start, [first]);
      case NoColon(outputs, gap) =>
        OutputStops(records, outputs, gap, '\n');
      case BadOutput(outputs, gap) =>
        OutputStops(records, outputs, gap, '%');
      case BadInputs(outputs, colonGap, words, gap, next) =>
        var c := ColonRuns(records, outputs, colonGap);
        var last := WordsRun(c, words, gap);
        RunOfThree(start, WordsText(outputs) + colonGap + ":", WordsText(words) + gap, [next]);
        StepCases(last, next);
        RunStep(last, [next]);
    }
  }

  lemma OutputStops(records: seq<Record>, outputs: seq<Word>, gap: string, next: char)
    requires WellShaped(records) && AreOutputs(outputs) && IsBlank(gap) && (next == '\n' || next == '%')
    ensures Run(LineStart(records), WordsText(outputs) + gap + [next]).None?
  {
    hide Step, Run, Valid, WellShaped, WordsText, AreOutputs, Joined, IsBlank;
    var start := LineStart(records);
    LineStartIsValid(records);
    var output := OutputsRun(start, outputs);
    OutputBlanksRun(output, gap);
    RunOfThree(start, WordsText(outputs), gap, [next]);
    StepCases(output, next);
    RunStep(output, [next]);
  }

  // A file with such a line behind good ones is refused, whatever follows; and so is a file that ends before a colon.
  lemma FaultsAreRefused(lines: seq<Line>, fault: Fault, rest: string)
    requires (forall line :: line in lines ==> IsLine(line)) && IsFault(fault)
    ensures Read(LinesText(lines) + (FaultText(fault) + rest)) == None
    ensures fault.NoColon? ==> Read(LinesText(lines) + (WordsText(fault.outputs) + fault.gap)) == None
  {
    hide Step, Run, Valid, WellShaped, IsLine, WordsText, AreOutputs, FaultText, Joined, IsBlank;
    InitialIsValid();
    LinesRun([], lines);
    var records := [] + Rules(lines);
    LineStartIsValid(records);
    FaultStops(records, fault);
    RunOfConcat(LineStart(records), FaultText(fault), rest);
    RunOfConcat(INITIAL, LinesText(lines), FaultText(fault) + rest);
    if fault.NoColon? {
      var output := OutputsRun(LineStart(records), fault.outputs);
      OutputBlanksRun(output, fault.gap);
      RunOfConcat(LineStart(records), WordsText(fault.outputs), fault.gap);
      RunOfConcat(INITIAL, LinesText(lines), WordsText(fault.outputs) + fault.gap);
    }
  }
}
