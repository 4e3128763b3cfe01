// Libraries/pbxsetting/Sources/Environment.cpp, Level.cpp, Setting.cpp, Condition.cpp: resolving build settings over an
// ordered list of levels.
module SettingEnvironments {
  import opened Wrappers
  import opened SettingValues

  type Condition = map<string, string>

  datatype Setting = Setting(name: string, condition: Condition, value: Value)

  type Level = seq<Setting>

  // The wildcard match of condition values, and the operations such as `:lower` that a reference can apply.
  datatype Rules = Rules(wildcard: (string, string) -> bool, operation: (string, string) -> string)

  datatype Scope = Scope(rules: Rules, levels: seq<Level>)

  // ----- Looking a definition up -----

  // Condition::match
  predicate Satisfies(rules: Rules, required: Condition, actual: Condition) {
    forall k :: k in required ==> k in actual && rules.wildcard(required[k], actual[k])
  }

  predicate Matches(rules: Rules, s: Setting, name: string, condition: Condition) {
    s.name == name && Satisfies(rules, s.condition, condition)
  }

  ghost predicate IsLastMatch(rules: Rules, level: Level, name: string, condition: Condition, i: int) {
    && 0 <= i < |level| && Matches(rules, level[i], name, condition)
    && forall j :: i < j < |level| ==> !Matches(rules, level[j], name, condition)
  }

  // Level::get: the last matching setting of a level wins.
  function Get(rules: Rules, level: Level, name: string, condition: Condition): Option<Value> {
    if level == [] then None
    else
      var last := level[|level| - 1];
      if Matches(rules, last, name, condition) then Some(last.value)
      else Get(rules, level[..|level| - 1], name, condition)
  }

  lemma {:induction false} GetsLastMatch(rules: Rules, level: Level, name: string, condition: Condition)
    ensures Get(rules, level, name, condition).None? ==> forall s :: s in level ==> !Matches(rules, s, name, condition)
    ensures Get(rules, level, name, condition).Some? ==>
              exists i :: IsLastMatch(rules, level, name, condition, i)
                          && level[i].value == Get(rules, level, name, condition).value
  {
    hide Matches;
    if level != [] {
      var n := |level| - 1;
      if Matches(rules, level[n], name, condition) {
        assert IsLastMatch(rules, level, name, condition, n);
      } else {
        GetsLastMatch(rules, level[..n], name, condition);
        assert level == level[..n] + [level[n]];
        if Get(rules, level, name, condition).Some? {
          var i :| IsLastMatch(rules, level[..n], name, condition, i)
                   && level[..n][i].value == Get(rules, level, name, condition).value;
          assert IsLastMatch(rules, level, name, condition, i);
        }
      }
    }
  }

  method LevelGet(rules: Rules, level: Level, name: string, condition: Condition) returns (r: Option<Value>)
    ensures r == Get(rules, level, name, condition)
  {
    var it := |level|;
    hide Matches;
    assert level[..it] == level;
    while it > 0
      invariant 0 <= it <= |level|
      invariant Get(rules, level[..it], name, condition) == Get(rules, level, name, condition)
    {
      it := it - 1;
      assert level[..it + 1][..it] == level[..it];
      if Matches(rules, level[it], name, condition) {
        return Some(level[it].value);
      }
    }
    return None;
  }

  // The first level from `from` on that defines the setting.
  function FirstLevel(scope: Scope, name: string, condition: Condition, from: nat): (r: nat)
    requires from <= |scope.levels|
    ensures from <= r <= |scope.levels|
    ensures r < |scope.levels| ==> Get(scope.rules, scope.levels[r], name, condition).Some?
    ensures forall i :: from <= i < r ==> Get(scope.rules, scope.levels[i], name, condition).None?
    decreases |scope.levels| - from
  {
    hide Get;
    if from == |scope.levels| || Get(scope.rules, scope.levels[from], name, condition).Some? then from
    else FirstLevel(scope, name, condition, from + 1)
  }

  // ----- Resolution -----

  // While a definition is resolved: which setting it defines, and in which level.
  datatype Context = Context(setting: string, level: nat)

  // std::string::find of a colon.
  function Colon(s: string, from: nat): (r: Option<nat>)
    ensures r.Some? ==> from <= r.value < |s| && s[r.value] == ':' && forall i :: from <= i < r.value ==> s[i] != ':'
    ensures r.None? ==> forall i :: from <= i < |s| ==> s[i] != ':'
    decreases |s| - from
  {
    if from >= |s| then None else if s[from] == ':' then Some(from) else Colon(s, from + 1)
  }

  // The setting a reference names, without its operations.
  function Base(reference: string): string {
    var colon := Colon(reference, 0);
    if colon.Some? then reference[..colon.value] else reference
  }

  // The operations of a reference, from its colon at `colon` on, applied from left to right.
  function Operated(rules: Rules, reference: string, colon: Option<nat>, value: string): string
    requires colon.Some? ==> colon.value < |reference|
    decreases if colon.Some? then |reference| - colon.value else 0
  {
    if colon.None? then value
    else
      var next := Colon(reference, colon.value + 1);
      var end := if next.Some? then next.value else |reference|;
      Operated(rules, reference, next, rules.operation(value, reference[colon.value + 1..end]))
  }

  // A reference to a literal name.
  function To(name: string): Entry {
    Reference(Value([Text(name)]))
  }

  function Both(a: Option<string>, b: Option<string>): Option<string> {
    if a.Some? && b.Some? then Some(a.value + b.value) else None
  }

  // Resolution recurses without bound on settings that refer to each other. `depth` bounds how many definitions may be
  // entered; the result is None when that is not enough.
  function Expanded(scope: Scope, condition: Condition, entries: seq<Entry>, context: Option<Context>,
                    depth: nat): Option<string>
    decreases depth, 2, entries
  {
    if entries == [] then Some("")
    else Both(ExpandedEntry(scope, condition, entries[0], context, depth),
              Expanded(scope, condition, entries[1..], context, depth))
  }

  function ExpandedEntry(scope: Scope, condition: Condition, entry: Entry, context: Option<Context>,
                         depth: nat): Option<string>
    decreases depth, 2, entry
  {
    match entry
    case Text(text) => Some(text)
    case Reference(value) =>
      match Expanded(scope, condition, value.entries, context, depth)
      case None => None
      case Some(name) => Referred(scope, condition, name, context, depth)
  }

  predicate Inherits(context: Option<Context>, name: string) {
    context.Some? && (name == context.value.setting || name == "inherited")
  }

  function Referred(scope: Scope, condition: Condition, name: string, context: Option<Context>,
                    depth: nat): Option<string>
    decreases depth, 1, 0
  {
    if Inherits(context, name) then Inherited(scope, condition, context.value.setting, context.value.level + 1, depth)
    else
      match Assigned(scope, condition, Base(name), depth)
      case None => None
      case Some(value) => Some(Operated(scope.rules, name, Colon(name, 0), value))
  }

  // The setting as the levels from `from` on define it.
  function Inherited(scope: Scope, condition: Condition, name: string, from: nat, depth: nat): Option<string>
    decreases depth, 0, 0
  {
    var i := if from <= |scope.levels| then FirstLevel(scope, name, condition, from) else |scope.levels|;
    if i == |scope.levels| then Some("")
    else if depth == 0 then None
    else
      var definition := Get(scope.rules, scope.levels[i], name, condition).value;
      Expanded(scope, condition, definition.entries, Some(Context(name, i)), depth - 1)
  }

  // A setting that no level defines under the condition is looked up without condition.
  function Assigned(scope: Scope, condition: Condition, name: string, depth: nat): Option<string>
    decreases depth, 0, 1
  {
    if FirstLevel(scope, name, condition, 0) < |scope.levels| then Inherited(scope, condition, name, 0, depth)
    else Inherited(scope, map[], name, 0, depth)
  }

  // ----- Unfolding -----

  lemma ExpandedCons(scope: Scope, condition: Condition, entries: seq<Entry>, context: Option<Context>, depth: nat)
    ensures entries == [] ==> Expanded(scope, condition, entries, context, depth) == Some("")
    ensures entries != [] ==> Expanded(scope, condition, entries, context, depth)
                              == Both(ExpandedEntry(scope, condition, entries[0], context, depth),
                                      Expanded(scope, condition, entries[1..], context, depth))
  {
    hide ExpandedEntry, Both;
  }

  lemma EntryCases(scope: Scope, condition: Condition, e: Entry, context: Option<Context>, depth: nat)
    ensures e.Text? ==> ExpandedEntry(scope, condition, e, context, depth) == Some(e.text)
    ensures e.Reference? ==>
              ghost var name := Expanded(scope, condition, e.value.entries, context, depth);
              ExpandedEntry(scope, condition, e, context, depth)
              == if name.Some? then Referred(scope, condition, name.value, context, depth) else None
  {
    hide Expanded, Referred;
  }

  lemma ReferredCases(scope: Scope, condition: Condition, name: string, context: Option<Context>, depth: nat)
    ensures Inherits(context, name) ==>
              Referred(scope, condition, name, context, depth)
              == Inherited(scope, condition, context.value.setting, context.value.level + 1, depth)
    ensures !Inherits(context, name) ==>
              ghost var value := Assigned(scope, condition, Base(name), depth);
              Referred(scope, condition, name, context, depth)
              == if value.Some? then Some(Operated(scope.rules, name, Colon(name, 0), value.value)) else None
  {
    hide Inherited, Assigned, Inherits, Base, Operated;
  }

  // The definition in force at or after a level.
  ghost function LevelFrom(scope: Scope, condition: Condition, name: string, from: nat): (r: nat)
    ensures r <= |scope.levels| && (r < |scope.levels| ==> from <= r)
  {
    if from <= |scope.levels| then FirstLevel(scope, name, condition, from) else |scope.levels|
  }

  ghost function DefinitionAt(scope: Scope, condition: Condition, name: string, i: nat): seq<Entry>
    requires i < |scope.levels|
  {
    var value := Get(scope.rules, scope.levels[i], name, condition);
    if value.Some? then value.value.entries else []
  }

  lemma InheritedCases(scope: Scope, condition: Condition, name: string, from: nat, depth: nat)
    ensures ghost var i := LevelFrom(scope, condition, name, from);
            Inherited(scope, condition, name, from, depth)
            == if i == |scope.levels| then Some("")
               else if depth == 0 then None
               else Expanded(scope, condition, DefinitionAt(scope, condition, name, i), Some(Context(name, i)),
                             depth - 1)
  {
    hide Expanded, Get;
  }

  lemma AssignedCases(scope: Scope, condition: Condition, name: string, depth: nat)
    ensures ghost var under := if LevelFrom(scope, condition, name, 0) < |scope.levels| then condition else map[];
            Assigned(scope, condition, name, depth) == Inherited(scope, under, name, 0, depth)
  {
    hide Inherited, Get;
  }

  // ----- Depth -----

  // A greater depth changes no result that a smaller one gives.
  lemma {:induction false} ExpandedDeeper(scope: Scope, condition: Condition, entries: seq<Entry>,
                                          context: Option<Context>, depth: nat, more: nat)
    requires depth <= more && Expanded(scope, condition, entries, context, depth).Some?
    ensures Expanded(scope, condition, entries, context, more) == Expanded(scope, condition, entries, context, depth)
    decreases depth, 2, entries
  {
    hide Expanded, ExpandedEntry;
    ExpandedCons(scope, condition, entries, context, depth);
    ExpandedCons(scope, condition, entries, context, more);
    if entries != [] {
      EntryDeeper(scope, condition, entries[0], context, depth, more);
      ExpandedDeeper(scope, condition, entries[1..], context, depth, more);
    }
  }

  lemma {:induction false} EntryDeeper(scope: Scope, condition: Condition, entry: Entry, context: Option<Context>,
                                       depth: nat, more: nat)
    requires depth <= more && ExpandedEntry(scope, condition, entry, context, depth).Some?
    ensures ExpandedEntry(scope, condition, entry, context, more)
            == ExpandedEntry(scope, condition, entry, context, depth)
    decreases depth, 2, entry
  {
    hide Expanded, ExpandedEntry, Referred, Inherits, Base, Operated, Inherited, Assigned;
    EntryCases(scope, condition, entry, context, depth);
    EntryCases(scope, condition, entry, context, more);
    match entry {
      case Text(text) =>
      case Reference(value) =>
        ExpandedDeeper(scope, condition, value.entries, context, depth, more);
        var name := Expanded(scope, condition, value.entries, context, depth).value;
        ReferredCases(scope, condition, name, context, depth);
        ReferredCases(scope, condition, name, context, more);
        if Inherits(context, name) {
          OnlyInContext(context, name);
          InheritedDeeper(scope, condition, context.value.setting, context.value.level + 1, depth, more);
        } else {
          AssignedDeeper(scope, condition, Base(name), depth, more);
        }
    }
  }

  lemma OnlyInContext(context: Option<Context>, name: string)
    ensures Inherits(context, name) ==> context.Some?
  {
  }

  lemma {:induction false} InheritedDeeper(scope: Scope, condition: Condition, name: string, from: nat, depth: nat,
                                           more: nat)
    requires depth <= more && Inherited(scope, condition, name, from, depth).Some?
    ensures Inherited(scope, condition, name, from, more) == Inherited(scope, condition, name, from, depth)
    decreases depth, 0, 0
  {
    hide Expanded, Inherited, LevelFrom, DefinitionAt;
    InheritedCases(scope, condition, name, from, depth);
    InheritedCases(scope, condition, name, from, more);
    var i := LevelFrom(scope, condition, name, from);
    if i < |scope.levels| {
      ExpandedDeeper(scope, condition, DefinitionAt(scope, condition, name, i), Some(Context(name, i)), depth - 1,
                     more - 1);
    }
  }

  lemma {:induction false} AssignedDeeper(scope: Scope, condition: Condition, name: string, depth: nat, more: nat)
    requires depth <= more && Assigned(scope, condition, name, depth).Some?
    ensures Assigned(scope, condition, name, more) == Assigned(scope, condition, name, depth)
    decreases depth, 0, 1
  {
    hide Inherited, Assigned, LevelFrom;
    AssignedCases(scope, condition, name, depth);
    AssignedCases(scope, condition, name, more);
    var under := if LevelFrom(scope, condition, name, 0) < |scope.levels| then condition else map[];
    InheritedDeeper(scope, under, name, 0, depth, more);
  }

  // What a setting, or an expression, resolves to.
  ghost predicate Resolves(scope: Scope, condition: Condition, name: string, r: string) {
    exists depth: nat :: Assigned(scope, condition, name, depth) == Some(r)
  }

  ghost predicate Expands(scope: Scope, condition: Condition, entries: seq<Entry>, r: string) {
    exists depth: nat :: Expanded(scope, condition, entries, None, depth) == Some(r)
  }

  lemma ResolutionIsUnique(scope: Scope, condition: Condition, name: string, r: string, other: string)
    requires Resolves(scope, condition, name, r) && Resolves(scope, condition, name, other)
    ensures r == other
  {
    hide Assigned;
    var a: nat :| Assigned(scope, condition, name, a) == Some(r);
    var b: nat :| Assigned(scope, condition, name, b) == Some(other);
    if a <= b {
      AssignedDeeper(scope, condition, name, a, b);
    } else {
      AssignedDeeper(scope, condition, name, b, a);
    }
  }

  // ----- Operations -----

  // The operations of a reference, each behind a colon.
  function Operations(operations: seq<string>): string {
    if operations == [] then "" else ":" + operations[0] + Operations(operations[1..])
  }

  ghost predicate WithoutColons(texts: seq<string>) {
    forall t :: t in texts ==> ':' !in t
  }

  function Folded(rules: Rules, operations: seq<string>, value: string): string {
    if operations == [] then value else Folded(rules, operations[1..], rules.operation(value, operations[0]))
  }

  lemma ColonBehind(s: string, from: nat, to: nat)
    requires from <= to <= |s| && ':' !in s[from..to]
    ensures to == |s| ==> Colon(s, from).None?
    ensures to < |s| && s[to] == ':' ==> Colon(s, from) == Some(to)
  {
    assert forall i :: from <= i < to ==> s[i] == s[from..to][i - from];
  }

  lemma Cut(front: string, operation: string, rest: string)
    ensures front + (":" + operation + rest) == front + (":" + operation) + rest
    ensures (front + (":" + operation) + rest)[|front| + 1..|front| + 1 + |operation|] == operation
  {
  }

  lemma FirstOperation(front: string, operations: seq<string>)
    requires operations != [] && WithoutColons(operations)
    ensures ghost var text, next := front + Operations(operations), front + (":" + operations[0]);
            && text == next + Operations(operations[1..])
            && text[|front| + 1..|next|] == operations[0]
            && Colon(text, |front| + 1) == if operations[1..] == [] then None else Some(|next|)
  {
    hide Colon;
    var text, next := front + Operations(operations), front + (":" + operations[0]);
    assert operations[0] in operations;
    Cut(front, operations[0], Operations(operations[1..]));
    ColonBehind(text, |front| + 1, |next|);
  }

  // The operations behind a text are applied from left to right, each as it is written between its colons.
  lemma {:induction false} OperatedIsFolded(rules: Rules, front: string, operations: seq<string>, value: string)
    requires WithoutColons(operations)
    ensures Operated(rules, front + Operations(operations), if operations == [] then None else Some(|front|), value)
            == Folded(rules, operations, value)
    decreases |operations|
  {
    if operations != [] {
      hide Operations, Colon;
      FirstOperation(front, operations);
      OperatedIsFolded(rules, front + (":" + operations[0]), operations[1..], rules.operation(value, operations[0]));
    }
  }

  // A reference to a setting with operations: the setting is resolved, then exactly these operations are applied.
  lemma ReferenceAppliesOperations(scope: Scope, condition: Condition, name: string, operations: seq<string>,
                                   context: Option<Context>, depth: nat)
    requires ':' !in name && WithoutColons(operations) && !Inherits(context, name + Operations(operations))
    ensures Base(name + Operations(operations)) == name
    ensures ghost var value := Assigned(scope, condition, name, depth);
            Referred(scope, condition, name + Operations(operations), context, depth)
            == if value.Some? then Some(Folded(scope.rules, operations, value.value)) else None
  {
    hide Inherits, Inherited, Assigned, Operated, Referred;
    var text := name + Operations(operations);
    assert text[0..|name|] == name && text[..|name|] == name;
    ColonBehind(text, 0, |name|);
    ReferredCases(scope, condition, text, context, depth);
    var value := Assigned(scope, condition, name, depth);
    if value.Some? {
      OperatedIsFolded(scope.rules, name, operations, value.value);
    }
  }

  // An expression of one such reference.
  lemma ExpressionAppliesOperations(scope: Scope, condition: Condition, name: string, operations: seq<string>,
                                         value: string)
    requires ':' !in name && WithoutColons(operations) && Resolves(scope, condition, name, value)
    ensures Expands(scope, condition, [To(name + Operations(operations))], Folded(scope.rules, operations, value))
  {
    hide Expanded, ExpandedEntry, Assigned, Referred, Folded;
    var text := name + Operations(operations);
    var depth: nat :| Assigned(scope, condition, name, depth) == Some(value);
    ReferenceAppliesOperations(scope, condition, name, operations, None, depth);
    ExpandedCons(scope, condition, [To(text)], None, depth);
    ExpandedCons(scope, condition, [], None, depth);
    EntryCases(scope, condition, To(text), None, depth);
    ExpandedText(scope, condition, text, None, depth);
    var result := Folded(scope.rules, operations, value);
    BothAssociates(Some(result), None, None);
    assert [To(text)][1..] == [];
    assert Expanded(scope, condition, [To(text)], None, depth) == Some(result);
  }

  // A condition of one key is satisfied by the value of that key, which the required one must match; of several keys,
  // one by one.
  lemma ConditionOfOne(rules: Rules, key: string, value: string, actual: Condition)
    ensures Satisfies(rules, map[], actual)
    ensures Satisfies(rules, map[key := value], actual) <==> key in actual && rules.wildcard(value, actual[key])
  {
    assert map[key := value][key] == value;
  }

  lemma ConditionOfMore(rules: Rules, required: Condition, more: Condition, actual: Condition)
    requires required.Keys !! more.Keys
    ensures Satisfies(rules, required + more, actual)
            <==> Satisfies(rules, required, actual) && Satisfies(rules, more, actual)
  {
    var both := required + more;
    assert forall k :: k in required ==> both[k] == required[k];
    assert forall k :: k in more ==> both[k] == more[k];
    if Satisfies(rules, both, actual) {
      assert forall k :: k in required ==> k in both;
      assert forall k :: k in more ==> k in both;
    }
  }

  // ----- Concatenation -----

  lemma {:induction false} ExpandedOfConcat(scope: Scope, condition: Condition, a: seq<Entry>, b: seq<Entry>,
                                            context: Option<Context>, depth: nat)
    ensures Expanded(scope, condition, a + b, context, depth)
            == Both(Expanded(scope, condition, a, context, depth), Expanded(scope, condition, b, context, depth))
  {
    hide Expanded, ExpandedEntry, Both;
    ExpandedCons(scope, condition, a, context, depth);
    ExpandedCons(scope, condition, a + b, context, depth);
    if a == [] {
      assert a + b == b;
      BothAssociates(Expanded(scope, condition, b, context, depth), None, None);
    } else {
      ExpandedOfConcat(scope, condition, a[1..], b, context, depth);
      assert (a + b)[0] == a[0] && (a + b)[1..] == a[1..] + b;
      BothAssociates(ExpandedEntry(scope, condition, a[0], context, depth),
                     Expanded(scope, condition, a[1..], context, depth),
                     Expanded(scope, condition, b, context, depth));
    }
  }

  lemma BothAssociates(a: Option<string>, b: Option<string>, c: Option<string>)
    ensures Both(Both(a, b), c) == Both(a, Both(b, c))
    ensures Both(a, Some("")) == a && Both(Some(""), a) == a
  {
    if a.Some? {
      assert a.value + "" == a.value && "" + a.value == a.value;
      if b.Some? && c.Some? {
        assert a.value + b.value + c.value == a.value + (b.value + c.value);
      }
    }
  }

  // Adding two values and expanding is expanding each: joining the texts at the seam changes nothing.
  lemma ExpandedOfSum(scope: Scope, condition: Condition, a: seq<Entry>, b: seq<Entry>, context: Option<Context>,
                      depth: nat)
    ensures Expanded(scope, condition, Concat(a, b), context, depth)
            == Both(Expanded(scope, condition, a, context, depth), Expanded(scope, condition, b, context, depth))
  {
    hide Expanded, ExpandedEntry, Both;
    ExpandedOfConcat(scope, condition, a, b, context, depth);
    if a != [] && b != [] && a[|a| - 1].Text? && b[0].Text? {
      var front, x, y, back := a[..|a| - 1], a[|a| - 1], b[0], b[1..];
      assert a == front + [x];
      assert b == [y] + back;
      var f := Expanded(scope, condition, front, context, depth);
      var g := Expanded(scope, condition, back, context, depth);
      ExpandedAround(scope, condition, front, x.text + y.text, back, context, depth);
      ExpandedOfConcat(scope, condition, front, [x], context, depth);
      ExpandedOfConcat(scope, condition, [y], back, context, depth);
      ExpandedText(scope, condition, x.text, context, depth);
      ExpandedText(scope, condition, y.text, context, depth);
      BothJoins(f, x.text, y.text, g);
    }
  }

  lemma BothJoins(f: Option<string>, x: string, y: string, g: Option<string>)
    ensures Both(Both(f, Some(x + y)), g) == Both(Both(f, Some(x)), Both(Some(y), g))
  {
    if f.Some? && g.Some? {
      assert f.value + (x + y) + g.value == (f.value + x) + (y + g.value);
    }
  }

  lemma ExpandedAround(scope: Scope, condition: Condition, front: seq<Entry>, text: string, back: seq<Entry>,
                       context: Option<Context>, depth: nat)
    ensures Expanded(scope, condition, front + [Text(text)] + back, context, depth)
            == Both(Both(Expanded(scope, condition, front, context, depth), Some(text)),
                    Expanded(scope, condition, back, context, depth))
  {
    hide Expanded, ExpandedEntry, Both;
    ExpandedOfConcat(scope, condition, front + [Text(text)], back, context, depth);
    ExpandedOfConcat(scope, condition, front, [Text(text)], context, depth);
    ExpandedText(scope, condition, text, context, depth);
  }

  lemma ExpandedText(scope: Scope, condition: Condition, text: string, context: Option<Context>, depth: nat)
    ensures Expanded(scope, condition, [Text(text)], context, depth) == Some(text)
  {
    hide Expanded, ExpandedEntry;
    ExpandedCons(scope, condition, [Text(text)], context, depth);
    ExpandedCons(scope, condition, [], context, depth);
    EntryCases(scope, condition, Text(text), context, depth);
    assert [Text(text)][1..] == [] && text + "" == text;
  }

  // ----- Termination -----

  predicate Literal(entries: seq<Entry>) {
    forall e :: e in entries ==> e.Text?
  }

  function Names(e: Entry): string
    requires e.Reference?
  {
    RawEntries(e.value.entries)
  }

  lemma {:induction false} LiteralExpands(scope: Scope, condition: Condition, entries: seq<Entry>,
                                          context: Option<Context>, depth: nat)
    requires Literal(entries)
    ensures Expanded(scope, condition, entries, context, depth) == Some(RawEntries(entries))
  {
    hide Expanded, ExpandedEntry;
    ExpandedCons(scope, condition, entries, context, depth);
    if entries != [] {
      assert entries[0] in entries;
      LiteralExpands(scope, condition, entries[1..], context, depth);
      EntryCases(scope, condition, entries[0], context, depth);
    }
  }

  // What resolution enters: a setting, as the levels from `from` on define it.
  datatype Node = Node(condition: Condition, name: string, from: nat)

  ghost function Assignment(scope: Scope, condition: Condition, name: string): Node {
    Node(if LevelFrom(scope, condition, name, 0) < |scope.levels| then condition else map[], name, 0)
  }

  // What a reference of that name enters.
  ghost function Target(scope: Scope, condition: Condition, context: Option<Context>, name: string): Node {
    if Inherits(context, name) then Node(condition, context.value.setting, context.value.level + 1)
    else Assignment(scope, condition, Base(name))
  }

  // Expanding the entries enters the node: one of their references, or a reference within the name of one, expands to
  // a name that leads there.
  ghost predicate RefersTo(scope: Scope, condition: Condition, entries: seq<Entry>, context: Option<Context>,
                           node: Node)
    decreases entries
  {
    entries != [] && (EntryRefersTo(scope, condition, entries[0], context, node)
                      || RefersTo(scope, condition, entries[1..], context, node))
  }

  ghost predicate EntryRefersTo(scope: Scope, condition: Condition, entry: Entry, context: Option<Context>, node: Node)
    decreases entry
  {
    && entry.Reference?
    && (|| RefersTo(scope, condition, entry.value.entries, context, node)
        || exists name, depth: nat :: Expanded(scope, condition, entry.value.entries, context, depth) == Some(name)
                                      && Target(scope, condition, context, name) == node)
  }

  // The definition in force at one node enters the other.
  ghost predicate Edge(scope: Scope, node: Node, next: Node) {
    var i := LevelFrom(scope, node.condition, node.name, node.from);
    && i < |scope.levels|
    && RefersTo(scope, node.condition, DefinitionAt(scope, node.condition, node.name, i), Some(Context(node.name, i)),
                next)
  }

  ghost predicate EntersOneOf(scope: Scope, node: Node, nodes: iset<Node>) {
    exists next :: next in nodes && Edge(scope, node, next)
  }

  // Every node of the set enters some node of the set.
  ghost predicate Closed(scope: Scope, nodes: iset<Node>) {
    forall n :: n in nodes ==> EntersOneOf(scope, n, nodes)
  }

  lemma NextInside(scope: Scope, node: Node, nodes: iset<Node>) returns (next: Node)
    requires EntersOneOf(scope, node, nodes)
    ensures next in nodes && Edge(scope, node, next)
  {
    hide Edge;
    next :| next in nodes && Edge(scope, node, next);
  }

  ghost predicate Circular(scope: Scope, node: Node) {
    exists nodes: iset<Node> :: node in nodes && Closed(scope, nodes)
  }

  ghost predicate Never(scope: Scope, node: Node) {
    forall depth: nat :: Inherited(scope, node.condition, node.name, node.from, depth).None?
  }

  lemma {:induction false} ClosedNeverEnds(scope: Scope, nodes: iset<Node>, node: Node, depth: nat)
    requires Closed(scope, nodes) && node in nodes
    ensures Inherited(scope, node.condition, node.name, node.from, depth).None?
    decreases depth, 0
  {
    hide Expanded, Inherited, LevelFrom, DefinitionAt, RefersTo, EntersOneOf;
    InheritedCases(scope, node.condition, node.name, node.from, depth);
    var next := NextInside(scope, node, nodes);
    if depth > 0 {
      var i := LevelFrom(scope, node.condition, node.name, node.from);
      ReferenceFails(scope, node.condition, DefinitionAt(scope, node.condition, node.name, i),
                     Some(Context(node.name, i)), next, nodes, depth - 1);
    }
  }

  lemma {:induction false} ReferenceFails(scope: Scope, condition: Condition, entries: seq<Entry>,
                                          context: Option<Context>, next: Node, nodes: iset<Node>, depth: nat)
    requires Closed(scope, nodes) && next in nodes && RefersTo(scope, condition, entries, context, next)
    ensures Expanded(scope, condition, entries, context, depth).None?
    decreases depth, 1, entries
  {
    hide Expanded, ExpandedEntry, EntryRefersTo, Closed;
    ExpandedCons(scope, condition, entries, context, depth);
    if EntryRefersTo(scope, condition, entries[0], context, next) {
      EntryFails(scope, condition, entries[0], context, next, nodes, depth);
    } else {
      ReferenceFails(scope, condition, entries[1..], context, next, nodes, depth);
    }
  }

  lemma {:induction false} EntryFails(scope: Scope, condition: Condition, entry: Entry, context: Option<Context>,
                                      next: Node, nodes: iset<Node>, depth: nat)
    requires Closed(scope, nodes) && next in nodes && EntryRefersTo(scope, condition, entry, context, next)
    ensures ExpandedEntry(scope, condition, entry, context, depth).None?
    decreases depth, 1, entry
  {
    hide Expanded, ExpandedEntry, Referred, RefersTo, Closed, Target;
    EntryCases(scope, condition, entry, context, depth);
    var inner := entry.value.entries;
    if RefersTo(scope, condition, inner, context, next) {
      ReferenceFails(scope, condition, inner, context, next, nodes, depth);
    } else {
      var name, enough: nat :| Expanded(scope, condition, inner, context, enough) == Some(name)
                               && Target(scope, condition, context, name) == next;
      if Expanded(scope, condition, inner, context, depth).Some? {
        ExpansionIsUnique(scope, condition, inner, context, depth, enough);
        TargetEntered(scope, condition, name, context, depth);
        ClosedNeverEnds(scope, nodes, next, depth);
      }
    }
  }

  lemma ExpansionIsUnique(scope: Scope, condition: Condition, entries: seq<Entry>, context: Option<Context>, a: nat,
                          b: nat)
    requires Expanded(scope, condition, entries, context, a).Some?
    requires Expanded(scope, condition, entries, context, b).Some?
    ensures Expanded(scope, condition, entries, context, a) == Expanded(scope, condition, entries, context, b)
  {
    hide Expanded;
    if a <= b {
      ExpandedDeeper(scope, condition, entries, context, a, b);
    } else {
      ExpandedDeeper(scope, condition, entries, context, b, a);
    }
  }

  lemma TargetEntered(scope: Scope, condition: Condition, name: string, context: Option<Context>, depth: nat)
    ensures ghost var t := Target(scope, condition, context, name);
            Referred(scope, condition, name, context, depth).None?
            <==> Inherited(scope, t.condition, t.name, t.from, depth).None?
  {
    hide Referred, Inherited, Assigned, LevelFrom, Base, Operated;
    ReferredCases(scope, condition, name, context, depth);
    AssignedCases(scope, condition, Base(name), depth);
  }

  // Entries that never expand enter a node that never resolves.
  lemma {:induction false} FailingReference(scope: Scope, condition: Condition, entries: seq<Entry>,
                                            context: Option<Context>)
    returns (next: Node)
    requires forall depth: nat :: Expanded(scope, condition, entries, context, depth).None?
    ensures RefersTo(scope, condition, entries, context, next) && Never(scope, next)
    decreases entries
  {
    hide Expanded, ExpandedEntry, EntryRefersTo, Never;
    ExpandedCons(scope, condition, entries, context, 0);
    if a: nat :| ExpandedEntry(scope, condition, entries[0], context, a).Some? {
      forall depth: nat
        ensures Expanded(scope, condition, entries[1..], context, depth).None?
      {
        if Expanded(scope, condition, entries[1..], context, depth).Some? {
          var both := if a <= depth then depth else a;
          EntryDeeper(scope, condition, entries[0], context, a, both);
          ExpandedDeeper(scope, condition, entries[1..], context, depth, both);
          ExpandedCons(scope, condition, entries, context, both);
        }
      }
      next := FailingReference(scope, condition, entries[1..], context);
    } else {
      next := FailingEntry(scope, condition, entries[0], context);
    }
  }

  lemma {:induction false} FailingEntry(scope: Scope, condition: Condition, entry: Entry, context: Option<Context>)
    returns (next: Node)
    requires forall depth: nat :: ExpandedEntry(scope, condition, entry, context, depth).None?
    ensures EntryRefersTo(scope, condition, entry, context, next) && Never(scope, next)
    decreases entry
  {
    hide Expanded, ExpandedEntry, Referred, RefersTo, Target;
    EntryCases(scope, condition, entry, context, 0);
    assert ExpandedEntry(scope, condition, entry, context, 0).None?;
    var inner := entry.value.entries;
    if a: nat :| Expanded(scope, condition, inner, context, a).Some? {
      var name := Expanded(scope, condition, inner, context, a).value;
      next := Target(scope, condition, context, name);
      forall depth: nat
        ensures Inherited(scope, next.condition, next.name, next.from, depth).None?
      {
        var both := if a <= depth then depth else a;
        ExpandedDeeper(scope, condition, inner, context, a, both);
        EntryCases(scope, condition, entry, context, both);
        assert ExpandedEntry(scope, condition, entry, context, both).None?;
        TargetEntered(scope, condition, name, context, both);
        if Inherited(scope, next.condition, next.name, next.from, depth).Some? {
          InheritedDeeper(scope, next.condition, next.name, next.from, depth, both);
        }
      }
    } else {
      next := FailingReference(scope, condition, inner, context);
    }
  }

  // A node is never resolved exactly when it lies in a set of nodes each of which enters another one of the set.
  lemma NeverExactlyWhenCircular(scope: Scope, node: Node)
    ensures Never(scope, node) <==> Circular(scope, node)
  {
    hide Inherited, Edge, EntersOneOf;
    if Circular(scope, node) {
      var nodes: iset<Node> :| node in nodes && Closed(scope, nodes);
      forall depth: nat
        ensures Inherited(scope, node.condition, node.name, node.from, depth).None?
      {
        ClosedNeverEnds(scope, nodes, node, depth);
      }
    }
    if Never(scope, node) {
      var nodes := iset n: Node | Never(scope, n);
      forall n | n in nodes
        ensures EntersOneOf(scope, n, nodes)
      {
        var m := NextNever(scope, n);
        Enters(scope, n, m, nodes);
      }
      assert node in nodes && Closed(scope, nodes);
    }
  }

  lemma Enters(scope: Scope, node: Node, next: Node, nodes: iset<Node>)
    requires next in nodes && Edge(scope, node, next)
    ensures EntersOneOf(scope, node, nodes)
  {
    hide Edge;
  }

  lemma NextNever(scope: Scope, node: Node) returns (next: Node)
    requires Never(scope, node)
    ensures Edge(scope, node, next) && Never(scope, next)
  {
    hide Expanded, Inherited, LevelFrom, DefinitionAt, RefersTo;
    var i := LevelFrom(scope, node.condition, node.name, node.from);
    InheritedCases(scope, node.condition, node.name, node.from, 0);
    assert Inherited(scope, node.condition, node.name, node.from, 0).None?;
    var definition := DefinitionAt(scope, node.condition, node.name, i);
    forall depth: nat
      ensures Expanded(scope, node.condition, definition, Some(Context(node.name, i)), depth).None?
    {
      InheritedCases(scope, node.condition, node.name, node.from, depth + 1);
      assert Inherited(scope, node.condition, node.name, node.from, depth + 1).None?;
    }
    next := FailingReference(scope, node.condition, definition, Some(Context(node.name, i)));
  }

  // A setting resolves exactly when it is not circular.
  lemma ResolvesExactlyWhenNotCircular(scope: Scope, condition: Condition, name: string)
    ensures (exists r :: Resolves(scope, condition, name, r)) <==> !Circular(scope, Assignment(scope, condition, name))
  {
    hide Inherited, Assigned, LevelFrom, Circular;
    var node := Assignment(scope, condition, name);
    NeverExactlyWhenCircular(scope, node);
    forall depth: nat
      ensures Assigned(scope, condition, name, depth) == Inherited(scope, node.condition, node.name, node.from, depth)
    {
      AssignedCases(scope, condition, name, depth);
    }
    if !Never(scope, node) {
      var depth: nat :| Inherited(scope, node.condition, node.name, node.from, depth).Some?;
      assert Resolves(scope, condition, name, Assigned(scope, condition, name, depth).value);
    }
  }

  // An expression expands exactly when it enters no circular node.
  lemma ExpandsExactlyWhenNotCircular(scope: Scope, condition: Condition, entries: seq<Entry>)
    ensures (exists r :: Expands(scope, condition, entries, r))
            <==> !exists n :: RefersTo(scope, condition, entries, None, n) && Circular(scope, n)
  {
    hide Expanded, RefersTo, Inherited, Closed, Circular, Never;
    if n :| RefersTo(scope, condition, entries, None, n) && Circular(scope, n) {
      forall depth: nat
        ensures Expanded(scope, condition, entries, None, depth).None?
      {
        CircularReferenceFails(scope, condition, entries, n, depth);
      }
    } else if depth: nat :| Expanded(scope, condition, entries, None, depth).Some? {
      assert Expands(scope, condition, entries, Expanded(scope, condition, entries, None, depth).value);
    } else {
      var next := FailingReference(scope, condition, entries, None);
      NeverExactlyWhenCircular(scope, next);
    }
  }

  lemma CircularReferenceFails(scope: Scope, condition: Condition, entries: seq<Entry>, node: Node, depth: nat)
    requires RefersTo(scope, condition, entries, None, node) && Circular(scope, node)
    ensures Expanded(scope, condition, entries, None, depth).None?
  {
    hide Expanded, RefersTo, Closed;
    var nodes: iset<Node> :| node in nodes && Closed(scope, nodes);
    ReferenceFails(scope, condition, entries, None, node, nodes, depth);
  }

  // Where the names of references are literal, the edges can be read off the definitions.
  ghost predicate LiteralReferences(entries: seq<Entry>) {
    forall e :: e in entries && e.Reference? ==> Literal(e.value.entries)
  }

  lemma {:induction false} LiteralEdges(scope: Scope, condition: Condition, entries: seq<Entry>,
                                        context: Option<Context>, node: Node)
    requires LiteralReferences(entries)
    ensures RefersTo(scope, condition, entries, context, node)
            <==> exists e :: e in entries && e.Reference? && Target(scope, condition, context, Names(e)) == node
    decreases |entries|
  {
    hide Target, Expanded;
    if entries != [] {
      var e := entries[0];
      assert e in entries;
      LiteralEdges(scope, condition, entries[1..], context, node);
      assert entries == [e] + entries[1..];
      if e.Reference? {
        LiteralEdge(scope, condition, e, context, node);
      }
    }
  }

  lemma LiteralEdge(scope: Scope, condition: Condition, e: Entry, context: Option<Context>, node: Node)
    requires e.Reference? && Literal(e.value.entries)
    ensures EntryRefersTo(scope, condition, e, context, node) <==> Target(scope, condition, context, Names(e)) == node
  {
    hide Target, Expanded;
    TextsReferToNothing(scope, condition, e.value.entries, context, node);
    forall depth: nat
      ensures Expanded(scope, condition, e.value.entries, context, depth) == Some(Names(e))
    {
      LiteralExpands(scope, condition, e.value.entries, context, depth);
    }
    assert Expanded(scope, condition, e.value.entries, context, 0) == Some(Names(e));
  }

  lemma {:induction false} TextsReferToNothing(scope: Scope, condition: Condition, entries: seq<Entry>,
                                               context: Option<Context>, node: Node)
    requires Literal(entries)
    ensures !RefersTo(scope, condition, entries, context, node)
    decreases |entries|
  {
    hide Target, Expanded;
    if entries != [] {
      assert entries[0] in entries;
      TextsReferToNothing(scope, condition, entries[1..], context, node);
    }
  }

  lemma EdgesOfLiteral(scope: Scope, node: Node, next: Node)
    requires LiteralScope(scope)
    ensures ghost var i := LevelFrom(scope, node.condition, node.name, node.from);
            Edge(scope, node, next)
            <==> i < |scope.levels|
                 && exists e :: e in DefinitionAt(scope, node.condition, node.name, i) && e.Reference?
                                && Target(scope, node.condition, Some(Context(node.name, i)), Names(e)) == next
  {
    hide Target, RefersTo, LevelFrom, DefinitionAt, LiteralReferences;
    var i := LevelFrom(scope, node.condition, node.name, node.from);
    if i < |scope.levels| {
      DefinitionIsASetting(scope, node.condition, node.name, i);
      LiteralEdges(scope, node.condition, DefinitionAt(scope, node.condition, node.name, i),
                   Some(Context(node.name, i)), next);
    }
  }

  ghost predicate LiteralScope(scope: Scope) {
    forall l, s :: l in scope.levels && s in l ==> LiteralReferences(s.value.entries)
  }

  lemma DefinitionIsASetting(scope: Scope, condition: Condition, name: string, i: nat)
    requires i < |scope.levels|
    ensures DefinitionAt(scope, condition, name, i) == []
            || exists s :: s in scope.levels[i] && s.value.entries == DefinitionAt(scope, condition, name, i)
    ensures LiteralScope(scope) ==> LiteralReferences(DefinitionAt(scope, condition, name, i))
  {
    hide Get;
    GetsLastMatch(scope.rules, scope.levels[i], name, condition);
    if Get(scope.rules, scope.levels[i], name, condition).Some? {
      var k :| IsLastMatch(scope.rules, scope.levels[i], name, condition, k)
               && scope.levels[i][k].value == Get(scope.rules, scope.levels[i], name, condition).value;
      assert scope.levels[i] in scope.levels && scope.levels[i][k] in scope.levels[i];
    }
  }

  // The nodes that can be entered from a node of a literal scope.
  ghost function Reachable(scope: Scope, node: Node): set<Node> {
    var references :=
      set l, s, e | l in scope.levels && s in l && e in s.value.entries && e.Reference? :: Base(Names(e));
    var conditions, names := {node.condition, map[]}, {node.name} + references;
    set c, n, i: nat | c in conditions && n in names && 0 <= i <= |scope.levels| + node.from :: Node(c, n, i)
  }

  lemma ReachableIsClosed(scope: Scope, node: Node, n: Node, m: Node)
    requires LiteralScope(scope) && n in Reachable(scope, node) && Edge(scope, n, m)
    ensures m in Reachable(scope, node)
  {
    hide LevelFrom, DefinitionAt, Base, Edge, LiteralScope;
    EdgesOfLiteral(scope, n, m);
    var i := LevelFrom(scope, n.condition, n.name, n.from);
    var definition := DefinitionAt(scope, n.condition, n.name, i);
    var e :| e in definition && e.Reference? && Target(scope, n.condition, Some(Context(n.name, i)), Names(e)) == m;
    DefinitionIsASetting(scope, n.condition, n.name, i);
    var s :| s in scope.levels[i] && s.value.entries == definition;
    assert scope.levels[i] in scope.levels;
  }

  // Circles of literal scopes can be found among finitely many nodes.
  lemma CirclesAreFinite(scope: Scope, node: Node)
    requires LiteralScope(scope)
    ensures Circular(scope, node)
            <==> exists nodes: set<Node> ::
                   node in nodes && nodes <= Reachable(scope, node) && Closed(scope, Infinite(nodes))
  {
    hide Reachable, LiteralScope, Closed;
    if Circular(scope, node) {
      var all: iset<Node> :| node in all && Closed(scope, all);
      ReachablePart(scope, node, all);
    }
  }

  ghost function Infinite(nodes: set<Node>): (r: iset<Node>)
    ensures forall n :: n in r <==> n in nodes
  {
    iset n | n in nodes
  }

  ghost function Common(nodes: set<Node>, all: iset<Node>): (r: set<Node>)
    ensures forall n :: n in r <==> n in nodes && n in all
  {
    set n | n in nodes && n in all
  }

  lemma ReachablePart(scope: Scope, node: Node, all: iset<Node>)
    requires LiteralScope(scope) && node in all && Closed(scope, all)
    ensures ghost var nodes := Common(Reachable(scope, node), all);
            node in nodes && nodes <= Reachable(scope, node) && Closed(scope, Infinite(nodes))
  {
    hide Edge, Reachable, LiteralScope, EntersOneOf;
    var nodes := Common(Reachable(scope, node), all);
    NodeIsReachable(scope, node);
    forall n | n in nodes
      ensures EntersOneOf(scope, n, Infinite(nodes))
    {
      var m := NextInside(scope, n, all);
      ReachableIsClosed(scope, node, n, m);
      Enters(scope, n, m, Infinite(nodes));
    }
  }

  lemma NodeIsReachable(scope: Scope, node: Node)
    ensures node in Reachable(scope, node)
  {
  }

  // A rank that falls along every edge rules out circles.
  lemma RankedIsNotCircular(scope: Scope, node: Node, rank: Node -> nat)
    requires forall n, m :: Edge(scope, n, m) ==> rank(m) < rank(n)
    ensures !Circular(scope, node)
  {
    hide Edge, Closed;
    if Circular(scope, node) {
      var nodes: iset<Node> :| node in nodes && Closed(scope, nodes);
      RankedIsNotClosed(scope, node, rank, nodes);
    }
  }

  lemma {:induction false} RankedIsNotClosed(scope: Scope, node: Node, rank: Node -> nat, nodes: iset<Node>)
    requires forall n, m :: Edge(scope, n, m) ==> rank(m) < rank(n)
    ensures !(node in nodes && Closed(scope, nodes))
    decreases rank(node)
  {
    hide Edge, EntersOneOf;
    if node in nodes && Closed(scope, nodes) {
      var m := NextInside(scope, node, nodes);
      RankedIsNotClosed(scope, m, rank, nodes);
    }
  }

  // A definition that refers to its own setting with an operation, as in `$(NAME:lower)`, is a circle of one: only the
  // bare name means the inherited value.
  lemma OperationOnItselfNeverResolves(scope: Scope, condition: Condition, name: string, e: Entry)
    requires LevelFrom(scope, condition, name, 0) < |scope.levels|
    requires LiteralReferences(DefinitionAt(scope, condition, name, LevelFrom(scope, condition, name, 0)))
    requires e in DefinitionAt(scope, condition, name, LevelFrom(scope, condition, name, 0)) && e.Reference?
    requires Base(Names(e)) == name && Names(e) != name && Names(e) != "inherited"
    ensures !exists r :: Resolves(scope, condition, name, r)
  {
    hide LevelFrom, DefinitionAt, Base, Resolves, RefersTo, EntersOneOf;
    var node := Node(condition, name, 0);
    var i := LevelFrom(scope, condition, name, 0);
    LiteralEdges(scope, condition, DefinitionAt(scope, condition, name, i), Some(Context(name, i)), node);
    Enters(scope, node, node, iset{node});
    assert Closed(scope, iset{node});
    ResolvesExactlyWhenNotCircular(scope, condition, name);
  }

  // ----- An override that only inherits -----

  function Plain(name: string, entry: Entry): Setting {
    Setting(name, map[], Value([entry]))
  }

  // A = <first>, B = $(A) over A = $(B)
  function Override(rules: Rules, first: Entry): Scope {
    Scope(rules, [[Plain("A", first), Plain("B", To("A"))], [Plain("A", To("B"))]])
  }

  lemma OverrideDefinitions(rules: Rules, first: Entry, condition: Condition)
    ensures ghost var scope := Override(rules, first);
            && |scope.levels| == 2
            && LevelFrom(scope, condition, "A", 0) == 0 && DefinitionAt(scope, condition, "A", 0) == [first]
            && LevelFrom(scope, condition, "A", 1) == 1 && DefinitionAt(scope, condition, "A", 1) == [To("B")]
            && LevelFrom(scope, condition, "B", 0) == 0 && DefinitionAt(scope, condition, "B", 0) == [To("A")]
  {
    var scope := Override(rules, first);
    var one, two := scope.levels[0], scope.levels[1];
    assert "A" != "B" by {
      assert "A"[0] != "B"[0];
    }
    assert one[..1] == [Plain("A", first)];
    assert Get(rules, one[..1], "A", condition) == Some(Value([first]));
    assert Get(rules, one, "A", condition) == Some(Value([first]));
    assert Get(rules, one, "B", condition) == Some(Value([To("A")]));
    assert Get(rules, two, "A", condition) == Some(Value([To("B")]));
  }

  lemma LiteralName(name: string)
    ensures Names(To(name)) == name
  {
    var entries := [Text(name)];
    assert RawEntries(entries) == RawEntry(entries[0]) + RawEntries(entries[1..]) == name + "";
  }

  lemma NamesOfOverride()
    ensures Base("A") == "A" && Base("B") == "B" && Colon("A", 0).None?
    ensures "inherited" != "A" && "inherited" != "B" && "A" != "B"
  {
    assert Colon("A", 1).None? && Colon("B", 1).None?;
    assert "A"[0] != "B"[0];
  }

  lemma OnlyReference(scope: Scope, node: Node, i: nat, name: string)
    requires i < |scope.levels| && LevelFrom(scope, node.condition, node.name, node.from) == i
    requires DefinitionAt(scope, node.condition, node.name, i) == [To(name)]
    ensures Edge(scope, node, Target(scope, node.condition, Some(Context(node.name, i)), name))
  {
    hide LevelFrom, DefinitionAt, RefersTo, Target;
    var entries := [To(name)];
    var context := Some(Context(node.name, i));
    assert entries[0] == To(name);
    LiteralName(name);
    LiteralEdges(scope, node.condition, entries, context, Target(scope, node.condition, context, name));
  }

  // The override inherits, so the circle passes through the definition below it.
  lemma InheritingOverrideNeverResolves(rules: Rules, condition: Condition)
    ensures !exists r :: Resolves(Override(rules, To("inherited")), condition, "A", r)
  {
    hide LevelFrom, DefinitionAt, Base, Resolves, Edge, Override, EntersOneOf;
    var scope := Override(rules, To("inherited"));
    OverrideDefinitions(rules, To("inherited"), condition);
    NamesOfOverride();
    var a, below, b := Node(condition, "A", 0), Node(condition, "A", 1), Node(condition, "B", 0);
    OnlyReference(scope, a, 0, "inherited");
    OnlyReference(scope, below, 1, "B");
    OnlyReference(scope, b, 0, "A");
    var nodes := iset{a, below, b};
    Enters(scope, a, below, nodes);
    Enters(scope, below, b, nodes);
    Enters(scope, b, a, nodes);
    assert Closed(scope, nodes);
    ResolvesExactlyWhenNotCircular(scope, condition, "A");
  }

  // An override by a text hides the definition below it, and both settings resolve to the text.
  lemma OverrideByTextResolves(rules: Rules, condition: Condition, text: string)
    ensures Resolves(Override(rules, Text(text)), condition, "A", text)
    ensures Resolves(Override(rules, Text(text)), condition, "B", text)
  {
    hide LevelFrom, DefinitionAt, Base, Inherited, Expanded, ExpandedEntry, Assigned, Referred, Override, Both;
    var scope := Override(rules, Text(text));
    OverrideDefinitions(rules, Text(text), condition);
    AssignedCases(scope, condition, "A", 1);
    InheritedCases(scope, condition, "A", 0, 1);
    ExpandedText(scope, condition, text, Some(Context("A", 0)), 0);
    var context := Some(Context("B", 0));
    NamesOfOverride();
    AssignedCases(scope, condition, "B", 2);
    InheritedCases(scope, condition, "B", 0, 2);
    ExpandedCons(scope, condition, [To("A")], context, 1);
    ExpandedCons(scope, condition, [], context, 1);
    EntryCases(scope, condition, To("A"), context, 1);
    LiteralExpands(scope, condition, To("A").value.entries, context, 1);
    LiteralName("A");
    ReferredCases(scope, condition, "A", context, 1);
    BothAssociates(Some(text), None, None);
    assert [To("A")][1..] == [];
  }

  // ----- Inheritance -----

  // A definition with its references to itself replaced by a text.
  function Substituted(entries: seq<Entry>, name: string, inherited: string): seq<Entry> {
    if entries == [] then []
    else
      [if Inheriting(entries[0], name) then Text(inherited) else entries[0]]
      + Substituted(entries[1..], name, inherited)
  }

  predicate Inheriting(e: Entry, name: string) {
    e.Reference? && (Names(e) == name || Names(e) == "inherited")
  }

  lemma {:induction false} InheritanceIsSubstitution(scope: Scope, condition: Condition, entries: seq<Entry>,
                                                     context: Context, inherited: string, depth: nat)
    requires LiteralReferences(entries)
    requires (exists e :: e in entries && Inheriting(e, context.setting)) ==>
               Inherited(scope, condition, context.setting, context.level + 1, depth) == Some(inherited)
    ensures Expanded(scope, condition, entries, Some(context), depth)
            == Expanded(scope, condition, Substituted(entries, context.setting, inherited), None, depth)
  {
    hide Expanded, ExpandedEntry, Inherited, Assigned, Referred, Base, Operated;
    var rewritten := Substituted(entries, context.setting, inherited);
    ExpandedCons(scope, condition, entries, Some(context), depth);
    ExpandedCons(scope, condition, rewritten, None, depth);
    if entries != [] {
      var e := entries[0];
      assert e in entries;
      InheritanceIsSubstitution(scope, condition, entries[1..], context, inherited, depth);
      assert rewritten[1..] == Substituted(entries[1..], context.setting, inherited);
      EntryCases(scope, condition, e, Some(context), depth);
      EntryCases(scope, condition, rewritten[0], None, depth);
      if e.Reference? {
        LiteralExpands(scope, condition, e.value.entries, Some(context), depth);
        LiteralExpands(scope, condition, e.value.entries, None, depth);
        ReferredCases(scope, condition, Names(e), Some(context), depth);
        ReferredCases(scope, condition, Names(e), None, depth);
      }
    }
  }

  // A definition with the names of its references computed, and those to itself replaced by what the levels strictly
  // after it resolve to; nothing when one of these does not resolve.
  ghost function Rewritten(scope: Scope, condition: Condition, entries: seq<Entry>, context: Context, depth: nat):
    Option<seq<Entry>>
  {
    if entries == [] then Some([])
    else
      var first := RewrittenEntry(scope, condition, entries[0], context, depth);
      var rest := Rewritten(scope, condition, entries[1..], context, depth);
      if first.None? || rest.None? then None else Some([first.value] + rest.value)
  }

  ghost function RewrittenEntry(scope: Scope, condition: Condition, e: Entry, context: Context, depth: nat):
    Option<Entry>
  {
    match e
    case Text(text) => Some(e)
    case Reference(value) =>
      var name := Expanded(scope, condition, value.entries, Some(context), depth);
      if name.None? then None
      else if !Inherits(Some(context), name.value) then Some(Reference(Value([Text(name.value)])))
      else
        var later := Inherited(scope, condition, context.setting, context.level + 1, depth);
        if later.None? then None else Some(Text(later.value))
  }

  // Whatever the names: expanding inside a definition is expanding the rewritten definition outside of any.
  lemma {:induction false} DefinitionIsRewritten(scope: Scope, condition: Condition, entries: seq<Entry>,
                                                 context: Context, depth: nat)
    ensures ghost var rewritten := Rewritten(scope, condition, entries, context, depth);
            Expanded(scope, condition, entries, Some(context), depth)
            == if rewritten.None? then None else Expanded(scope, condition, rewritten.value, None, depth)
  {
    hide Expanded, ExpandedEntry, RewrittenEntry;
    ExpandedCons(scope, condition, entries, Some(context), depth);
    if entries == [] {
      ExpandedCons(scope, condition, [], None, depth);
    } else {
      EntryIsRewritten(scope, condition, entries[0], context, depth);
      DefinitionIsRewritten(scope, condition, entries[1..], context, depth);
      var first := RewrittenEntry(scope, condition, entries[0], context, depth);
      var rest := Rewritten(scope, condition, entries[1..], context, depth);
      if first.Some? && rest.Some? {
        var rewritten := [first.value] + rest.value;
        ExpandedCons(scope, condition, rewritten, None, depth);
        assert rewritten[1..] == rest.value;
      }
    }
  }

  lemma EntryIsRewritten(scope: Scope, condition: Condition, e: Entry, context: Context, depth: nat)
    ensures ghost var rewritten := RewrittenEntry(scope, condition, e, context, depth);
            ExpandedEntry(scope, condition, e, Some(context), depth)
            == if rewritten.None? then None else ExpandedEntry(scope, condition, rewritten.value, None, depth)
  {
    hide Expanded, ExpandedEntry, Inherited, Assigned, Referred, Base, Operated;
    EntryCases(scope, condition, e, Some(context), depth);
    if e.Text? {
      EntryCases(scope, condition, e, None, depth);
    } else {
      var name := Expanded(scope, condition, e.value.entries, Some(context), depth);
      if name.Some? {
        ReferredCases(scope, condition, name.value, Some(context), depth);
        ReferredCases(scope, condition, name.value, None, depth);
        ExpandedText(scope, condition, name.value, None, depth);
        EntryCases(scope, condition, Reference(Value([Text(name.value)])), None, depth);
        var later := Inherited(scope, condition, context.setting, context.level + 1, depth);
        if later.Some? {
          EntryCases(scope, condition, Text(later.value), None, depth);
        }
      }
    }
  }

  // A setting resolves to its first definition, its references to itself replaced by what the levels strictly after
  // that one resolve to; other references are resolved over all levels. When the definition refers to itself and those
  // levels do not resolve, neither does the setting.
  lemma ResolvesToFirstDefinition(scope: Scope, condition: Condition, name: string, from: nat, depth: nat)
    requires LevelFrom(scope, condition, name, from) < |scope.levels|
    ensures ghost var i := LevelFrom(scope, condition, name, from);
            ghost var definition := DefinitionAt(scope, condition, name, i);
            ghost var rewritten := Rewritten(scope, condition, definition, Context(name, i), depth);
            Inherited(scope, condition, name, from, depth + 1)
            == if rewritten.None? then None else Expanded(scope, condition, rewritten.value, None, depth)
  {
    hide Expanded, Inherited, DefinitionAt, LevelFrom, Rewritten;
    InheritedCases(scope, condition, name, from, depth + 1);
    var i := LevelFrom(scope, condition, name, from);
    DefinitionIsRewritten(scope, condition, DefinitionAt(scope, condition, name, i), Context(name, i), depth);
  }

  // The same read off a definition whose references have literal names.
  lemma ResolvesToSubstitutedDefinition(scope: Scope, condition: Condition, name: string, from: nat, depth: nat)
    requires LevelFrom(scope, condition, name, from) < |scope.levels|
    requires LiteralReferences(DefinitionAt(scope, condition, name, LevelFrom(scope, condition, name, from)))
    ensures ghost var i := LevelFrom(scope, condition, name, from);
            ghost var definition := DefinitionAt(scope, condition, name, i);
            ghost var later := Inherited(scope, condition, name, i + 1, depth);
            Inherited(scope, condition, name, from, depth + 1)
            == if later.None? && exists e :: e in definition && Inheriting(e, name) then None
               else Expanded(scope, condition, Substituted(definition, name, later.GetOr("")), None, depth)
  {
    hide Expanded, ExpandedEntry, Referred, Inherited, DefinitionAt, LevelFrom, Substituted;
    InheritedCases(scope, condition, name, from, depth + 1);
    var i := LevelFrom(scope, condition, name, from);
    var definition := DefinitionAt(scope, condition, name, i);
    var context := Context(name, i);
    var later := Inherited(scope, condition, name, i + 1, depth);
    if later.None? && exists e :: e in definition && Inheriting(e, name) {
      var e :| e in definition && Inheriting(e, name);
      LiteralExpands(scope, condition, e.value.entries, Some(context), depth);
      EntryCases(scope, condition, e, Some(context), depth);
      ReferredCases(scope, condition, Names(e), Some(context), depth);
      OneFails(scope, condition, definition, e, Some(context), depth);
    } else {
      InheritanceIsSubstitution(scope, condition, definition, context, later.GetOr(""), depth);
    }
  }

  lemma {:induction false} OneFails(scope: Scope, condition: Condition, entries: seq<Entry>, e: Entry,
                                    context: Option<Context>, depth: nat)
    requires e in entries && ExpandedEntry(scope, condition, e, context, depth).None?
    ensures Expanded(scope, condition, entries, context, depth).None?
  {
    hide Expanded, ExpandedEntry;
    ExpandedCons(scope, condition, entries, context, depth);
    if entries[0] != e {
      OneFails(scope, condition, entries[1..], e, context, depth);
    }
  }

  // ----- Levels -----

  // The definition of a setting that is in force.
  function Definition(rules: Rules, levels: seq<Level>, name: string, condition: Condition): Option<Value> {
    if levels == [] then None
    else OrElse(Get(rules, levels[0], name, condition), Definition(rules, levels[1..], name, condition))
  }

  function OrElse<T>(first: Option<T>, second: Option<T>): Option<T> {
    if first.Some? then first else second
  }

  lemma {:induction false} DefinitionIsAtFirstLevel(rules: Rules, levels: seq<Level>, name: string,
                                                    condition: Condition, from: nat)
    requires from <= |levels|
    ensures ghost var i := FirstLevel(Scope(rules, levels), name, condition, from);
            Definition(rules, levels[from..], name, condition)
            == if i < |levels| then Get(rules, levels[i], name, condition) else None
    decreases |levels| - from
  {
    hide Get;
    if from < |levels| {
      DefinitionIsAtFirstLevel(rules, levels, name, condition, from + 1);
    }
  }

  lemma {:induction false} EarlierLevelsWin(rules: Rules, a: seq<Level>, b: seq<Level>, name: string,
                                            condition: Condition)
    ensures Definition(rules, a + b, name, condition)
            == OrElse(Definition(rules, a, name, condition), Definition(rules, b, name, condition))
  {
    hide Get;
    if a == [] {
      assert a + b == b;
    } else {
      assert (a + b)[0] == a[0] && (a + b)[1..] == a[1..] + b;
      EarlierLevelsWin(rules, a[1..], b, name, condition);
    }
  }

  // ----- The definition that decides -----

  // Under which condition a setting is looked up: the one that is asked for, or none where no level defines it so.
  ghost function Under(scope: Scope, condition: Condition, name: string): Condition {
    if Definition(scope.rules, scope.levels, name, condition).Some? then condition else map[]
  }

  ghost function Governing(scope: Scope, condition: Condition, name: string): Option<Value> {
    Definition(scope.rules, scope.levels, name, Under(scope, condition, name))
  }

  // What the definition in force makes of a setting: nothing without one, the text of a text, and for a reference what
  // the other setting resolves to under the same condition.
  lemma GoverningDefinitionDecides(scope: Scope, condition: Condition, name: string, other: string, r: string)
    ensures Governing(scope, condition, name).None? ==> Resolves(scope, condition, name, "")
    ensures Governing(scope, condition, name) == Some(Value([Text(r)])) ==> Resolves(scope, condition, name, r)
    ensures Governing(scope, condition, name) == Some(Value([To(other)])) && ':' !in other
            && other != name && other != "inherited" && Resolves(scope, Under(scope, condition, name), other, r)
            ==> Resolves(scope, condition, name, r)
  {
    hide Expanded, ExpandedEntry, Inherited, Assigned, Referred, Definition;
    var under := Under(scope, condition, name);
    AssignedUnder(scope, condition, name);
    var value := Governing(scope, condition, name);
    if value.None? {
      assert Assigned(scope, condition, name, 0) == Some("");
    } else if value == Some(Value([Text(r)])) {
      ExpandedText(scope, under, r, Some(Context(name, LevelFrom(scope, under, name, 0))), 0);
      assert Assigned(scope, condition, name, 1) == Some(r);
    } else if value == Some(Value([To(other)])) && ':' !in other && other != name && other != "inherited"
              && Resolves(scope, under, other, r) {
      var depth: nat :| Assigned(scope, under, other, depth) == Some(r);
      var context := Some(Context(name, LevelFrom(scope, under, name, 0)));
      ExpandedName(scope, under, other, context, depth);
      assert Assigned(scope, condition, name, depth + 1) == Some(r);
    }
  }

  lemma AssignedUnder(scope: Scope, condition: Condition, name: string)
    ensures Governing(scope, condition, name).None? ==>
              forall depth :: Assigned(scope, condition, name, depth) == Some("")
    ensures ghost var under := Under(scope, condition, name);
            ghost var value := Governing(scope, condition, name);
            ghost var context := Some(Context(name, LevelFrom(scope, under, name, 0)));
            value.Some? ==>
              forall depth: nat ::
                Assigned(scope, condition, name, depth + 1)
                == Expanded(scope, under, value.value.entries, context, depth)
  {
    hide Expanded, Inherited, Assigned, Definition, Get;
    DefinitionIsAtFirstLevel(scope.rules, scope.levels, name, condition, 0);
    DefinitionIsAtFirstLevel(scope.rules, scope.levels, name, map[], 0);
    assert scope.levels[0..] == scope.levels;
    var under := Under(scope, condition, name);
    forall depth: nat
      ensures Assigned(scope, condition, name, depth) == Inherited(scope, under, name, 0, depth)
    {
      AssignedCases(scope, condition, name, depth);
      InheritedCases(scope, under, name, 0, depth);
    }
    forall depth: nat
      ensures ghost var i := LevelFrom(scope, under, name, 0);
              Inherited(scope, under, name, 0, depth)
              == if i == |scope.levels| then Some("") else if depth == 0 then None
                 else Expanded(scope, under, DefinitionAt(scope, under, name, i), Some(Context(name, i)), depth - 1)
    {
      InheritedCases(scope, under, name, 0, depth);
    }
  }

  lemma ExpandedName(scope: Scope, condition: Condition, other: string, context: Option<Context>, depth: nat)
    requires ':' !in other && !Inherits(context, other) && Assigned(scope, condition, other, depth).Some?
    ensures Expanded(scope, condition, [To(other)], context, depth) == Assigned(scope, condition, other, depth)
  {
    hide Expanded, ExpandedEntry, Assigned, Referred, Folded;
    assert other + Operations([]) == other;
    ReferenceAppliesOperations(scope, condition, other, [], context, depth);
    ExpandedCons(scope, condition, [To(other)], context, depth);
    ExpandedCons(scope, condition, [], context, depth);
    EntryCases(scope, condition, To(other), context, depth);
    ExpandedText(scope, condition, other, context, depth);
    var value := Assigned(scope, condition, other, depth).value;
    assert Folded(scope.rules, [], value) == value by {
      NothingFolded(scope.rules, value);
    }
    assert [To(other)][1..] == [] && value + "" == value;
  }

  lemma NothingFolded(rules: Rules, value: string)
    ensures Folded(rules, [], value) == value
  {
  }

  // ----- The environment -----

  class Environment {
    const rules: Rules
    var levels: seq<Level>
    var offset: nat

    ghost predicate Valid()
      reads this
    {
      offset <= |levels|
    }

    ghost function Own(): seq<Level>
      reads this
      requires Valid()
    {
      levels[..offset]
    }

    ghost function Defaults(): seq<Level>
      reads this
      requires Valid()
    {
      levels[offset..]
    }

    ghost function InForce(name: string, condition: Condition): Option<Value>
      reads this
    {
      Definition(rules, levels, name, condition)
    }

    constructor (rules: Rules)
      ensures Valid() && Own() == [] && Defaults() == [] && this.rules == rules
    {
      this.rules := rules;
      levels, offset := [], 0;
    }

    // Default levels stay behind all others. A level put in front of its group overrides the group.
    method InsertFront(level: Level, isDefault: bool)
      requires Valid()
      modifies this
      ensures Valid()
      ensures Own() == if isDefault then old(Own()) else [level] + old(Own())
      ensures Defaults() == if isDefault then [level] + old(Defaults()) else old(Defaults())
      ensures !isDefault ==> forall name, condition ::
                InForce(name, condition) == OrElse(Get(rules, level, name, condition), old(InForce(name, condition)))
    {
      hide Get, Definition;
      ghost var before := levels;
      if !isDefault {
        levels := [level] + levels;
        offset := offset + 1;
        assert levels[..offset] == [level] + before[..offset - 1];
        assert levels[offset..] == before[offset - 1..];
        forall name, condition
          ensures Definition(rules, levels, name, condition)
                  == OrElse(Get(rules, level, name, condition), Definition(rules, before, name, condition))
        {
          EarlierLevelsWin(rules, [level], before, name, condition);
          OneLevel(rules, level, name, condition);
        }
      } else {
        levels := levels[..offset] + [level] + levels[offset..];
        assert levels[..offset] == before[..offset];
        assert levels[offset..] == [level] + before[offset..];
      }
    }

    // A level put at the back of its group overrides nothing in it.
    method InsertBack(level: Level, isDefault: bool)
      requires Valid()
      modifies this
      ensures Valid()
      ensures Own() == if isDefault then old(Own()) else old(Own()) + [level]
      ensures Defaults() == if isDefault then old(Defaults()) + [level] else old(Defaults())
      ensures isDefault ==> forall name, condition ::
                InForce(name, condition) == OrElse(old(InForce(name, condition)), Get(rules, level, name, condition))
    {
      hide Get, Definition;
      ghost var before := levels;
      if !isDefault {
        levels := levels[..offset] + [level] + levels[offset..];
        offset := offset + 1;
        assert levels[..offset] == before[..offset - 1] + [level];
        assert levels[offset..] == before[offset - 1..];
      } else {
        levels := levels + [level];
        assert levels[..offset] == before[..offset];
        assert levels[offset..] == before[offset..] + [level];
        forall name, condition
          ensures Definition(rules, levels, name, condition)
                  == OrElse(Definition(rules, before, name, condition), Get(rules, level, name, condition))
        {
          EarlierLevelsWin(rules, before, [level], name, condition);
          OneLevel(rules, level, name, condition);
        }
      }
    }

    // The recursion of the three methods below ends where the depth of the definitions is bounded.
    method ResolveValue(condition: Condition, value: Value, context: Option<Context>,
                        ghost depth: nat) returns (result: string)
      requires Expanded(Scope(rules, levels), condition, value.entries, context, depth).Some?
      ensures Expanded(Scope(rules, levels), condition, value.entries, context, depth) == Some(result)
      decreases depth, 2, value
    {
      hide Expanded, ExpandedEntry, Referred, Inherited, Assigned, Operated;
      ghost var scope := Scope(rules, levels);
      result := "";
      assert value.entries[0..] == value.entries;
      BothAssociates(Expanded(scope, condition, value.entries, context, depth), None, None);
      for i := 0 to |value.entries|
        invariant Expanded(scope, condition, value.entries, context, depth)
                  == Both(Some(result), Expanded(scope, condition, value.entries[i..], context, depth))
      {
        BothAssociates(Some(result), ExpandedEntry(scope, condition, value.entries[i], context, depth),
                       Expanded(scope, condition, value.entries[i + 1..], context, depth));
        ExpandedCons(scope, condition, value.entries[i..], context, depth);
        assert value.entries[i..][1..] == value.entries[i + 1..];
        EntryCases(scope, condition, value.entries[i], context, depth);
        match value.entries[i] {
          case Text(text) =>
            result := result + text;
          case Reference(reference) =>
            var resolved := ResolveValue(condition, reference, context, depth);
            ReferredCases(scope, condition, resolved, context, depth);
            if context.Some? && (resolved == context.value.setting || resolved == "inherited") {
              var inherited := ResolveInheritance(condition, context.value, depth);
              result := result + inherited;
            } else {
              var setting := resolved;
              var colon := Colon(resolved, 0);
              if colon.Some? {
                setting := resolved[..colon.value];
              }
              var unmodified := ResolveAssignment(condition, setting, depth);
              var operated := Operate(resolved, colon, unmodified);
              result := result + operated;
            }
        }
      }
      ExpandedCons(scope, condition, [], context, depth);
      assert value.entries[|value.entries|..] == [];
      BothAssociates(Some(result), None, None);
    }

    method Operate(resolved: string, from: Option<nat>, unmodified: string) returns (value: string)
      requires from.Some? ==> from.value < |resolved|
      ensures value == Operated(rules, resolved, from, unmodified)
    {
      value := unmodified;
      var colon := from;
      while colon.Some?
        invariant colon.Some? ==> colon.value < |resolved|
        invariant Operated(rules, resolved, colon, value) == Operated(rules, resolved, from, unmodified)
        decreases if colon.Some? then |resolved| - colon.value else 0
      {
        var next := Colon(resolved, colon.value + 1);
        var operation := resolved[colon.value + 1..if next.Some? then next.value else |resolved|];
        value := rules.operation(value, operation);
        colon := next;
      }
    }

    method ResolveInheritance(condition: Condition, context: Context, ghost depth: nat) returns (result: string)
      requires Inherited(Scope(rules, levels), condition, context.setting, context.level + 1, depth).Some?
      ensures Inherited(Scope(rules, levels), condition, context.setting, context.level + 1, depth) == Some(result)
      decreases depth, 1, 0
    {
      hide Expanded, Inherited, Get, FirstLevel;
      ghost var scope := Scope(rules, levels);
      var it := context.level + 1;
      InheritedCases(scope, condition, context.setting, it, depth);
      while it < |levels|
        invariant context.level + 1 <= it
        invariant LevelFrom(scope, condition, context.setting, it)
                  == LevelFrom(scope, condition, context.setting, context.level + 1)
      {
        NextLevel(scope, condition, context.setting, it);
        var definition := LevelGet(rules, levels[it], context.setting, condition);
        if definition.Some? {
          result := ResolveValue(condition, definition.value, Some(Context(context.setting, it)), depth - 1);
          return;
        }
        it := it + 1;
      }
      result := "";
    }

    method ResolveAssignment(condition: Condition, setting: string, ghost depth: nat) returns (result: string)
      requires Assigned(Scope(rules, levels), condition, setting, depth).Some?
      ensures Assigned(Scope(rules, levels), condition, setting, depth) == Some(result)
      decreases depth, 1, |condition|
    {
      hide Expanded, Inherited, Assigned, Get, FirstLevel;
      ghost var scope := Scope(rules, levels);
      AssignedCases(scope, condition, setting, depth);
      InheritedCases(scope, condition, setting, 0, depth);
      InheritedCases(scope, map[], setting, 0, depth);
      for it := 0 to |levels|
        invariant LevelFrom(scope, condition, setting, it) == LevelFrom(scope, condition, setting, 0)
      {
        NextLevel(scope, condition, setting, it);
        var definition := LevelGet(rules, levels[it], setting, condition);
        if definition.Some? {
          result := ResolveValue(condition, definition.value, Some(Context(setting, it)), depth - 1);
          return;
        }
      }
      if |condition| == 0 {
        result := "";
      } else {
        AssignedCases(scope, map[], setting, depth);
        result := ResolveAssignment(map[], setting, depth);
      }
    }

    method Expand(value: Value, condition: Condition) returns (result: string)
      requires exists r :: Expands(Scope(rules, levels), condition, value.entries, r)
      ensures Expands(Scope(rules, levels), condition, value.entries, result)
    {
      hide Expanded;
      ghost var depth: nat :| Expanded(Scope(rules, levels), condition, value.entries, None, depth).Some?;
      result := ResolveValue(condition, value, None, depth);
    }

    method Resolve(setting: string, condition: Condition) returns (result: string)
      requires exists r :: Resolves(Scope(rules, levels), condition, setting, r)
      ensures Resolves(Scope(rules, levels), condition, setting, result)
    {
      hide Assigned;
      ghost var depth: nat :| Assigned(Scope(rules, levels), condition, setting, depth).Some?;
      result := ResolveAssignment(condition, setting, depth);
    }
  }

  lemma OneLevel(rules: Rules, level: Level, name: string, condition: Condition)
    ensures Definition(rules, [level], name, condition) == Get(rules, level, name, condition)
  {
    hide Get;
    assert [level][1..] == [];
  }

  lemma NextLevel(scope: Scope, condition: Condition, name: string, it: nat)
    requires it < |scope.levels|
    ensures Get(scope.rules, scope.levels[it], name, condition).Some? ==> LevelFrom(scope, condition, name, it) == it
    ensures Get(scope.rules, scope.levels[it], name, condition).None? ==>
              LevelFrom(scope, condition, name, it) == LevelFrom(scope, condition, name, it + 1)
  {
    hide Get;
  }
}
