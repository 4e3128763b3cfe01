// Libraries/libutil/Sources/Relative.cpp, Absolute.cpp and Unix.cpp: normal forms of paths and relative paths between
// them.
module Paths {
  import opened Wrappers
  import opened Strings

  const SEPARATOR: char := '/'

  predicate IsAbsolute(path: string) {
    |path| >= 1 && path[0] == SEPARATOR
  }

  function Start(path: string): (r: nat)
    ensures r <= |path|
  {
    if IsAbsolute(path) then 1 else 0
  }

  // ----- Components -----

  // The first separator from `from` on, or the end.
  function SeparatorAt(path: string, from: nat): (r: nat)
    requires from <= |path|
    ensures from <= r <= |path| && (r < |path| ==> path[r] == SEPARATOR)
    ensures forall i :: from <= i < r ==> path[i] != SEPARATOR
  {
    Next(path, SEPARATOR, from)
  }

  lemma {:induction false} SeparatorIs(path: string, from: nat, at: nat)
    requires from <= at <= |path| && (at < |path| ==> path[at] == SEPARATOR)
    requires forall i :: from <= i < at ==> path[i] != SEPARATOR
    ensures SeparatorAt(path, from) == at
    decreases at - from
  {
    if from < at {
      SeparatorIs(path, from + 1, at);
    }
  }

  // The texts between separators, the empty ones included.
  function Pieces(path: string, from: nat): (r: seq<string>)
    requires from <= |path|
    ensures NoSeparators(r) && r != []
    decreases |path| - from
  {
    var at := SeparatorAt(path, from);
    [path[from..at]] + if at == |path| then [] else Pieces(path, at + 1)
  }

  ghost predicate NoSeparators(components: seq<string>) {
    forall c :: c in components ==> SEPARATOR !in c
  }

  // ----- What a path means -----

  // One step of a walk through directories; a directory is the stack of names that leads to it from the root, and the
  // parent of the root is the root.
  function Enter(directory: seq<string>, component: string): seq<string> {
    if component == "" || component == "." then directory
    else if component == ".." then if directory == [] then [] else directory[..|directory| - 1]
    else directory + [component]
  }

  function Walk(directory: seq<string>, components: seq<string>): seq<string>
    decreases |components|
  {
    if components == [] then directory else Walk(Enter(directory, components[0]), components[1..])
  }

  // Where a path leads from a directory.
  function Destination(directory: seq<string>, path: string): seq<string> {
    Walk(if IsAbsolute(path) then [] else directory, Pieces(path, Start(path)))
  }

  lemma {:induction false} WalkOfConcat(directory: seq<string>, a: seq<string>, b: seq<string>)
    ensures Walk(directory, a + b) == Walk(Walk(directory, a), b)
    decreases |a|
  {
    hide Enter;
    if a == [] {
      assert a + b == b;
    } else {
      assert (a + b)[0] == a[0] && (a + b)[1..] == a[1..] + b;
      WalkOfConcat(Enter(directory, a[0]), a[1..], b);
    }
  }

  lemma WalkOfOne(directory: seq<string>, component: string)
    ensures Walk(directory, [component]) == Enter(directory, component)
  {
    assert [component][1..] == [];
  }

  // ----- Normal forms -----

  // What one component does to the components collected so far.
  function Collect(output: seq<string>, component: string, absolute: bool): seq<string> {
    if component == "" || component == "." then output
    else if component == ".." then
      if !absolute && (output == [] || output[|output| - 1] == "..") then output + [".."]
      else if output != [] then output[..|output| - 1]
      else output
    else output + [component]
  }

  function Collected(output: seq<string>, components: seq<string>, absolute: bool): seq<string>
    decreases |components|
  {
    if components == [] then output else Collected(Collect(output, components[0], absolute), components[1..], absolute)
  }

  // The components of the normal form.
  function Components(path: string): seq<string> {
    Collected([], Pieces(path, Start(path)), IsAbsolute(path))
  }

  function Join(components: seq<string>): string {
    if components == [] then ""
    else if |components| == 1 then components[0]
    else components[0] + [SEPARATOR] + Join(components[1..])
  }

  function Printed(components: seq<string>, absolute: bool): string {
    (if absolute then [SEPARATOR] else "") + Join(components)
  }

  function NormalForm(path: string): string {
    Printed(Components(path), IsAbsolute(path))
  }

  // No empty or `.` component, `..` only as a leading run of a relative path.
  ghost predicate IsNormal(components: seq<string>, absolute: bool) {
    && (forall c :: c in components ==> c != "" && c != "." && SEPARATOR !in c)
    && (absolute ==> ".." !in components)
    && (forall i, j :: 0 <= i < j < |components| && components[j] == ".." ==> components[i] == "..")
  }

  method NormalizePathComponents(path: string, start: nat, absolute: bool) returns (output: seq<string>)
    requires start <= |path|
    ensures output == Collected([], Pieces(path, start), absolute)
  {
    hide Collected, Pieces;
    output := [];
    var component := "";
    var finished := start == |path|;
    var it := start;
    ghost var begin: nat := start;
    ghost var goal := Collected([], Pieces(path, start), absolute);
    PiecesFrom(path, start, start, [], absolute);
    while !finished
      invariant finished ==> output == goal
      invariant !finished ==> begin <= it <= |path| && component == path[begin..it] && SEPARATOR !in component
      invariant !finished ==> Collected(output, Pieces(path, begin), absolute) == goal
      decreases |path| + 1 - it, !finished
    {
      finished := it == |path|;
      if finished || path[it] == SEPARATOR {
        PiecesFrom(path, begin, it, output, absolute);
        var isNewComponent := false;
        var isPreviousComponent := false;
        if component != "" {
          if component == ".." {
            isPreviousComponent := true;
          } else if component != "." {
            isNewComponent := true;
          }
        }
        if isNewComponent {
          output := output + [component];
        } else if isPreviousComponent {
          if !absolute && (output == [] || output[|output| - 1] == "..") {
            output := output + [".."];
          } else if output != [] {
            output := output[..|output| - 1];
          }
        }
        while it != |path|
          invariant it <= |path| && (it == |path| <==> finished)
          invariant if it == |path| then output == goal else Collected(output, Pieces(path, it + 1), absolute) == goal
          decreases |path| - it
        {
          if it + 1 == |path| || path[it + 1] != SEPARATOR {
            break;
          }
          PiecesFrom(path, it + 1, it + 1, output, absolute);
          it := it + 1;
        }
        finished := it == |path|;
        component := "";
        begin := it + 1;
      } else {
        assert path[begin..it + 1] == path[begin..it] + [path[it]];
        component := component + [path[it]];
      }
      it := it + 1;
    }
  }

  // The first piece from `begin` ends at `it`; collecting it and the others.
  lemma PiecesFrom(path: string, begin: nat, it: nat, output: seq<string>, absolute: bool)
    requires begin <= it <= |path| && SEPARATOR !in path[begin..it]
    ensures it == |path| ==>
              Collected(output, Pieces(path, begin), absolute) == Collect(output, path[begin..it], absolute)
    ensures it < |path| && path[it] == SEPARATOR ==>
              Collected(output, Pieces(path, begin), absolute)
              == Collected(Collect(output, path[begin..it], absolute), Pieces(path, it + 1), absolute)
  {
    hide Collect;
    if it == |path| || path[it] == SEPARATOR {
      forall i | begin <= i < it ensures path[i] != SEPARATOR {
        assert path[i] == path[begin..it][i - begin];
      }
      SeparatorIs(path, begin, it);
      assert Pieces(path, begin)[0] == path[begin..it];
      assert Pieces(path, begin)[1..] == if it == |path| then [] else Pieces(path, it + 1);
    }
  }

  function AsSeparator(c: char): char {
    if c == SEPARATOR then SEPARATOR else c
  }

  method NormalizedComponents(path: string) returns (output: seq<string>)
    ensures output == (if IsAbsolute(path) then ["/"] else []) + Components(path)
  {
    var prefix := "";
    output := [];
    var start := Start(path);
    for n := 0 to start
      invariant prefix == path[..n]
    {
      prefix := prefix + [AsSeparator(path[n])];
    }
    assert prefix == if IsAbsolute(path) then "/" else "";
    if prefix != "" {
      output := output + [prefix];
    }
    var relativeOutput := NormalizePathComponents(path, start, IsAbsolute(path));
    output := output + relativeOutput;
  }

  method Normalized(path: string) returns (output: string)
    ensures output == NormalForm(path)
  {
    var components := NormalizedComponents(path);
    output := "";
    var it := 0;
    if it != |components| && Start(path) > 0 {
      output := output + components[it];
      it := it + 1;
    }
    ghost var prefix := output;
    ghost var first := it;
    assert components[first..] == Components(path);
    while it != |components|
      invariant first <= it <= |components|
      invariant output + Join(components[it..]) == NormalForm(path)
    {
      assert components[it..][1..] == components[it + 1..];
      output := output + components[it];
      if it + 1 != |components| {
        output := output + [SEPARATOR];
      }
      it := it + 1;
    }
  }

  // ----- Normal forms keep the meaning -----

  lemma {:induction false} CollectedIsNormal(output: seq<string>, components: seq<string>, absolute: bool)
    requires IsNormal(output, absolute) && NoSeparators(components)
    ensures IsNormal(Collected(output, components, absolute), absolute)
    decreases |components|
  {
    if components != [] {
      assert components[0] in components;
      CollectIsNormal(output, components[0], absolute);
      CollectedIsNormal(Collect(output, components[0], absolute), components[1..], absolute);
    }
  }

  lemma CollectIsNormal(output: seq<string>, component: string, absolute: bool)
    requires IsNormal(output, absolute) && SEPARATOR !in component
    ensures IsNormal(Collect(output, component, absolute), absolute)
  {
    assert output != [] ==> output[|output| - 1] in output;
  }

  // The result of normalisation is a normal form.
  lemma ComponentsAreNormal(path: string)
    ensures IsNormal(Components(path), IsAbsolute(path))
  {
    CollectedIsNormal([], Pieces(path, Start(path)), IsAbsolute(path));
  }

  lemma CollectWalks(directory: seq<string>, output: seq<string>, component: string, absolute: bool)
    requires IsNormal(output, absolute) && (absolute ==> directory == [])
    ensures Walk(directory, Collect(output, component, absolute)) == Enter(Walk(directory, output), component)
  {
    hide Walk, Enter;
    if output != [] {
      var front, last := output[..|output| - 1], output[|output| - 1];
      assert output == front + [last];
      assert last in output;
      WalkOfConcat(directory, front, [last]);
      WalkOfOne(Walk(directory, front), last);
      EnterAndLeave(Walk(directory, front), last);
    }
    WalkOfConcat(directory, output, [component]);
    WalkOfOne(Walk(directory, output), component);
    WalkOfNone(directory, component);
  }

  lemma EnterAndLeave(directory: seq<string>, name: string)
    ensures name != "" && name != "." && name != ".." ==> Enter(Enter(directory, name), "..") == directory
  {
  }

  lemma WalkOfNone(directory: seq<string>, component: string)
    ensures Walk(directory, []) == directory
    ensures component == "" || component == "." ==> Enter(directory, component) == directory
    ensures forall d {:trigger Enter(d, component)} :: component == "" || component == "." ==> Enter(d, component) == d
    ensures Enter([], "..") == []
  {
  }

  lemma {:induction false} CollectedWalks(directory: seq<string>, output: seq<string>, components: seq<string>,
                                          absolute: bool)
    requires IsNormal(output, absolute) && NoSeparators(components) && (absolute ==> directory == [])
    ensures Walk(directory, Collected(output, components, absolute)) == Walk(Walk(directory, output), components)
    decreases |components|
  {
    hide Collect, Enter, IsNormal;
    if components != [] {
      assert components[0] in components;
      CollectIsNormal(output, components[0], absolute);
      CollectWalks(directory, output, components[0], absolute);
      CollectedWalks(directory, Collect(output, components[0], absolute), components[1..], absolute);
    }
  }

  // From every directory the components of the normal form lead where the path leads.
  lemma NormalFormLeadsToTheSame(directory: seq<string>, path: string)
    ensures Walk(if IsAbsolute(path) then [] else directory, Components(path)) == Destination(directory, path)
  {
    CollectedWalks(if IsAbsolute(path) then [] else directory, [], Pieces(path, Start(path)), IsAbsolute(path));
  }

  // ----- Printing and reading back -----

  lemma {:induction false} CollectedOfNormal(a: seq<string>, b: seq<string>, absolute: bool)
    requires IsNormal(a + b, absolute)
    ensures Collected(a, b, absolute) == a + b
    decreases |b|
  {
    if b == [] {
      assert a + b == a;
    } else {
      var c := (a + b)[|a|];
      assert c in a + b;
      assert a + [b[0]] + b[1..] == a + b;
      assert a != [] ==> (a + b)[|a| - 1] == a[|a| - 1];
      CollectedOfNormal(a + [b[0]], b[1..], absolute);
    }
  }

  // Joined components are read back.
  lemma {:induction false} PiecesOfJoin(path: string, at: nat, components: seq<string>)
    requires at <= |path| && path[at..] == Join(components) && NoSeparators(components) && components != []
    ensures Pieces(path, at) == components
    decreases |components|
  {
    hide Pieces;
    JoinBegins(path, at, components);
    PiecesSplit(path, at);
    if |components| > 1 {
      PiecesOfJoin(path, at + |components[0]| + 1, components[1..]);
    }
  }

  lemma PiecesSplit(path: string, from: nat)
    requires from <= |path|
    ensures Pieces(path, from)
            == [path[from..SeparatorAt(path, from)]]
               + if SeparatorAt(path, from) == |path| then [] else Pieces(path, SeparatorAt(path, from) + 1)
  {
  }

  // Where joined components stand, the first one ends at the first separator.
  lemma JoinBegins(path: string, at: nat, components: seq<string>)
    requires at <= |path| && path[at..] == Join(components) && NoSeparators(components) && components != []
    ensures ghost var end := at + |components[0]|;
            && end <= |path| && path[at..end] == components[0] && SeparatorAt(path, at) == end
            && (end == |path| <==> |components| == 1)
            && (end < |path| ==> path[end] == SEPARATOR && path[end + 1..] == Join(components[1..]))
  {
    var n := |components[0]|;
    assert components[0] in components;
    var rest := path[at..];
    assert rest[..n] == components[0];
    SliceOfSlice(path, at, |path|, 0, n);
    assert rest == path[at..|path|];
    if |components| > 1 {
      assert rest[n] == path[at + n];
      SliceOfSlice(path, at, |path|, n + 1, |rest|);
      assert rest[n + 1..] == Join(components[1..]);
    }
    forall i | at <= i < at + n ensures path[i] != SEPARATOR {
      assert path[i] == components[0][i - at];
    }
    SeparatorIs(path, at, at + n);
  }

  lemma JoinIsPlain(components: seq<string>, absolute: bool)
    requires IsNormal(components, absolute)
    ensures components != [] <==> Join(components) != ""
    ensures Join(components) != "" ==> Join(components)[0] != SEPARATOR
  {
    if components != [] {
      assert components[0] in components;
    }
  }

  // A printed normal form is absolute or not as it was meant, and its components are read back.
  lemma PrintedReadsBack(components: seq<string>, absolute: bool)
    requires IsNormal(components, absolute)
    ensures IsAbsolute(Printed(components, absolute)) == absolute
    ensures Components(Printed(components, absolute)) == components
  {
    hide Collected, Pieces;
    var path := Printed(components, absolute);
    JoinIsPlain(components, absolute);
    var start := Start(path);
    assert path[start..] == Join(components);
    if components == [] {
      PiecesSplit(path, start);
      CollectedOfEmpty(absolute);
      assert path[start..SeparatorAt(path, start)] == "";
      assert [""] + [] == [""];
    } else {
      PiecesOfJoin(path, start, components);
      CollectedOfNormal([], components, absolute);
      assert [] + components == components;
    }
  }

  lemma CollectedOfEmpty(absolute: bool)
    ensures Collected([], [""], absolute) == []
  {
    assert [""][1..] == [];
  }

  lemma NormalisingIsIdempotent(path: string)
    ensures NormalForm(NormalForm(path)) == NormalForm(path)
    ensures IsAbsolute(NormalForm(path)) == IsAbsolute(path) && Components(NormalForm(path)) == Components(path)
  {
    ComponentsAreNormal(path);
    PrintedReadsBack(Components(path), IsAbsolute(path));
  }

  // ----- Equality of paths -----

  function Ups(n: nat): (r: seq<string>)
    ensures |r| == n && forall i :: 0 <= i < n ==> r[i] == ".."
  {
    seq(n, i => "..")
  }

  // A directory that is deep enough, of names that no path has.
  function Deep(n: nat): (r: seq<string>)
    ensures |r| == n && forall i :: 0 <= i < n ==> r[i] == ""
  {
    seq(n, i => "")
  }

  // The length of the leading run of `..`.
  function Climb(components: seq<string>): (n: nat)
    ensures n <= |components|
    ensures forall i :: 0 <= i < n ==> components[i] == ".."
    ensures n < |components| ==> components[n] != ".."
  {
    if components == [] || components[0] != ".." then 0 else 1 + Climb(components[1..])
  }

  lemma {:induction false} WalkUp(n: nat, k: nat)
    requires k <= n
    ensures Walk(Deep(n), Ups(k)) == Deep(n - k)
    decreases k
  {
    if k > 0 {
      assert Ups(k)[1..] == Ups(k - 1);
      assert Deep(n)[..n - 1] == Deep(n - 1);
      WalkUp(n - 1, k - 1);
    } else {
      assert Ups(0) == [];
      assert Deep(n - 0) == Deep(n);
    }
  }

  lemma {:induction false} WalkDown(directory: seq<string>, names: seq<string>)
    requires forall c :: c in names ==> c != "" && c != "." && c != ".."
    ensures Walk(directory, names) == directory + names
    decreases |names|
  {
    if names == [] {
      assert directory + names == directory;
    } else {
      assert names[0] in names;
      assert forall c :: c in names[1..] ==> c in names;
      WalkDown(directory + [names[0]], names[1..]);
      assert directory + [names[0]] + names[1..] == directory + names;
    }
  }

  lemma WalkOfNormal(components: seq<string>, n: nat)
    requires IsNormal(components, false) && Climb(components) <= n
    ensures Walk(Deep(n), components) == Deep(n - Climb(components)) + components[Climb(components)..]
  {
    hide Walk, Deep, Ups;
    var k := Climb(components);
    UpsAndNames(components);
    WalkOfConcat(Deep(n), Ups(k), components[k..]);
    WalkUp(n, k);
    WalkDown(Deep(n - k), components[k..]);
  }

  lemma UpsAndNames(components: seq<string>)
    requires IsNormal(components, false)
    ensures components == Ups(Climb(components)) + components[Climb(components)..]
    ensures forall c :: c in components[Climb(components)..] ==> c != "" && c != "." && c != ".."
  {
    var k := Climb(components);
    assert components[..k] == Ups(k);
    assert components == components[..k] + components[k..];
    forall c | c in components[k..] ensures c != "" && c != "." && c != ".." {
      var i :| k <= i < |components| && components[i] == c;
      assert c in components;
    }
  }

  // The length of the leading run of empty names.
  function Lead(names: seq<string>): nat {
    if names == [] || names[0] != "" then 0 else 1 + Lead(names[1..])
  }

  lemma {:induction false} LeadOfDeep(n: nat, names: seq<string>)
    requires "" !in names
    ensures Lead(Deep(n) + names) == n
    ensures (Deep(n) + names)[n..] == names
  {
    if n > 0 {
      assert (Deep(n) + names)[1..] == Deep(n - 1) + names;
      LeadOfDeep(n - 1, names);
    } else {
      assert Deep(n) + names == names;
    }
  }

  // Relative normal forms that lead to the same place from every directory are the same.
  lemma NormalFormsAreUnique(a: seq<string>, b: seq<string>)
    requires IsNormal(a, false) && IsNormal(b, false)
    requires forall directory :: Walk(directory, a) == Walk(directory, b)
    ensures a == b
  {
    hide Walk, Deep, Ups, IsNormal, Lead;
    var k, m := Climb(a), Climb(b);
    var n := k + m;
    UpsAndNames(a);
    UpsAndNames(b);
    WalkOfNormal(a, n);
    WalkOfNormal(b, n);
    assert Deep(n - k) + a[k..] == Deep(n - m) + b[m..] by {
      assert Walk(Deep(n), a) == Walk(Deep(n), b);
    }
    LeadOfDeep(n - k, a[k..]);
    LeadOfDeep(n - m, b[m..]);
  }

  // An absolute and a relative path lead to different places from some directory.
  lemma KindsDiffer(absolute: string, relative: string)
    requires IsAbsolute(absolute) && !IsAbsolute(relative)
    ensures exists directory :: Destination(directory, absolute) != Destination(directory, relative)
  {
    hide Walk, Components, Deep;
    var components := Components(relative);
    ComponentsAreNormal(relative);
    ComponentsAreNormal(absolute);
    var n := Climb(components) + 1;
    WalkOfNormal(components, n);
    WalkOfAbsolute(Components(absolute));
    NormalFormLeadsToTheSame(Deep(n), relative);
    NormalFormLeadsToTheSame(Deep(n), absolute);
    assert Destination(Deep(n), relative)[0] == Deep(1)[0];
    assert "" in Destination(Deep(n), relative);
  }

  // operator==: two paths are equal exactly when they lead to the same place from every directory.
  lemma EqualExactlyWhenSameDestination(a: string, b: string)
    ensures NormalForm(a) == NormalForm(b)
            <==> forall directory :: Destination(directory, a) == Destination(directory, b)
  {
    hide Walk, Components;
    NormalisingIsIdempotent(a);
    NormalisingIsIdempotent(b);
    if IsAbsolute(a) != IsAbsolute(b) {
      KindsDiffer(if IsAbsolute(a) then a else b, if IsAbsolute(a) then b else a);
      return;
    }
    var absolute := IsAbsolute(a);
    ComponentsAreNormal(a);
    ComponentsAreNormal(b);
    PrintedReadsBack(Components(a), absolute);
    PrintedReadsBack(Components(b), absolute);
    forall directory ensures Walk(if absolute then [] else directory, Components(a)) == Destination(directory, a)
                             && Walk(if absolute then [] else directory, Components(b)) == Destination(directory, b) {
      NormalFormLeadsToTheSame(directory, a);
      NormalFormLeadsToTheSame(directory, b);
    }
    if forall directory :: Destination(directory, a) == Destination(directory, b) {
      if absolute {
        WalkOfAbsolute(Components(a));
        WalkOfAbsolute(Components(b));
        assert Destination([], a) == Destination([], b);
      } else {
        forall directory ensures Walk(directory, Components(a)) == Walk(directory, Components(b)) {
          assert Destination(directory, a) == Destination(directory, b);
        }
        NormalFormsAreUnique(Components(a), Components(b));
      }
    }
  }

  // The components of an absolute normal form are the place it leads to.
  lemma WalkOfAbsolute(components: seq<string>)
    requires IsNormal(components, true)
    ensures Walk([], components) == components
  {
    WalkDown([], components);
    assert [] + components == components;
  }

  // ----- Children and resolving -----

  function Child(path: string, name: string): string {
    if path == "" then name
    else if name == "" then path
    else if path[|path| - 1] == SEPARATOR then path + name
    else path + [SEPARATOR] + name
  }

  lemma {:induction false} PiecesShift(a: string, b: string, from: nat)
    requires from <= |b|
    ensures Pieces(a + b, |a| + from) == Pieces(b, from)
    decreases |b| - from
  {
    hide Pieces;
    var at := SeparatorAt(b, from);
    assert forall i :: from <= i < |b| ==> (a + b)[|a| + i] == b[i];
    forall i | |a| + from <= i < |a| + at ensures (a + b)[i] != SEPARATOR {
      assert (a + b)[i] == b[i - |a|];
    }
    SeparatorIs(a + b, |a| + from, |a| + at);
    PiecesSplit(a + b, |a| + from);
    PiecesSplit(b, from);
    assert (a + b)[|a| + from..|a| + at] == b[from..at];
    if at < |b| {
      PiecesShift(a, b, at + 1);
    }
  }

  // The first piece of a longer text is the same when it ends in the shorter one.
  lemma FirstPiece(a: string, b: string, from: nat)
    requires from <= |a| && SeparatorAt(a, from) < |a|
    ensures SeparatorAt(a + b, from) == SeparatorAt(a, from)
    ensures (a + b)[from..SeparatorAt(a, from)] == a[from..SeparatorAt(a, from)]
  {
    var at := SeparatorAt(a, from);
    forall i | from <= i <= at ensures (a + b)[i] == a[i] {
    }
    SeparatorIs(a + b, from, at);
  }

  lemma {:induction false} WalkOfSplit(directory: seq<string>, path: string, from: nat)
    requires from <= |path|
    ensures ghost var at := SeparatorAt(path, from);
            Walk(directory, Pieces(path, from))
            == if at < |path| then Walk(Enter(directory, path[from..at]), Pieces(path, at + 1))
               else Enter(directory, path[from..at])
  {
    hide Pieces, Enter;
    var at := SeparatorAt(path, from);
    PiecesSplit(path, from);
    WalkOfOne(directory, path[from..at]);
    if at < |path| {
      WalkOfConcat(directory, [path[from..at]], Pieces(path, at + 1));
    } else {
      assert [path[from..at]] + [] == [path[from..at]];
    }
  }

  // A text after a separator is walked after what comes before.
  lemma {:induction false} WalkOfAppended(directory: seq<string>, a: string, b: string, from: nat)
    requires from <= |a| && a != "" && a[|a| - 1] == SEPARATOR
    ensures Walk(directory, Pieces(a + b, from)) == Walk(Walk(directory, Pieces(a, from)), Pieces(b, 0))
    decreases |a| - from
  {
    hide Walk, Pieces, Enter;
    var at := SeparatorAt(a, from);
    WalkOfSplit(directory, a, from);
    if at < |a| {
      FirstPiece(a, b, from);
      WalkOfSplit(directory, a + b, from);
      WalkOfAppended(Enter(directory, a[from..at]), a, b, at + 1);
    } else {
      assert from == |a|;
      PiecesShift(a, b, 0);
      WalkOfNone(directory, a[from..at]);
    }
  }

  // A separator at the end of a path changes nothing.
  lemma {:induction false} WalkOfTrailing(directory: seq<string>, a: string, from: nat)
    requires from <= |a|
    ensures Walk(directory, Pieces(a + [SEPARATOR], from)) == Walk(directory, Pieces(a, from))
    decreases |a| - from
  {
    hide Walk, Pieces, Enter;
    var at := SeparatorAt(a, from);
    var longer := a + [SEPARATOR];
    WalkOfSplit(directory, a, from);
    if at < |a| {
      FirstPiece(a, [SEPARATOR], from);
      WalkOfSplit(directory, longer, from);
      WalkOfTrailing(Enter(directory, a[from..at]), a, at + 1);
    } else {
      forall i | from <= i < at ensures longer[i] != SEPARATOR {
        assert longer[i] == a[i];
      }
      SeparatorIs(longer, from, at);
      assert longer[from..at] == a[from..at];
      WalkOfSplit(directory, longer, from);
      WalkOfSplit(Enter(directory, a[from..at]), longer, at + 1);
      assert longer[at + 1..at + 1] == "";
      WalkOfNone(Enter(directory, a[from..at]), "");
    }
  }

  // A child is reached through its parent.
  lemma ChildLeadsOn(directory: seq<string>, path: string, name: string)
    requires !IsAbsolute(name)
    ensures Destination(directory, Child(path, name)) == Destination(Destination(directory, path), name)
    ensures IsAbsolute(Child(path, name)) == IsAbsolute(path)
  {
    hide Walk, Pieces;
    var start := Start(path);
    var base := if IsAbsolute(path) then [] else directory;
    NoName(directory, path);
    if path != "" && name != "" {
      if path[|path| - 1] == SEPARATOR {
        WalkOfAppended(base, path, name, start);
      } else {
        WalkOfTrailing(base, path, start);
        WalkOfAppended(base, path + [SEPARATOR], name, start);
      }
    }
  }

  lemma NoName(directory: seq<string>, path: string)
    ensures forall d :: Destination(d, "") == d
  {
    forall d ensures Destination(d, "") == d {
      WalkOfSplit(d, "", 0);
      WalkOfNone(d, "");
    }
  }

  // BaseRelative::resolved. The base is an absolute path, so the child is one.
  function Resolved(path: string, against: string): string
    requires IsAbsolute(against)
  {
    if IsAbsolute(path) then path else Child(against, path)
  }

  lemma ResolvedLeadsToTheSame(path: string, against: string)
    requires IsAbsolute(against)
    ensures IsAbsolute(Resolved(path, against))
    ensures forall directory ::
              Destination(directory, Resolved(path, against)) == Destination(Destination([], against), path)
  {
    if !IsAbsolute(path) {
      forall directory
        ensures Destination(directory, Child(against, path)) == Destination(Destination([], against), path)
      {
        ChildLeadsOn(directory, against, path);
      }
      ChildLeadsOn([], against, path);
    }
  }

  // ----- Relative paths between absolute ones -----

  // The length of the longest common prefix.
  function Common(a: seq<string>, b: seq<string>): (n: nat)
    ensures n <= |a| && n <= |b| && a[..n] == b[..n]
  {
    if a == [] || b == [] || a[0] != b[0] then 0 else 1 + Common(a[1..], b[1..])
  }

  function UpText(n: nat): string {
    if n == 0 then "" else "../" + UpText(n - 1)
  }

  // The text of the path from one place to another.
  function Route(to: seq<string>, origin: seq<string>): string {
    var n := Common(to, origin);
    UpText(|origin| - n) + Join(to[n..])
  }

  lemma {:induction false} CommonFrom(a: seq<string>, b: seq<string>, i: nat)
    requires i <= |a| && i <= |b| && a[..i] == b[..i]
    ensures i <= Common(a, b)
    ensures i == |a| || i == |b| || a[i] != b[i] ==> Common(a, b) == i
  {
    if i > 0 {
      assert a[0] == a[..i][0] && b[0] == b[..i][0];
      assert a[1..][..i - 1] == a[..i][1..];
      assert b[1..][..i - 1] == b[..i][1..];
      CommonFrom(a[1..], b[1..], i - 1);
    }
  }

  lemma {:induction false} UpTextGrows(n: nat)
    ensures UpText(n + 1) == UpText(n) + "../"
  {
    if n > 0 {
      UpTextGrows(n - 1);
    }
  }

  // The components of a printed absolute normal form from number i on stand at `at`.
  ghost predicate Stands(text: string, at: nat, components: seq<string>, i: nat) {
    at <= |text| && i <= |components| && text[at..] == Join(components[i..])
  }

  lemma StandsAt(text: string, at: nat, components: seq<string>, i: nat)
    requires Stands(text, at, components, i) && IsNormal(components, true)
    ensures i == |components| <==> at == |text|
    ensures i == |components| ==> SeparatorAt(text, at) == at
    ensures i < |components| ==>
              ghost var end := at + |components[i]|;
              && at < end <= |text| && text[at..end] == components[i] && SeparatorAt(text, at) == end
              && (end == |text| <==> i + 1 == |components|)
              && Stands(text, if end == |text| then end else end + 1, components, i + 1)
  {
    hide Join;
    assert components[i..] != [] ==> components[i] == components[i..][0];
    JoinOfNone();
    if i < |components| {
      assert components[i] in components;
      assert forall c :: c in components[i..] ==> c in components;
      JoinBegins(text, at, components[i..]);
      assert components[i..][1..] == components[i + 1..];
      assert text[|text|..] == "";
      assert i + 1 == |components| ==> components[i + 1..] == [];
    }
  }

  lemma JoinOfNone()
    ensures Join([]) == ""
  {
  }

  // BaseAbsolute::from
  method From(path: string, origin: string) returns (result: Option<string>)
    requires IsAbsolute(path) && IsAbsolute(origin)
    ensures result == Some(Route(Components(path), Components(origin)))
  {
    hide Components, Join, Stands;
    ghost var pc, oc := Components(path), Components(origin);
    var pstr := Normalized(path);
    var ostr := Normalized(origin);
    ComponentsAreNormal(path);
    ComponentsAreNormal(origin);
    assert Stands(pstr, 1, pc, 0) && pstr[..1] == "/" by {
      StandsInPrinted(pc);
    }
    assert Stands(ostr, 1, oc, 0) && ostr[..1] == "/" by {
      StandsInPrinted(oc);
    }
    var po: nat := Start(pstr);
    var oo: nat := Start(ostr);
    if pstr[..po] != ostr[..oo] {
      return None;
    }

    ghost var n := Common(pc, oc);
    po, oo := SkipCommon(pstr, po, pc, ostr, oo, oc);
    var ups := ClimbOut(ostr, oo, oc, n);
    var rest := "";
    RestIsJoin(pstr, po, pc, n);
    if po != |pstr| {
      rest := rest + pstr[po..];
    }
    assert rest == Join(pc[n..]);
    assert ups + rest == Route(pc, oc);
    return Some(ups + rest);
  }

  // The first loop of `from`: past the components that both paths begin with.
  method SkipCommon(pstr: string, pfrom: nat, ghost pc: seq<string>, ostr: string, ofrom: nat, ghost oc: seq<string>)
    returns (po: nat, oo: nat)
    requires IsNormal(pc, true) && IsNormal(oc, true)
    requires Stands(pstr, pfrom, pc, 0) && Stands(ostr, ofrom, oc, 0)
    ensures Stands(pstr, po, pc, Common(pc, oc)) && Stands(ostr, oo, oc, Common(pc, oc))
  {
    hide Join, Stands, IsNormal;
    po, oo := pfrom, ofrom;
    ghost var n: nat := 0;
    while true
      invariant n <= |pc| && n <= |oc| && pc[..n] == oc[..n]
      invariant Stands(pstr, po, pc, n) && Stands(ostr, oo, oc, n)
      decreases |pc| - n
    {
      StandsAt(pstr, po, pc, n);
      StandsAt(ostr, oo, oc, n);
      CommonFrom(pc, oc, n);
      var npo := SeparatorAt(pstr, po);
      var noo := SeparatorAt(ostr, oo);
      var spo := pstr[po..npo];
      var soo := ostr[oo..noo];
      if spo == soo {
        po := if npo == |pstr| then |pstr| else npo + 1;
        oo := if noo == |ostr| then |ostr| else noo + 1;
        if n < |pc| {
          n := n + 1;
          CommonFrom(pc, oc, n);
        }
      } else {
        break;
      }
      if npo == |pstr| || noo == |ostr| {
        break;
      }
    }
  }

  // The second loop: one `..` for each component that is left.
  method ClimbOut(ostr: string, from: nat, ghost oc: seq<string>, ghost n: nat) returns (ups: string)
    requires IsNormal(oc, true) && n <= |oc| && Stands(ostr, from, oc, n)
    ensures ups == UpText(|oc| - n)
  {
    hide Join, Stands, IsNormal;
    var oo: nat := from;
    ups := "";
    ghost var j := n;
    StandsAt(ostr, oo, oc, j);
    StandsIn(ostr, oo, oc, j);
    while oo != |ostr|
      invariant n <= j <= |oc| && ups == UpText(j - n)
      invariant || Stands(ostr, oo, oc, j)
                || (oo < |ostr| && ostr[oo] == SEPARATOR && Stands(ostr, oo + 1, oc, j) && j < |oc|)
      invariant oo <= |ostr| && (oo == |ostr| <==> j == |oc|)
      decreases |oc| - j
    {
      StandsNext(ostr, oo, oc, j);
      var woo := SeparatorAt(ostr, oo + 1);
      ups := ups + "..";
      ups := ups + [SEPARATOR];
      UpTextGrows(j - n);
      oo := woo;
      j := j + 1;
    }
  }

  lemma StandsIn(text: string, at: nat, components: seq<string>, i: nat)
    requires Stands(text, at, components, i)
    ensures at <= |text| && i <= |components|
  {
  }

  lemma StandsInPrinted(components: seq<string>)
    ensures ghost var text := Printed(components, true);
            IsAbsolute(text) && Stands(text, 1, components, 0) && text[..1] == "/"
  {
    assert components[0..] == components;
    assert Printed(components, true)[1..] == Join(components);
  }

  lemma RestIsJoin(text: string, at: nat, components: seq<string>, i: nat)
    requires Stands(text, at, components, i)
    ensures at <= |text| && text[at..] == Join(components[i..])
    ensures at == |text| ==> Join(components[i..]) == ""
  {
  }

  lemma StandsNext(text: string, at: nat, components: seq<string>, j: nat)
    requires IsNormal(components, true) && j < |components| && at < |text|
    requires Stands(text, at, components, j) || (text[at] == SEPARATOR && Stands(text, at + 1, components, j))
    ensures ghost var next := SeparatorAt(text, at + 1);
            && (next == |text| <==> j + 1 == |components|)
            && (next == |text| ==> Stands(text, next, components, j + 1))
            && (next < |text| ==> text[next] == SEPARATOR && Stands(text, next + 1, components, j + 1))
  {
    hide Stands;
    if Stands(text, at, components, j) {
      StandsAt(text, at, components, j);
      SeparatorIs(text, at + 1, SeparatorAt(text, at));
    } else {
      StandsAt(text, at + 1, components, j);
    }
  }

  lemma {:induction false} WalkOfUpText(directory: seq<string>, k: nat, rest: string)
    requires k <= |directory|
    ensures Walk(directory, Pieces(UpText(k) + rest, 0)) == Walk(directory[..|directory| - k], Pieces(rest, 0))
    decreases k
  {
    hide Walk, Pieces;
    if k == 0 {
      assert UpText(k) + rest == rest;
      assert directory[..|directory|] == directory;
    } else {
      var text := UpText(k) + rest;
      var tail := UpText(k - 1) + rest;
      assert text == "../" + tail;
      SeparatorIs(text, 0, 2);
      WalkOfSplit(directory, text, 0);
      assert text[0..2] == "..";
      PiecesShift("../", tail, 0);
      var up := directory[..|directory| - 1];
      WalkOfUpText(up, k - 1, rest);
      assert up[..|up| - (k - 1)] == directory[..|directory| - k];
    }
  }

  lemma RouteIsRelative(to: seq<string>, origin: seq<string>)
    requires IsNormal(to, true)
    ensures !IsAbsolute(Route(to, origin))
  {
    var n := Common(to, origin);
    assert IsNormal(to[n..], true) by {
      assert forall c :: c in to[n..] ==> c in to;
    }
    JoinIsPlain(to[n..], true);
  }

  // The route from one place leads to the other.
  lemma RouteLeadsThere(to: seq<string>, origin: seq<string>)
    requires IsNormal(to, true)
    ensures Destination(origin, Route(to, origin)) == to
  {
    hide Walk, Pieces;
    var n := Common(to, origin);
    var rest := to[n..];
    RouteIsRelative(to, origin);
    WalkOfUpText(origin, |origin| - n, Join(rest));
    assert origin[..n] == to[..n];
    assert forall c :: c in rest ==> c in to;
    var text := Join(rest);
    assert text[0..] == text;
    if rest == [] {
      WalkOfSplit(to[..n], "", 0);
      assert to[..n] == to;
    } else {
      PiecesOfJoin(text, 0, rest);
      WalkDown(to[..n], rest);
      assert to[..n] + rest == to;
    }
  }

  // For all absolute paths: the relative path from one to another, resolved against the one, is the other.
  lemma FromThenResolved(path: string, origin: string)
    requires IsAbsolute(path) && IsAbsolute(origin)
    ensures ghost var relative := Route(Components(path), Components(origin));
            NormalForm(Resolved(relative, origin)) == NormalForm(path)
  {
    hide Walk, Pieces, Components, Route;
    var to, at := Components(path), Components(origin);
    var relative := Route(to, at);
    ComponentsAreNormal(path);
    ComponentsAreNormal(origin);
    NormalFormLeadsToTheSame([], path);
    NormalFormLeadsToTheSame([], origin);
    WalkOfAbsolute(to);
    WalkOfAbsolute(at);
    RouteLeadsThere(to, at);
    ResolvedLeadsToTheSame(relative, origin);
    var whole := Resolved(relative, origin);
    forall directory ensures Destination(directory, whole) == Destination(directory, path) {
      assert Destination(directory, whole) == Destination(at, relative);
    }
    EqualExactlyWhenSameDestination(whole, path);
  }

  // What both places have in common is left out: only the rest of the origin is climbed out of.
  lemma RouteSkipsCommon(common: seq<string>, to: seq<string>, origin: seq<string>)
    requires to == [] || origin == [] || to[0] != origin[0]
    ensures Route(common + to, common + origin) == UpText(|origin|) + Join(to)
    ensures UpText(0) == "" && UpText(1) == "../" && UpText(2) == "../../"
  {
    hide Join, Common, UpText;
    CommonOfConcat(common, to, origin);
    assert (common + to)[|common|..] == to;
    UpTexts();
  }

  lemma {:induction false} CommonOfConcat(common: seq<string>, to: seq<string>, origin: seq<string>)
    requires to == [] || origin == [] || to[0] != origin[0]
    ensures Common(common + to, common + origin) == |common|
  {
    if common == [] {
      assert common + to == to && common + origin == origin;
    } else {
      var a, b := common + to, common + origin;
      assert a[0] == common[0] && a[1..] == common[1..] + to;
      assert b[0] == common[0] && b[1..] == common[1..] + origin;
      CommonOfConcat(common[1..], to, origin);
    }
  }

  lemma UpTexts()
    ensures UpText(0) == "" && UpText(1) == "../" && UpText(2) == "../../"
  {
  }
}
