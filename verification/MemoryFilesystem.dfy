// Libraries/libutil/Sources/MemoryFilesystem.cpp: a file system held in memory.
module MemoryFilesystems {
  import opened Wrappers
  import opened Bytes
  import opened Paths

  datatype Entry =
    | File(name: string, contents: ByteString)
    | Directory(name: string, children: seq<Entry>)

  // The first child of a name.
  function ChildNamed(children: seq<Entry>, name: string): (r: Option<nat>)
    ensures r.Some? ==> r.value < |children| && children[r.value].name == name
                        && forall i :: 0 <= i < r.value ==> children[i].name != name
    ensures r.None? ==> forall i :: 0 <= i < |children| ==> children[i].name != name
  {
    if children == [] then None
    else if children[0].name == name then Some(0)
    else
      match ChildNamed(children[1..], name)
      case None => None
      case Some(i) => Some(i + 1)
  }

  // std::remove_if by name, and erase.
  function Without(children: seq<Entry>, name: string): seq<Entry> {
    if children == [] then []
    else (if children[0].name == name then [] else [children[0]]) + Without(children[1..], name)
  }

  // ----- The file system as a map from paths -----

  datatype Node = FileNode(contents: ByteString) | DirectoryNode

  function NodeOf(e: Entry): Node {
    if e.File? then FileNode(e.contents) else DirectoryNode
  }

  function Lookup(children: seq<Entry>, name: string): Option<Entry> {
    match ChildNamed(children, name)
    case None => None
    case Some(i) => Some(children[i])
  }

  // The entry below a directory along a path, given by its components.
  function Below(children: seq<Entry>, names: seq<string>): Option<Entry>
    requires names != []
    decreases |names|
  {
    match Lookup(children, names[0])
    case None => None
    case Some(e) => if |names| == 1 then Some(e) else if e.File? then None else Below(e.children, names[1..])
  }

  // What is at a path below a directory; the empty path is the directory.
  function NodeAt(children: seq<Entry>, names: seq<string>): Option<Node> {
    if names == [] then Some(DirectoryNode)
    else
      match Below(children, names)
      case None => None
      case Some(e) => Some(NodeOf(e))
  }

  // ----- The operations -----

  datatype Action =
    | Look
    | CreateFile
    | Write(contents: ByteString)
    | RemoveFile
    | CreateDirectory
    | RemoveDirectory(recursive: bool)

  // What the callback of an operation does to the children of the directory it is called on: `name` is the component,
  // empty for the root itself. None if it returns no entry.
  function Acted(action: Action, children: seq<Entry>, name: string): Option<seq<Entry>> {
    var isFile, isDirectory :=
      name != "" && ChildNamed(children, name).Some? && children[ChildNamed(children, name).value].File?,
      name == "" || (ChildNamed(children, name).Some? && children[ChildNamed(children, name).value].Directory?);
    match action
    case Look => if isFile || isDirectory then Some(children) else None
    case CreateFile =>
      if isFile then Some(children) else if isDirectory then None else Some(children + [File(name, [])])
    case Write(contents) =>
      if isFile then Some(children[ChildNamed(children, name).value := File(name, contents)])
      else if isDirectory then None
      else Some(children + [File(name, contents)])
    case RemoveFile => if isFile then Some(Without(children, name)) else None
    case CreateDirectory =>
      if isDirectory then Some(children) else if isFile then None else Some(children + [Directory(name, [])])
    case RemoveDirectory(recursive) =>
      if !isDirectory then None
      else
        var grandchildren := if name == "" then children else children[ChildNamed(children, name).value].children;
        if !recursive && grandchildren != [] then None else Some(Without(children, name))
  }

  // The components that a walk visits: an empty one stands for the root itself.
  predicate IsWalk(names: seq<string>) {
    names != [] && (names == [""] || "" !in names)
  }

  // A directory after the walk along the names. With `all`, the callback is called on every component.
  function Walked(children: seq<Entry>, names: seq<string>, all: bool, action: Action): Option<seq<Entry>>
    requires IsWalk(names)
    decreases |names|
  {
    if |names| == 1 then Acted(action, children, names[0])
    else
      match if all then Acted(action, children, names[0]) else Some(children)
      case None => None
      case Some(now) =>
        match ChildNamed(now, names[0])
        case None => None
        case Some(i) =>
          if now[i].File? then None
          else
            match Walked(now[i].children, names[1..], all, action)
            case None => None
            case Some(below) => Some(now[i := Directory(now[i].name, below)])
  }

  // ----- One directory -----

  lemma {:induction false} LookupAppended(children: seq<Entry>, e: Entry, n: string)
    ensures Lookup(children + [e], n)
            == if Lookup(children, n).Some? then Lookup(children, n) else if e.name == n then Some(e) else None
  {
    if children == [] {
      assert children + [e] == [e];
      assert [e][1..] == [];
    } else {
      assert (children + [e])[0] == children[0] && (children + [e])[1..] == children[1..] + [e];
      LookupAppended(children[1..], e, n);
    }
  }

  lemma {:induction false} LookupReplaced(children: seq<Entry>, i: nat, e: Entry, n: string)
    requires ChildNamed(children, e.name) == Some(i)
    ensures Lookup(children[i := e], n) == if n == e.name then Some(e) else Lookup(children, n)
  {
    var replaced := children[i := e];
    if i > 0 {
      assert replaced[1..] == children[1..][i - 1 := e];
      LookupReplaced(children[1..], i - 1, e, n);
    } else {
      assert replaced[1..] == children[1..];
    }
  }

  lemma LookupCons(children: seq<Entry>, n: string)
    requires children != []
    ensures Lookup(children, n) == if children[0].name == n then Some(children[0]) else Lookup(children[1..], n)
  {
  }

  lemma {:induction false} LookupWithout(children: seq<Entry>, name: string, n: string)
    ensures Lookup(Without(children, name), n) == if n == name then None else Lookup(children, n)
  {
    if children != [] {
      LookupWithout(children[1..], name, n);
      var rest := Without(children[1..], name);
      LookupCons(children, n);
      if children[0].name != name {
        assert Without(children, name) == [children[0]] + rest;
        assert ([children[0]] + rest)[1..] == rest;
        LookupCons([children[0]] + rest, n);
      } else {
        assert Without(children, name) == [] + rest;
        assert [] + rest == rest;
      }
    }
  }

  // What an operation is allowed to meet, and what it leaves.
  predicate Allowed(action: Action, before: Option<Entry>) {
    match action
    case Look => before.Some?
    case CreateFile => before.Some? ==> before.value.File?
    case Write(_) => before.Some? ==> before.value.File?
    case RemoveFile => before.Some? && before.value.File?
    case CreateDirectory => before.Some? ==> before.value.Directory?
    case RemoveDirectory(recursive) =>
      before.Some? && before.value.Directory? && (recursive || before.value.children == [])
  }

  function Outcome(action: Action, before: Option<Entry>, name: string): Option<Entry> {
    match action
    case Look => before
    case CreateFile => if before.Some? then before else Some(File(name, []))
    case Write(contents) => Some(File(name, contents))
    case RemoveFile => None
    case CreateDirectory => if before.Some? then before else Some(Directory(name, []))
    case RemoveDirectory(_) => None
  }

  // The callback changes the entry of that name and no other.
  lemma ActedLookup(action: Action, children: seq<Entry>, name: string, n: string)
    requires name != ""
    ensures Acted(action, children, name).Some? <==> Allowed(action, Lookup(children, name))
    ensures Acted(action, children, name).Some? ==>
              Lookup(Acted(action, children, name).value, n)
              == if n == name then Outcome(action, Lookup(children, name), name) else Lookup(children, n)
  {
    hide ChildNamed, Without;
    if Acted(action, children, name).Some? {
      match action {
        case Look =>
        case CreateFile =>
          LookupAppended(children, File(name, []), n);
        case Write(contents) =>
          LookupAppended(children, File(name, contents), n);
          if ChildNamed(children, name).Some? {
            LookupReplaced(children, ChildNamed(children, name).value, File(name, contents), n);
          }
        case RemoveFile =>
          LookupWithout(children, name, n);
        case CreateDirectory =>
          LookupAppended(children, Directory(name, []), n);
        case RemoveDirectory(recursive) =>
          LookupWithout(children, name, n);
      }
    }
  }

  // ----- The whole tree -----

  // What is at a path that begins with `names`, when `e` is at `names`.
  function NodeUnder(e: Option<Entry>, rest: seq<string>): Option<Node> {
    if e.None? then None
    else if rest == [] then Some(NodeOf(e.value))
    else if e.value.File? then None
    else NodeAt(e.value.children, rest)
  }

  lemma NodeSteps(children: seq<Entry>, q: seq<string>)
    requires q != []
    ensures NodeAt(children, q) == NodeUnder(Lookup(children, q[0]), q[1..])
  {
  }

  lemma BelowSteps(children: seq<Entry>, names: seq<string>)
    requires names != []
    ensures Below(children, names)
            == var e := Lookup(children, names[0]);
               if e.None? || |names| == 1 then e else if e.value.File? then None
               else Below(e.value.children, names[1..])
  {
  }

  // A successful operation decides what is at its path and below, and leaves every other path as it was.
  lemma {:induction false} WalkedNode(children: seq<Entry>, names: seq<string>, action: Action, q: seq<string>)
    requires names != [] && "" !in names && Walked(children, names, false, action).Some?
    ensures NodeAt(Walked(children, names, false, action).value, q)
            == if names <= q then NodeUnder(Outcome(action, Below(children, names), names[|names| - 1]), q[|names|..])
               else NodeAt(children, q)
    decreases |names|
  {
    hide Acted, Below, Lookup, ChildNamed, Outcome, NodeAt, NodeUnder;
    var after := Walked(children, names, false, action).value;
    BelowSteps(children, names);
    if q == [] {
      NodeOfNothing(after);
      NodeOfNothing(children);
    } else {
      NodeSteps(after, q);
      NodeSteps(children, q);
      if |names| == 1 {
        ActedLookup(action, children, names[0], q[0]);
        OnePrefix(names, q);
      } else {
        WalkedDeeper(children, names, action, q[0]);
        var child := Lookup(children, names[0]).value;
        if q[0] == names[0] {
          WalkedNode(child.children, names[1..], action, q[1..]);
          DeepPrefix(names, q);
          UnderDirectory(child, q[1..]);
          UnderDirectory(Lookup(after, q[0]).value, q[1..]);
        }
      }
    }
  }

  lemma NodeOfNothing(children: seq<Entry>)
    ensures NodeAt(children, []) == Some(DirectoryNode)
  {
  }

  lemma UnderDirectory(e: Entry, rest: seq<string>)
    requires e.Directory?
    ensures NodeUnder(Some(e), rest) == NodeAt(e.children, rest)
  {
  }

  lemma OnePrefix(names: seq<string>, q: seq<string>)
    requires |names| == 1 && q != []
    ensures names <= q <==> q[0] == names[0]
  {
  }

  lemma DeepPrefix(names: seq<string>, q: seq<string>)
    requires |names| > 1 && q != [] && q[0] == names[0]
    ensures names <= q <==> names[1..] <= q[1..]
    ensures names <= q ==> q[1..][|names| - 1..] == q[|names|..]
    ensures names[1..][|names| - 2] == names[|names| - 1]
  {
    if names[1..] <= q[1..] {
      assert names == [names[0]] + names[1..];
      assert q == [q[0]] + q[1..];
    }
  }

  // One step down.
  lemma WalkedDeeper(children: seq<Entry>, names: seq<string>, action: Action, n: string)
    requires |names| > 1 && "" !in names && Walked(children, names, false, action).Some?
    ensures ghost var child := Lookup(children, names[0]);
            && child.Some? && child.value.Directory? && Walked(child.value.children, names[1..], false, action).Some?
            && Lookup(Walked(children, names, false, action).value, n)
               == if n == names[0]
                  then Some(Directory(names[0], Walked(child.value.children, names[1..], false, action).value))
                  else Lookup(children, n)
  {
    hide Acted, ChildNamed;
    var i := ChildNamed(children, names[0]).value;
    var below := Walked(children[i].children, names[1..], false, action).value;
    LookupReplaced(children, i, Directory(names[0], below), n);
  }

  // An operation succeeds when the parent is a directory and what is at the path allows it.
  lemma {:induction false} WalkedSucceeds(children: seq<Entry>, names: seq<string>, action: Action)
    requires names != [] && "" !in names
    ensures Walked(children, names, false, action).Some?
            <==> && NodeAt(children, names[..|names| - 1]) == Some(DirectoryNode)
                 && Allowed(action, Below(children, names))
    decreases |names|
  {
    hide Acted, Allowed;
    if |names| == 1 {
      ActedLookup(action, children, names[0], "");
    } else if Lookup(children, names[0]).Some? && Lookup(children, names[0]).value.Directory? {
      WalkedSucceeds(Lookup(children, names[0]).value.children, names[1..], action);
      assert names[..|names| - 1][1..] == names[1..][..|names| - 2];
    }
  }

  // ----- Directories on the way -----

  // No file stands on the way.
  ghost predicate ClearWay(children: seq<Entry>, names: seq<string>) {
    forall k :: 0 < k <= |names| ==> !IsFileAt(children, names[..k])
  }

  predicate IsFileAt(children: seq<Entry>, names: seq<string>)
    requires names != []
  {
    Below(children, names).Some? && Below(children, names).value.File?
  }

  lemma ClearWayDeeper(children: seq<Entry>, names: seq<string>)
    requires |names| > 1
    ensures ghost var child := Lookup(children, names[0]);
            ClearWay(children, names)
            <==> child.None? || (child.value.Directory? && ClearWay(child.value.children, names[1..]))
  {
    hide Lookup;
    var child := Lookup(children, names[0]);
    BelowSteps(children, names[..1]);
    assert IsFileAt(children, names[..1]) <==> child.Some? && child.value.File?;
    forall k | 1 < k <= |names|
      ensures child.Some? && child.value.Directory? ==>
                (IsFileAt(children, names[..k]) <==> IsFileAt(child.value.children, names[1..][..k - 1]))
      ensures child.None? ==> !IsFileAt(children, names[..k])
    {
      BelowSteps(children, names[..k]);
      assert names[..k][1..] == names[1..][..k - 1];
    }
    if child.Some? && child.value.Directory? && ClearWay(children, names) {
      forall j | 0 < j <= |names[1..]| ensures !IsFileAt(child.value.children, names[1..][..j]) {
        assert !IsFileAt(children, names[..j + 1]);
      }
    }
  }

  // createDirectory with all intermediate directories: it succeeds where no file is in the way, makes a directory of
  // every prefix of the path, and leaves every other path as it was.
  lemma {:induction false} CreatedNode(children: seq<Entry>, names: seq<string>, q: seq<string>)
    requires names != [] && "" !in names
    ensures Walked(children, names, true, CreateDirectory).Some? <==> ClearWay(children, names)
    ensures Walked(children, names, true, CreateDirectory).Some? ==>
              NodeAt(Walked(children, names, true, CreateDirectory).value, q)
              == if q <= names then Some(DirectoryNode) else NodeAt(children, q)
    decreases |names|
  {
    hide Acted, Below, Lookup, ChildNamed, NodeAt, NodeUnder, ClearWay;
    ActedLookup(CreateDirectory, children, names[0], names[0]);
    if |names| == 1 {
      ClearWayOfOne(children, names);
      if Acted(CreateDirectory, children, names[0]).Some? {
        CreatedOne(children, names[0], q);
      }
    } else {
      ClearWayDeeper(children, names);
      if Acted(CreateDirectory, children, names[0]).Some? {
        var now := Acted(CreateDirectory, children, names[0]).value;
        LookupIsChild(now, names[0]);
        var i := ChildNamed(now, names[0]).value;
        CreatedNode(now[i].children, names[1..], if q == [] then [] else q[1..]);
        if Lookup(children, names[0]).None? {
          NothingInTheWay(names[1..]);
        }
        if Walked(children, names, true, CreateDirectory).Some? {
          CreatedDeeper(children, names, now, i, q);
        }
      }
    }
  }

  lemma NothingInTheWay(names: seq<string>)
    requires names != []
    ensures ClearWay([], names)
  {
  }

  lemma LookupIsChild(children: seq<Entry>, name: string)
    ensures Lookup(children, name).Some? <==> ChildNamed(children, name).Some?
    ensures ChildNamed(children, name).Some? ==>
              && ChildNamed(children, name).value < |children|
              && Lookup(children, name) == Some(children[ChildNamed(children, name).value])
              && children[ChildNamed(children, name).value].name == name
  {
  }

  lemma ClearWayOfOne(children: seq<Entry>, names: seq<string>)
    requires |names| == 1
    ensures ClearWay(children, names)
            <==> Lookup(children, names[0]).None? || Lookup(children, names[0]).value.Directory?
  {
    assert names[..1] == names;
    assert ClearWay(children, names) <==> !IsFileAt(children, names[..1]);
  }

  lemma CreatedOne(children: seq<Entry>, name: string, q: seq<string>)
    requires name != "" && Acted(CreateDirectory, children, name).Some?
    ensures NodeAt(Acted(CreateDirectory, children, name).value, q)
            == if q <= [name] then Some(DirectoryNode) else NodeAt(children, q)
  {
    hide Acted, Below, Lookup, ChildNamed, NodeAt;
    var now := Acted(CreateDirectory, children, name).value;
    if q == [] {
      NodeOfNothing(now);
    } else {
      ActedLookup(CreateDirectory, children, name, q[0]);
      NodeSteps(now, q);
      NodeSteps(children, q);
      if q[0] == name && |q| > 1 {
        NothingBelow(q[1..]);
      }
    }
  }

  lemma NothingBelow(q: seq<string>)
    requires q != []
    ensures NodeAt([], q).None?
  {
  }

  lemma CreatedDeeper(children: seq<Entry>, names: seq<string>, now: seq<Entry>, i: nat, q: seq<string>)
    requires |names| > 1 && "" !in names && Acted(CreateDirectory, children, names[0]) == Some(now)
    requires ChildNamed(now, names[0]) == Some(i) && now[i].Directory?
    requires Walked(now[i].children, names[1..], true, CreateDirectory).Some?
    requires q != [] ==>
               NodeAt(Walked(now[i].children, names[1..], true, CreateDirectory).value, q[1..])
               == if q[1..] <= names[1..] then Some(DirectoryNode) else NodeAt(now[i].children, q[1..])
    ensures NodeAt(Walked(children, names, true, CreateDirectory).value, q)
            == if q <= names then Some(DirectoryNode) else NodeAt(children, q)
  {
    hide Acted, Below, Lookup, ChildNamed, NodeAt;
    var below := Walked(now[i].children, names[1..], true, CreateDirectory).value;
    var after := now[i := Directory(names[0], below)];
    LookupIsChild(now, names[0]);
    assert Walked(children, names, true, CreateDirectory) == Some(after);
    if q == [] {
      NodeOfNothing(after);
    } else {
      ActedLookup(CreateDirectory, children, names[0], q[0]);
      LookupReplaced(now, i, Directory(names[0], below), q[0]);
      NodeSteps(after, q);
      NodeSteps(children, q);
      if q[0] == names[0] {
        UnderDirectory(Directory(names[0], below), q[1..]);
        PrefixDeeper(q, names);
        if Lookup(children, names[0]).Some? {
          UnderDirectory(now[i], q[1..]);
        } else if q[1..] != [] {
          NothingBelow(q[1..]);
        }
      }
    }
  }

  lemma PrefixDeeper(q: seq<string>, names: seq<string>)
    requires q != [] && names != [] && q[0] == names[0]
    ensures q <= names <==> q[1..] <= names[1..]
    ensures q[1..] == [] ==> q[1..] <= names[1..]
  {
    assert q == [q[0]] + q[1..];
    assert names == [names[0]] + names[1..];
  }

  // ----- Names of siblings -----

  ghost predicate Unique(children: seq<Entry>) {
    && (forall i, j :: 0 <= i < j < |children| ==> children[i].name != children[j].name)
    && (forall e :: e in children && e.Directory? ==> Unique(e.children))
  }

  lemma {:induction false} WithoutKeeps(children: seq<Entry>, name: string)
    ensures forall e :: e in Without(children, name) ==> e in children
    ensures Unique(children) ==> Unique(Without(children, name))
  {
    if children != [] {
      WithoutKeeps(children[1..], name);
      var rest := Without(children[1..], name);
      if Unique(children) {
        TailUnique(children);
        if children[0].name != name {
          forall e | e in rest ensures e.name != children[0].name {
            var k :| 0 <= k < |children[1..]| && children[1..][k] == e;
            assert children[k + 1].name != children[0].name;
          }
        }
      }
    }
  }

  lemma TailUnique(children: seq<Entry>)
    requires children != [] && Unique(children)
    ensures Unique(children[1..])
  {
  }

  lemma ActedKeepsUnique(action: Action, children: seq<Entry>, name: string)
    requires Unique(children) && Acted(action, children, name).Some?
    ensures Unique(Acted(action, children, name).value)
  {
    WithoutKeeps(children, name);
  }

  // No operation gives two siblings the same name.
  lemma {:induction false} WalkedKeepsUnique(children: seq<Entry>, names: seq<string>, all: bool, action: Action)
    requires Unique(children) && IsWalk(names) && Walked(children, names, all, action).Some?
    ensures Unique(Walked(children, names, all, action).value)
    decreases |names|
  {
    hide Acted;
    if |names| == 1 {
      ActedKeepsUnique(action, children, names[0]);
    } else {
      if all {
        ActedKeepsUnique(action, children, names[0]);
      }
      var now := if all then Acted(action, children, names[0]).value else children;
      var i := ChildNamed(now, names[0]).value;
      assert now[i] in now;
      WalkedKeepsUnique(now[i].children, names[1..], all, action);
    }
  }

  // ----- The walk -----

  // The children of the directory at a trail of positions.
  ghost predicate IsTrail(children: seq<Entry>, trail: seq<nat>) {
    || trail == []
    || (trail[0] < |children| && children[trail[0]].Directory? && IsTrail(children[trail[0]].children, trail[1..]))
  }

  function ChildrenAt(children: seq<Entry>, trail: seq<nat>): seq<Entry>
    requires IsTrail(children, trail)
  {
    if trail == [] then children else ChildrenAt(children[trail[0]].children, trail[1..])
  }

  function ReplacedAt(children: seq<Entry>, trail: seq<nat>, now: seq<Entry>): seq<Entry>
    requires IsTrail(children, trail)
  {
    if trail == [] then now
    else
      var e := children[trail[0]];
      children[trail[0] := Directory(e.name, ReplacedAt(e.children, trail[1..], now))]
  }

  lemma {:induction false} ReplacedStays(children: seq<Entry>, trail: seq<nat>, now: seq<Entry>)
    requires IsTrail(children, trail)
    ensures IsTrail(ReplacedAt(children, trail, now), trail)
    ensures ChildrenAt(ReplacedAt(children, trail, now), trail) == now
    ensures ReplacedAt(children, trail, ChildrenAt(children, trail)) == children
  {
    if trail != [] {
      ReplacedStays(children[trail[0]].children, trail[1..], now);
    }
  }

  // Replacing below a directory is replacing the directory with one changed below.
  lemma {:induction false} ReplacedBelow(children: seq<Entry>, trail: seq<nat>, i: nat, now: seq<Entry>,
                                         below: seq<Entry>)
    requires IsTrail(children, trail) && i < |now| && now[i].Directory?
    requires children == ReplacedAt(children, trail, now)
    ensures IsTrail(children, trail + [i])
    ensures ChildrenAt(children, trail + [i]) == now[i].children
    ensures ReplacedAt(children, trail + [i], below)
            == ReplacedAt(children, trail, now[i := Directory(now[i].name, below)])
  {
    if trail == [] {
      assert (trail + [i])[1..] == [];
    } else {
      var e := children[trail[0]];
      assert (trail + [i])[1..] == trail[1..] + [i];
      assert ReplacedAt(children, trail, now)[trail[0]] == Directory(e.name, ReplacedAt(e.children, trail[1..], now));
      ReplacedBelow(e.children, trail[1..], i, now, below);
    }
  }

  // The components that a walk to a path visits.
  function WalkOf(path: string): (names: seq<string>)
    ensures IsWalk(names)
  {
    ComponentsAreNormal(path);
    if Components(path) == [] then [""] else Components(path)
  }

  lemma WalkOfCases(path: string)
    ensures "" !in Components(path)
    ensures Components(path) == [] ==> WalkOf(path) == [""]
    ensures Components(path) != [] ==> WalkOf(path) == Components(path) && WalkOf(path) != [""]
  {
    hide Components;
    ComponentsAreNormal(path);
  }

  // The text of an absolute normal form, split at its separators after the root.
  lemma PiecesOfNormalForm(path: string)
    requires IsAbsolute(path)
    ensures |NormalForm(path)| >= 1 && NormalForm(path)[0] == SEPARATOR
    ensures Pieces(NormalForm(path), 1) == WalkOf(path)
  {
    hide Pieces, Components;
    ComponentsAreNormal(path);
    var components := Components(path);
    var text := NormalForm(path);
    assert text[1..] == Join(components);
    if components == [] {
      PiecesSplit(text, 1);
      assert text[1..1] == "";
      assert [""] + [] == [""];
    } else {
      PiecesOfJoin(text, 1, components);
    }
  }

  // The next component of a text split at its separators.
  lemma NextPiece(text: string, start: nat)
    requires start <= |text|
    ensures ghost var end := SeparatorAt(text, start);
            ghost var pieces := Pieces(text, start);
            && pieces[0] == text[start..end] && (end == |text| <==> |pieces| == 1)
            && (end < |text| ==> pieces[1..] == Pieces(text, end + 1))
  {
  }

  // ----- What the operations do at a path -----

  lemma {:induction false} NodeExtends(children: seq<Entry>, names: seq<string>, rest: seq<string>)
    requires names != []
    ensures NodeAt(children, names + rest) == NodeUnder(Below(children, names), rest)
    decreases |names|
  {
    hide Lookup;
    var q := names + rest;
    NodeSteps(children, q);
    BelowSteps(children, names);
    assert q[1..] == names[1..] + rest;
    if |names| > 1 && Lookup(children, names[0]).Some? && Lookup(children, names[0]).value.Directory? {
      NodeExtends(Lookup(children, names[0]).value.children, names[1..], rest);
    }
  }

  // The tree after an operation, seen as a map: at the path what the operation leaves there, elsewhere what was there.
  lemma OperationNode(children: seq<Entry>, names: seq<string>, action: Action, q: seq<string>)
    requires names != [] && "" !in names && Walked(children, names, false, action).Some?
    requires !action.RemoveDirectory?
    ensures NodeAt(Walked(children, names, false, action).value, q)
            == if q == names then NodeUnder(Outcome(action, Below(children, names), names[|names| - 1]), [])
               else NodeAt(children, q)
  {
    hide Walked, NodeAt, Below, Acted;
    WalkedNode(children, names, action, q);
    WalkedSucceeds(children, names, action);
    if names <= q {
      var rest := q[|names|..];
      assert q == names + rest;
      NodeExtends(children, names, rest);
      if rest != [] {
        NothingUnderNew(action, Below(children, names), names[|names| - 1], rest);
      } else {
        assert q == names;
      }
    }
  }

  lemma NothingUnderNew(action: Action, before: Option<Entry>, name: string, rest: seq<string>)
    requires Allowed(action, before) && !action.RemoveDirectory? && rest != []
    ensures NodeUnder(Outcome(action, before, name), rest) == NodeUnder(before, rest)
  {
    NothingBelow(rest);
  }

  lemma {:induction false} WithoutRoot(children: seq<Entry>, q: seq<string>)
    requires "" !in q
    ensures NodeAt(Without(children, ""), q) == NodeAt(children, q)
  {
    hide Lookup;
    if q != [] {
      NodeSteps(children, q);
      NodeSteps(Without(children, ""), q);
      LookupWithout(children, "", q[0]);
    }
  }

  datatype Kind = FileKind | DirectoryKind

  // Where a read ends. Without a length the original subtracts the offset from the size.
  function RangeEnd(data: ByteString, offset: nat, length: Option<nat>): int {
    if length.Some? then offset + length.value else |data| - offset
  }

  predicate InFile(data: ByteString, offset: nat, length: Option<nat>) {
    offset <= RangeEnd(data, offset, length) <= |data|
  }

  // A read with a length gives that many bytes from the offset on.
  lemma ReadsLength(data: ByteString, offset: nat, length: nat)
    requires InFile(data, offset, Some(length))
    ensures offset + length <= |data|
    ensures |data[offset..RangeEnd(data, offset, Some(length))]| == length
    ensures forall i :: 0 <= i < length ==> data[offset..RangeEnd(data, offset, Some(length))][i] == data[offset + i]
  {
  }

  // A read without length gives the rest of the file exactly from its beginning: otherwise as many bytes are missing at
  // the end as were skipped.
  lemma ReadsRestFromStart(data: ByteString, offset: nat)
    requires InFile(data, offset, None)
    ensures data[offset..RangeEnd(data, offset, None)] == data[offset..] <==> offset == 0
    ensures data[offset..RangeEnd(data, offset, None)] == data[offset..|data| - offset]
  {
    assert |data[offset..RangeEnd(data, offset, None)]| + offset == |data[offset..]|;
    assert data[0..|data|] == data[0..];
  }

  class MemoryFilesystem {
    var root: Entry

    ghost predicate Valid()
      reads this
    {
      root.Directory? && root.name == ""
    }

    ghost function At(names: seq<string>): Option<Node>
      reads this
      requires Valid()
    {
      NodeAt(root.children, names)
    }

    ghost predicate HasUniqueNames()
      reads this
      requires Valid()
    {
      Unique(root.children)
    }

    constructor (entries: seq<Entry>)
      ensures Valid() && root.children == entries
    {
      root := Directory("", entries);
    }

    // WalkPath with an operation that may change entries. A failed operation changes nothing.
    method WalkPath(path: string, all: bool, action: Action) returns (ok: bool)
      requires Valid() && (all ==> action.CreateDirectory?)
      modifies this
      ensures Valid()
      ensures ok <==> IsAbsolute(path) && Walked(old(root.children), WalkOf(path), all, action).Some?
      ensures root.children
              == if ok then Walked(old(root.children), WalkOf(path), all, action).value else old(root.children)
    {
      hide Walked, Acted, ChildNamed, WalkOf, Pieces, NormalForm;
      if !IsAbsolute(path) {
        return false;
      }
      var normalized := Normalized(path);
      PiecesOfNormalForm(path);
      if normalized == "" {
        return false;
      }
      var end := SeparatorAt(normalized, 0);
      var name := normalized[0..end];
      if name != root.name {
        return false;
      }

      ghost var goal := Walked(old(root.children), WalkOf(path), all, action);
      var trail: seq<nat> := [];
      var start := end + 1;
      end := SeparatorAt(normalized, start);
      while true
        invariant Valid() && start <= |normalized| && end == SeparatorAt(normalized, start)
        invariant IsWalk(Pieces(normalized, start)) && IsTrail(root.children, trail)
        invariant Leads(goal, root.children, trail, Pieces(normalized, start), all, action)
        invariant goal.None? ==> root == old(root)
        decreases |normalized| - start
      {
        NextPiece(normalized, start);
        ghost var names := Pieces(normalized, start);
        var final := end == |normalized|;
        name := normalized[start..end];
        var here := ChildrenAt(root.children, trail);
        WalkedCases(here, names, all, action);
        ActedOnTheWay(here, name, all, action);
        var acted: Option<seq<Entry>> := Some(here);
        if all || final {
          acted := Acted(action, here, name);
        }
        if acted.None? {
          return false;
        }
        ghost var before := root.children;
        ReplacedStays(root.children, trail, acted.value);
        root := Directory(root.name, ReplacedAt(root.children, trail, acted.value));
        if final {
          return true;
        }
        var next := ChildNamed(acted.value, name);
        if next.None? || acted.value[next.value].File? {
          return false;
        }
        LeadsOn(goal, before, trail, names, all, action, acted.value, next.value);
        FreshSucceeds(here, names, all, action, acted.value, next.value);
        trail := trail + [next.value];
        start := end + 1;
        end := SeparatorAt(normalized, start);
      }
    }

    // WalkPath that only looks.
    method Find(path: string) returns (entry: Option<Entry>)
      requires Valid()
      ensures entry == if !IsAbsolute(path) then None
                       else if Components(path) == [] then Some(root)
                       else Below(root.children, Components(path))
    {
      hide Pieces, NormalForm, Components, WalkOf;
      if !IsAbsolute(path) {
        return None;
      }
      var normalized := Normalized(path);
      PiecesOfNormalForm(path);
      WalkOfCases(path);
      var current := root;
      var start := 1;
      var end := SeparatorAt(normalized, start);
      while true
        invariant start <= |normalized| && end == SeparatorAt(normalized, start) && current.Directory?
        invariant IsWalk(Pieces(normalized, start))
        invariant if Pieces(normalized, start) == [""] then current == root && Components(path) == []
                  else Components(path) != []
                       && Below(current.children, Pieces(normalized, start)) == Below(root.children, Components(path))
        decreases |normalized| - start
      {
        NextPiece(normalized, start);
        ghost var names := Pieces(normalized, start);
        var final := end == |normalized|;
        var next := Some(current);
        var name := normalized[start..end];
        if name != "" {
          next := Lookup(current.children, name);
        }
        if final {
          return next;
        }
        if next.None? || next.value.File? {
          return None;
        }
        current := next.value;
        start := end + 1;
        end := SeparatorAt(normalized, start);
      }
    }
  
    // The node at a path; every path that is not absolute is refused.
    ghost function Node(path: string): Option<Node>
      reads this
      requires Valid()
    {
      if IsAbsolute(path) then At(Components(path)) else None
    }

    method Exists(path: string) returns (ok: bool)
      requires Valid()
      ensures ok <==> Node(path).Some?
    {
      hide Components;
      FoundIsNode(path);
      var entry := Find(path);
      ok := entry.Some?;
    }

    method Type(path: string) returns (kind: Option<Kind>)
      requires Valid()
      ensures kind == match Node(path)
                      case None => None
                      case Some(FileNode(_)) => Some(FileKind)
                      case Some(DirectoryNode) => Some(DirectoryKind)
    {
      hide Components;
      FoundIsNode(path);
      var entry := Find(path);
      kind := None;
      if entry.Some? {
        kind := Some(if entry.value.File? then FileKind else DirectoryKind);
      }
    }

    // A part of a file. A range that is not inside the file has no defined result.
    method Read(path: string, offset: nat, length: Option<nat>) returns (contents: Option<ByteString>)
      requires Valid()
      requires match Node(path) case Some(FileNode(data)) => InFile(data, offset, length) case _ => true
      ensures contents == match Node(path)
                          case Some(FileNode(data)) => Some(data[offset..RangeEnd(data, offset, length)])
                          case _ => None
    {
      hide Components;
      FoundIsNode(path);
      var entry := Find(path);
      if entry.None? || !entry.value.File? {
        return None;
      }
      var data := entry.value.contents;
      if offset == 0 && length.None? {
        assert data[0..|data|] == data;
        contents := Some(data);
      } else {
        contents := Some(data[offset..if length.Some? then offset + length.value else |data| - offset]);
      }
    }

    lemma FoundIsNode(path: string)
      requires Valid()
      ensures IsAbsolute(path) && Components(path) != [] ==>
                var e := Below(root.children, Components(path));
                Node(path) == if e.None? then None else Some(NodeOf(e.value))
      ensures IsAbsolute(path) && Components(path) == [] ==> Node(path) == Some(DirectoryNode)
    {
      hide Components;
    }

    // A file that exists is left as it is.
    method CreateFile(path: string) returns (ok: bool)
      requires Valid()
      modifies this
      ensures Valid()
      ensures ok <==> IsAbsolute(path) && old(CanHold(path))
      ensures forall q {:trigger At(q)} ::
                At(q) == if ok && q == Components(path) && old(At(q)).None? then Some(FileNode([])) else old(At(q))
      ensures old(HasUniqueNames()) ==> HasUniqueNames()
    {
      hide Components, NodeAt;
      ok := WalkPath(path, false, Action.CreateFile);
      ghost var before := old(root.children);
      Effect(before, path, Action.CreateFile);
      forall q
        ensures At(q) == if ok && q == Components(path) && NodeAt(before, q).None? then Some(FileNode([]))
                         else NodeAt(before, q)
      {
        EffectAt(before, path, Action.CreateFile, q);
      }
    }

    // The parent is a directory, and there is no directory at the path itself.
    ghost predicate CanHold(path: string)
      reads this
      requires Valid()
    {
      var names := Components(path);
      names != [] && At(names[..|names| - 1]) == Some(DirectoryNode) && At(names) != Some(DirectoryNode)
    }

    // After a successful write the path holds the contents; no other path changes.
    method Write(contents: ByteString, path: string) returns (ok: bool)
      requires Valid()
      modifies this
      ensures Valid()
      ensures ok <==> IsAbsolute(path) && old(CanHold(path))
      ensures forall q {:trigger At(q)} ::
                At(q) == if ok && q == Components(path) then Some(FileNode(contents)) else old(At(q))
      ensures old(HasUniqueNames()) ==> HasUniqueNames()
    {
      hide Components, NodeAt;
      ok := WalkPath(path, false, Action.Write(contents));
      ghost var before := old(root.children);
      Effect(before, path, Action.Write(contents));
      forall q
        ensures At(q) == if ok && q == Components(path) then Some(FileNode(contents)) else NodeAt(before, q)
      {
        EffectAt(before, path, Action.Write(contents), q);
      }
    }

    // Exactly the path disappears. Directories are not removed.
    method RemoveFile(path: string) returns (ok: bool)
      requires Valid()
      modifies this
      ensures Valid()
      ensures ok <==> old(Node(path)).Some? && old(Node(path)).value.FileNode?
      ensures forall q {:trigger At(q)} :: At(q) == if ok && q == Components(path) then None else old(At(q))
      ensures old(HasUniqueNames()) ==> HasUniqueNames()
    {
      hide Components, NodeAt;
      ok := WalkPath(path, false, Action.RemoveFile);
      ghost var before := old(root.children);
      Effect(before, path, Action.RemoveFile);
      NodeOfNothing(before);
      if Components(path) != [] {
        ParentIsDirectory(before, Components(path));
      }
      forall q
        ensures At(q) == if ok && q == Components(path) then None else NodeAt(before, q)
      {
        EffectAt(before, path, Action.RemoveFile, q);
      }
    }

    // With all intermediate directories: exactly the prefixes of the path that are missing are added. It fails, and
    // changes nothing, where a file is in the way.
    method CreateDirectories(path: string) returns (ok: bool)
      requires Valid()
      modifies this
      ensures Valid()
      ensures ok <==> IsAbsolute(path) && old(NoFileOnTheWay(path))
      ensures forall q {:trigger At(q)} ::
                At(q) == if ok && q <= Components(path) then Some(DirectoryNode) else old(At(q))
      ensures old(HasUniqueNames()) ==> HasUniqueNames()
    {
      hide Components, NodeAt;
      ok := WalkPath(path, true, Action.CreateDirectory);
      ghost var before := old(root.children);
      CreatedPath(before, path, []);
      forall q
        ensures At(q) == if ok && q <= Components(path) then Some(DirectoryNode) else NodeAt(before, q)
      {
        CreatedPath(before, path, q);
      }
    }

    ghost predicate NoFileOnTheWay(path: string)
      reads this
      requires Valid()
    {
      var names := Components(path);
      forall k :: 0 < k <= |names| ==> !(At(names[..k]).Some? && At(names[..k]).value.FileNode?)
    }

    // createDirectory for the last component alone.
    method CreateOneDirectory(path: string) returns (ok: bool)
      requires Valid()
      modifies this
      ensures Valid()
      ensures ok <==> IsAbsolute(path) && old(CanHoldDirectory(path))
      ensures forall q {:trigger At(q)} ::
                At(q) == if ok && q == Components(path) then Some(DirectoryNode) else old(At(q))
      ensures old(HasUniqueNames()) ==> HasUniqueNames()
    {
      hide Components, NodeAt;
      ok := WalkPath(path, false, Action.CreateDirectory);
      ghost var before := old(root.children);
      Effect(before, path, Action.CreateDirectory);
      NodeOfNothing(before);
      forall q
        ensures At(q) == if ok && q == Components(path) then Some(DirectoryNode) else NodeAt(before, q)
      {
        EffectAt(before, path, Action.CreateDirectory, q);
      }
    }

    // A directory disappears with all that is below it; removing the root removes nothing and reports success.
    method RemoveDirectory(path: string, recursive: bool) returns (ok: bool)
      requires Valid()
      modifies this
      ensures Valid()
      ensures ok <==> old(Node(path)) == Some(DirectoryNode) && (recursive || old(IsEmpty(path)))
      ensures forall q {:trigger At(q)} :: "" !in q ==>
                At(q) == if ok && Components(path) != [] && Components(path) <= q then None else old(At(q))
      ensures old(HasUniqueNames()) ==> HasUniqueNames()
    {
      hide Components, NodeAt;
      ok := WalkPath(path, false, Action.RemoveDirectory(recursive));
      ghost var before := old(root.children);
      RemovedDirectory(before, path, recursive);
      forall q | "" !in q
        ensures At(q) == if ok && Components(path) != [] && Components(path) <= q then None else NodeAt(before, q)
      {
        RemovedDirectoryAt(before, path, recursive, q);
      }
    }

    ghost predicate IsEmpty(path: string)
      reads this
      requires Valid()
    {
      forall name :: At(Components(path) + [name]).None?
    }

    // There is no file at the path, and its parent is a directory if it is not the root.
    ghost predicate CanHoldDirectory(path: string)
      reads this
      requires Valid()
    {
      var names := Components(path);
      names == []
      || (At(names[..|names| - 1]) == Some(DirectoryNode) && !(At(names).Some? && At(names).value.FileNode?))
    }
  }

  lemma {:induction false} ParentIsDirectory(children: seq<Entry>, names: seq<string>)
    requires names != []
    ensures NodeAt(children, names).Some? ==> NodeAt(children, names[..|names| - 1]) == Some(DirectoryNode)
    decreases |names|
  {
    hide Lookup;
    if |names| > 1 {
      var parent := names[..|names| - 1];
      BelowSteps(children, names);
      BelowSteps(children, parent);
      assert parent[1..] == names[1..][..|names| - 2];
      if Lookup(children, names[0]).Some? && Lookup(children, names[0]).value.Directory? {
        ParentIsDirectory(Lookup(children, names[0]).value.children, names[1..]);
      }
    }
  }

  // A directory is empty when no path leads one step further.
  lemma EmptyDirectory(children: seq<Entry>, names: seq<string>)
    requires names != [] ==> Below(children, names).Some? && Below(children, names).value.Directory?
    ensures ghost var here := if names == [] then children else Below(children, names).value.children;
            here == [] <==> forall name :: NodeAt(children, names + [name]).None?
  {
    hide Below;
    var here := if names == [] then children else Below(children, names).value.children;
    forall name ensures NodeAt(children, names + [name]) == NodeAt(here, [name]) {
      if names != [] {
        NodeExtends(children, names, [name]);
      } else {
        assert names + [name] == [name];
      }
    }
    if here == [] {
      forall name ensures NodeAt(children, names + [name]).None? {
        NothingBelow([name]);
      }
    } else {
      var name := here[0].name;
      NodeSteps(here, [name]);
      assert NodeAt(children, names + [name]).Some?;
    }
  }

  lemma RemovedDirectory(before: seq<Entry>, path: string, recursive: bool)
    ensures ghost var names := Components(path);
            ghost var after := Walked(before, WalkOf(path), false, RemoveDirectory(recursive));
            && (after.Some? <==> NodeAt(before, names) == Some(DirectoryNode)
                                 && (recursive || forall name :: NodeAt(before, names + [name]).None?))
            && (after.Some? && Unique(before) ==> Unique(after.value))
  {
    hide Components, Walked, Unique, WalkOf;
    var names := Components(path);
    var action := RemoveDirectory(recursive);
    WalkOfCases(path);
    if names == [] {
      WalkedCases(before, [""], false, action);
      NodeOfNothing(before);
      EmptyDirectory(before, names);
    } else {
      WalkedSucceeds(before, names, action);
      ParentIsDirectory(before, names);
      if NodeAt(before, names) == Some(DirectoryNode) {
        EmptyDirectory(before, names);
      }
    }
    if Unique(before) && Walked(before, WalkOf(path), false, action).Some? {
      WalkedKeepsUnique(before, WalkOf(path), false, action);
    }
  }

  lemma RemovedDirectoryAt(before: seq<Entry>, path: string, recursive: bool, q: seq<string>)
    requires "" !in q
    ensures ghost var names := Components(path);
            ghost var after := Walked(before, WalkOf(path), false, RemoveDirectory(recursive));
            after.Some? ==> NodeAt(after.value, q) == if names != [] && names <= q then None else NodeAt(before, q)
  {
    hide Components, Walked, WalkOf, NodeAt, Below;
    var names := Components(path);
    var action := RemoveDirectory(recursive);
    WalkOfCases(path);
    if Walked(before, WalkOf(path), false, action).Some? {
      if names == [] {
        WalkedCases(before, [""], false, action);
        WithoutRoot(before, q);
      } else {
        WalkedNode(before, names, action, q);
      }
    }
  }

  // When an operation on one path succeeds, and that it keeps sibling names apart.
  lemma Effect(before: seq<Entry>, path: string, action: Action)
    requires !action.RemoveDirectory? && !action.Look?
    ensures ghost var names := Components(path);
            names == [] ==>
              (Walked(before, WalkOf(path), false, action).Some? <==> action.CreateDirectory?)
              && (action.CreateDirectory? ==> Walked(before, WalkOf(path), false, action).value == before)
    ensures ghost var names := Components(path);
            names != [] ==>
              (Walked(before, WalkOf(path), false, action).Some?
               <==> && NodeAt(before, names[..|names| - 1]) == Some(DirectoryNode)
                    && match action
                       case RemoveFile => NodeAt(before, names).Some? && NodeAt(before, names).value.FileNode?
                       case CreateDirectory => !(NodeAt(before, names).Some? && NodeAt(before, names).value.FileNode?)
                       case _ => NodeAt(before, names) != Some(DirectoryNode))
    ensures Unique(before) && Walked(before, WalkOf(path), false, action).Some? ==>
              Unique(Walked(before, WalkOf(path), false, action).value)
  {
    hide Components, Walked, Unique, WalkOf;
    var names := Components(path);
    WalkOfCases(path);
    if names == [] {
      WalkedCases(before, [""], false, action);
    } else {
      WalkedSucceeds(before, names, action);
    }
    if Unique(before) && Walked(before, WalkOf(path), false, action).Some? {
      WalkedKeepsUnique(before, WalkOf(path), false, action);
    }
  }

  lemma EffectAt(before: seq<Entry>, path: string, action: Action, q: seq<string>)
    requires !action.RemoveDirectory? && !action.Look?
    ensures Components(path) != [] && Walked(before, WalkOf(path), false, action).Some? ==>
              NodeAt(Walked(before, WalkOf(path), false, action).value, q)
              == if q != Components(path) then NodeAt(before, q)
                 else match action
                      case CreateFile => if NodeAt(before, q).Some? then NodeAt(before, q) else Some(FileNode([]))
                      case Write(contents) => Some(FileNode(contents))
                      case RemoveFile => None
                      case _ => Some(DirectoryNode)
  {
    hide Components, Walked, WalkOf;
    WalkOfCases(path);
    if Components(path) != [] && Walked(before, WalkOf(path), false, action).Some? {
      WalkedSucceeds(before, Components(path), action);
      OperationNode(before, Components(path), action, q);
    }
  }

  lemma CreatedPath(before: seq<Entry>, path: string, q: seq<string>)
    ensures ghost var names := Components(path);
            ghost var after := Walked(before, WalkOf(path), true, Action.CreateDirectory);
            && (after.Some? <==> forall k :: 0 < k <= |names| ==>
                                   !(NodeAt(before, names[..k]).Some? && NodeAt(before, names[..k]).value.FileNode?))
            && (after.Some? ==> NodeAt(after.value, q) == if q <= names then Some(DirectoryNode) else NodeAt(before, q))
            && (after.Some? && Unique(before) ==> Unique(after.value))
  {
    hide Components, Walked, Unique, WalkOf, Below;
    var names := Components(path);
    WalkOfCases(path);
    var after := Walked(before, WalkOf(path), true, Action.CreateDirectory);
    if names == [] {
      WalkedCases(before, [""], true, Action.CreateDirectory);
      NodeOfNothing(before);
    } else {
      CreatedNode(before, names, q);
      ClearWayNodes(before, names);
    }
    if after.Some? && Unique(before) {
      WalkedKeepsUnique(before, WalkOf(path), true, Action.CreateDirectory);
    }
  }

  lemma ClearWayNodes(children: seq<Entry>, names: seq<string>)
    ensures ClearWay(children, names)
            <==> forall k :: 0 < k <= |names| ==>
                   !(NodeAt(children, names[..k]).Some? && NodeAt(children, names[..k]).value.FileNode?)
  {
    forall k | 0 < k <= |names|
      ensures IsFileAt(children, names[..k])
              <==> NodeAt(children, names[..k]).Some? && NodeAt(children, names[..k]).value.FileNode?
    {
    }
  }

  // The walk from here on decides the walk as a whole.
  ghost predicate Leads(goal: Option<seq<Entry>>, children: seq<Entry>, trail: seq<nat>, names: seq<string>, all: bool,
                        action: Action)
    requires IsTrail(children, trail) && IsWalk(names)
  {
    var rest := Walked(ChildrenAt(children, trail), names, all, action);
    goal == if rest.None? then None else Some(ReplacedAt(children, trail, rest.value))
  }

  lemma WalkedCases(children: seq<Entry>, names: seq<string>, all: bool, action: Action)
    requires IsWalk(names)
    ensures |names| == 1 ==> Walked(children, names, all, action) == Acted(action, children, names[0])
    ensures |names| > 1 ==>
              ghost var acted := if all then Acted(action, children, names[0]) else Some(children);
              && IsWalk(names[1..])
              && (acted.None? ==> Walked(children, names, all, action).None?)
              && (acted.Some? ==> WalksOn(acted.value, names, all, action, Walked(children, names, all, action)))
  {
    hide Acted, ChildNamed;
  }

  ghost predicate WalksOn(now: seq<Entry>, names: seq<string>, all: bool, action: Action, result: Option<seq<Entry>>)
    requires |names| > 1 && IsWalk(names)
  {
    var next := ChildNamed(now, names[0]);
    if next.None? || now[next.value].File? then result.None?
    else
      var rest := Walked(now[next.value].children, names[1..], all, action);
      result == if rest.None? then None else Some(now[next.value := Directory(now[next.value].name, rest.value)])
  }

  // A directory made on the way can be entered.
  lemma ActedOnTheWay(here: seq<Entry>, name: string, all: bool, action: Action)
    requires all ==> action.CreateDirectory?
    ensures all && name != "" && Acted(action, here, name).Some? ==>
              ghost var now := Acted(action, here, name).value;
              ChildNamed(now, name).Some? && now[ChildNamed(now, name).value].Directory?
  {
    hide Acted, ChildNamed;
    if all && name != "" && Acted(action, here, name).Some? {
      ActedLookup(action, here, name, name);
      LookupIsChild(Acted(action, here, name).value, name);
    }
  }

  lemma {:induction false} ReplacedAgain(children: seq<Entry>, trail: seq<nat>, now: seq<Entry>, later: seq<Entry>)
    requires IsTrail(children, trail)
    ensures IsTrail(ReplacedAt(children, trail, now), trail)
    ensures ReplacedAt(ReplacedAt(children, trail, now), trail, later) == ReplacedAt(children, trail, later)
  {
    if trail != [] {
      ReplacedAgain(children[trail[0]].children, trail[1..], now, later);
    }
  }

  lemma LeadsOn(goal: Option<seq<Entry>>, before: seq<Entry>, trail: seq<nat>, names: seq<string>, all: bool,
                action: Action,
                now: seq<Entry>, i: nat)
    requires IsTrail(before, trail) && IsWalk(names) && |names| > 1 && Leads(goal, before, trail, names, all, action)
    requires (if all then Acted(action, ChildrenAt(before, trail), names[0]) else Some(ChildrenAt(before, trail)))
             == Some(now)
    requires ChildNamed(now, names[0]) == Some(i) && now[i].Directory?
    ensures ghost var after := ReplacedAt(before, trail, now);
            && IsTrail(after, trail + [i]) && IsWalk(names[1..])
            && Leads(goal, after, trail + [i], names[1..], all, action)
    ensures goal.Some? <==> Walked(now[i].children, names[1..], all, action).Some?
  {
    hide Walked, Acted, ChildNamed, ReplacedAt, ChildrenAt, IsTrail;
    var after := ReplacedAt(before, trail, now);
    WalkedCases(ChildrenAt(before, trail), names, all, action);
    ReplacedAgain(before, trail, now, now);
    var rest := Walked(now[i].children, names[1..], all, action);
    var below := if rest.Some? then rest.value else [];
    ReplacedBelow(after, trail, i, now, below);
    ReplacedAgain(before, trail, now, now[i := Directory(now[i].name, below)]);
  }

  // Once a directory had to be made, nothing can be in the way.
  lemma FreshSucceeds(here: seq<Entry>, names: seq<string>, all: bool, action: Action, now: seq<Entry>, i: nat)
    requires IsWalk(names) && |names| > 1 && (all ==> action.CreateDirectory?)
    requires (if all then Acted(action, here, names[0]) else Some(here)) == Some(now)
    requires ChildNamed(now, names[0]) == Some(i) && now[i].Directory?
    ensures now == here || Walked(now[i].children, names[1..], all, action).Some?
  {
    hide Walked, ChildNamed;
    if now != here {
      ActedLookup(action, here, names[0], names[0]);
      LookupIsChild(here, names[0]);
      LookupIsChild(now, names[0]);
      NothingInTheWay(names[1..]);
      CreatedNode([], names[1..], []);
    }
  }
}
