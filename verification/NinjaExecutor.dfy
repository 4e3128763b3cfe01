// Libraries/xcexecution/Sources/NinjaExecutor.cpp: the dependency edges of the emitted Ninja files.
module NinjaExecutors {
  import opened Wrappers
  import opened Bytes
  import opened DirectedGraphs

  // What the file system and the tools answer is part of the input. `formatsKnown` says that every dependency info
  // format of an invocation has a name, `writable` that the files of a target can be written.

  // The outcome of looking an executable up: an invocation without executable emits nothing, one whose executable
  // cannot be found fails the build.
  datatype Executable = NoExecutable | NotFound | Found

  datatype Invocation = Invocation(
    executable: Executable,
    declaredOutputs: seq<string>,
    phonyOutput: string,
    inputs: seq<string>,
    phonyInputs: seq<string>,
    inputDependencies: seq<string>,
    orderDependencies: seq<string>,
    formatsKnown: bool,
    priority: uint32)
  {
    // NinjaInvocationOutputs: a made-up output stands in where there is none.
    function Outputs(): (r: seq<string>)
      ensures r != []
    {
      if declaredOutputs != [] then declaredOutputs else [phonyOutput]
    }
  }

  datatype AuxiliaryFile = AuxiliaryFile(path: string, chunkPaths: seq<string>)

  datatype Target = Target(
    name: string,
    hasEnvironment: bool,
    writable: bool,
    auxiliaryFiles: seq<AuxiliaryFile>,
    invocations: seq<Invocation>)

  // ----- Node names -----

  function Digits(n: nat): (r: string) {
    if n < 10 then [(n + 48) as char] else Digits(n / 10) + [(n % 10 + 48) as char]
  }

  // std::to_string of the priority converted to int.
  function PriorityText(priority: uint32): string {
    if priority < 0x8000_0000 then Digits(priority) else "-" + Digits(0x1_0000_0000 - priority as int)
  }

  // The number that a decimal text reads as.
  function Decimal(text: string): int {
    if text == "" then 0 else Decimal(text[..|text| - 1]) * 10 + (text[|text| - 1] as int - '0' as int)
  }

  lemma {:induction false} DigitsAreDecimal(n: nat)
    ensures Decimal(Digits(n)) == n && forall i :: 0 <= i < |Digits(n)| ==> '0' <= Digits(n)[i] <= '9'
    ensures |Digits(n)| > 1 ==> Digits(n)[0] != '0'
    ensures |Digits(n)| >= 1 && (|Digits(n)| == 1 <==> n < 10)
  {
    var last := [(n % 10 + 48) as char];
    if n >= 10 {
      DigitsAreDecimal(n / 10);
      assert Digits(n)[..|Digits(n)| - 1] == Digits(n / 10);
      if n < 100 {
        assert n / 10 != 0;
        assert Digits(n / 10) == [(n / 10 + 48) as char];
      }
    } else {
      assert Digits(n)[..0] == "";
    }
  }

  // The text is that of the priority as a signed number of 32 bits.
  lemma PriorityIsSigned(priority: uint32)
    ensures priority < 0x8000_0000 ==> Decimal(PriorityText(priority)) == priority as int
    ensures priority >= 0x8000_0000 ==>
              && PriorityText(priority)[0] == '-'
              && -Decimal(PriorityText(priority)[1..]) == priority as int - 0x1_0000_0000
  {
    if priority < 0x8000_0000 {
      DigitsAreDecimal(priority as nat);
    } else {
      DigitsAreDecimal(0x1_0000_0000 - priority as int);
    }
  }

  function TargetBegin(t: Target): string {
    "begin-target-" + t.name
  }

  function TargetWriteAuxiliaryFiles(t: Target): string {
    "write-auxiliary-files-" + t.name
  }

  function TargetFinish(t: Target): string {
    "finish-target-" + t.name
  }

  function PhaseBegin(t: Target, priority: uint32): string {
    "begin-target-" + t.name + "-phase-priority-" + PriorityText(priority)
  }

  function PhaseFinish(t: Target, priority: uint32): string {
    "finish-target-" + t.name + "-phase-priority-" + PriorityText(priority)
  }

  // ----- The build graph -----

  // A build statement: what it writes, and its explicit, implicit and order-only dependencies.
  datatype Statement = Statement(
    outputs: seq<string>,
    inputs: seq<string>,
    inputDependencies: seq<string>,
    orderDependencies: seq<string>)

  // Explicit and implicit dependencies make what is built from them out of date, order-only ones do not.
  datatype Kind = Explicit | Implicit | OrderOnly

  // Some statement builds x from y, as a dependency of that kind.
  ghost predicate HasEdge(statements: seq<Statement>, k: Kind, x: string, y: string) {
    exists i :: 0 <= i < |statements| && Builds(statements[i], k, x, y)
  }

  predicate Builds(s: Statement, k: Kind, x: string, y: string) {
    && x in s.outputs
    && match k
       case Explicit => y in s.inputs
       case Implicit => y in s.inputDependencies
       case OrderOnly => y in s.orderDependencies
  }

  // x is built after y.
  ghost predicate DependsOn(statements: seq<Statement>, x: string, y: string) {
    exists k :: HasEdge(statements, k, x, y)
  }

  // A newer y makes x out of date.
  ghost predicate OutOfDateBy(statements: seq<Statement>, x: string, y: string) {
    HasEdge(statements, Explicit, x, y) || HasEdge(statements, Implicit, x, y)
  }

  ghost predicate IsChain(statements: seq<Statement>, p: seq<string>) {
    forall i, j :: 0 <= i < j < |p| && j == i + 1 ==> DependsOn(statements, p[i], p[j])
  }

  ghost predicate ChainFrom(statements: seq<Statement>, p: seq<string>, x: string, y: string) {
    |p| >= 2 && p[0] == x && p[|p| - 1] == y && IsChain(statements, p)
  }

  // x is built only after y, over any number of edges.
  ghost predicate Reaches(statements: seq<Statement>, x: string, y: string) {
    exists p :: ChainFrom(statements, p, x, y)
  }

  lemma ReachStep(statements: seq<Statement>, x: string, y: string)
    requires DependsOn(statements, x, y)
    ensures Reaches(statements, x, y)
  {
    assert ChainFrom(statements, [x, y], x, y);
  }

  lemma ReachTransitive(statements: seq<Statement>, x: string, y: string, z: string)
    requires Reaches(statements, x, y) && Reaches(statements, y, z)
    ensures Reaches(statements, x, z)
  {
    hide DependsOn;
    var p :| ChainFrom(statements, p, x, y);
    var q :| ChainFrom(statements, q, y, z);
    var r := p + q[1..];
    forall i, j | 0 <= i < j < |r| && j == i + 1
      ensures DependsOn(statements, r[i], r[j])
    {
      if j < |p| {
        assert r[i] == p[i] && r[j] == p[j];
      } else {
        assert r[j] == q[j - |p| + 1];
        assert r[i] == q[i - |p| + 1];
      }
    }
    assert ChainFrom(statements, r, x, z);
  }

  // A build order that never starts a node before what it depends on respects everything that is reached.
  lemma {:induction false} SchedulesRespectReach(statements: seq<Statement>, time: map<string, int>, x: string,
                                                 y: string)
    requires forall a, b {:trigger DependsOn(statements, a, b)} ::
               DependsOn(statements, a, b) ==> a in time && b in time && time[b] < time[a]
    requires Reaches(statements, x, y)
    ensures x in time && y in time && time[y] < time[x]
  {
    var p :| ChainFrom(statements, p, x, y);
    ChainDescends(statements, time, p, |p| - 1);
  }

  lemma {:induction false} ChainDescends(statements: seq<Statement>, time: map<string, int>, p: seq<string>, k: nat)
    requires forall a, b {:trigger DependsOn(statements, a, b)} ::
               DependsOn(statements, a, b) ==> a in time && b in time && time[b] < time[a]
    requires IsChain(statements, p) && 1 <= k < |p|
    ensures p[0] in time && p[k] in time && time[p[k]] < time[p[0]]
  {
    assert DependsOn(statements, p[k - 1], p[k]);
    if k > 1 {
      ChainDescends(statements, time, p, k - 1);
    }
  }

  // ----- What the edges should be -----

  predicate PriorityInUse(t: Target, p: uint32) {
    exists i :: 0 <= i < |t.invocations| && t.invocations[i].priority == p
  }

  ghost predicate IsPreviousPriority(t: Target, p: uint32, q: uint32) {
    PriorityInUse(t, q) && q < p && forall r: uint32 :: PriorityInUse(t, r) && r < p ==> r <= q
  }

  // The node a phase begins after: the previous phase, or the auxiliary files.
  ghost predicate IsBeforePhase(t: Target, p: uint32, y: string) {
    || (y == TargetWriteAuxiliaryFiles(t) && forall r: uint32 :: PriorityInUse(t, r) ==> p <= r)
    || exists q: uint32 :: IsPreviousPriority(t, p, q) && y == PhaseFinish(t, q)
  }

  ghost predicate IsMaxPriority(t: Target, p: uint32) {
    if t.invocations == [] then p == 0 else PriorityInUse(t, p) && forall r: uint32 :: PriorityInUse(t, r) ==> r <= p
  }

  ghost predicate AuxiliaryEdge(t: Target, i: int, k: Kind, x: string, y: string) {
    && 0 <= i < |t.auxiliaryFiles| && x == t.auxiliaryFiles[i].path
    && ((k.Explicit? && y in t.auxiliaryFiles[i].chunkPaths) || (k.OrderOnly? && y == TargetBegin(t)))
  }

  ghost predicate PhaseBeginEdge(t: Target, p: uint32, k: Kind, x: string, y: string) {
    k.Explicit? && PriorityInUse(t, p) && x == PhaseBegin(t, p) && IsBeforePhase(t, p, y)
  }

  ghost predicate PhaseFinishEdge(t: Target, p: uint32, k: Kind, x: string, y: string) {
    && k.Explicit? && PriorityInUse(t, p) && x == PhaseFinish(t, p)
    && (y == PhaseBegin(t, p)
        || exists i :: 0 <= i < |t.invocations| && t.invocations[i].priority == p && y in t.invocations[i].Outputs())
  }

  // The outputs of an invocation are out of date by its inputs and input dependencies alone.
  ghost predicate RunsAfter(t: Target, invocation: Invocation, k: Kind, x: string, y: string) {
    && invocation.executable.Found? && x in invocation.Outputs()
    && match k
       case Explicit => y in invocation.inputs
       case Implicit => y in invocation.inputDependencies
       case OrderOnly => y in invocation.orderDependencies || y == PhaseBegin(t, invocation.priority)
  }

  ghost predicate InvocationEdge(t: Target, i: int, k: Kind, x: string, y: string) {
    0 <= i < |t.invocations| && RunsAfter(t, t.invocations[i], k, x, y)
  }

  // The edges of the file written for one target: auxiliary files, phases and invocations.
  ghost predicate InnerEdge(t: Target, k: Kind, x: string, y: string) {
    || (exists i :: AuxiliaryEdge(t, i, k, x, y))
    || (exists p: uint32 :: PhaseBeginEdge(t, p, k, x, y))
    || (exists p: uint32 :: PhaseFinishEdge(t, p, k, x, y))
    || (exists i :: InvocationEdge(t, i, k, x, y))
  }

  // The edges of the main file that belong to one target.
  ghost predicate OuterEdge(t: Target, dependencies: set<Target>, k: Kind, x: string, y: string) {
    && k.Explicit?
    && (|| (x == TargetBegin(t) && exists d :: d in dependencies && y == TargetFinish(d))
        || (x == TargetWriteAuxiliaryFiles(t)
            && (y == TargetBegin(t) || exists i :: 0 <= i < |t.auxiliaryFiles| && y == t.auxiliaryFiles[i].path))
        || (x == TargetFinish(t) && exists p: uint32 :: IsMaxPriority(t, p) && y == PhaseFinish(t, p)))
  }

  ghost predicate TargetEdge(t: Target, dependencies: set<Target>, k: Kind, x: string, y: string) {
    InnerEdge(t, k, x, y) || OuterEdge(t, dependencies, k, x, y)
  }

  // ----- What the edges achieve -----

  // All edges of a target are among the emitted ones.
  ghost predicate Emits(statements: seq<Statement>, t: Target, dependencies: set<Target>) {
    forall k, x, y :: TargetEdge(t, dependencies, k, x, y) ==> HasEdge(statements, k, x, y)
  }

  lemma EmittedReach(statements: seq<Statement>, t: Target, dependencies: set<Target>, k: Kind, x: string, y: string)
    requires Emits(statements, t, dependencies) && TargetEdge(t, dependencies, k, x, y)
    ensures Reaches(statements, x, y)
  {
    assert HasEdge(statements, k, x, y);
    ReachStep(statements, x, y);
  }

  // The greatest priority in use below p, if there is one.
  lemma {:induction false} PreviousPriority(t: Target, p: uint32, upTo: nat) returns (q: Option<uint32>)
    requires upTo <= |t.invocations|
    ensures q.Some? ==> PriorityInUse(t, q.value) && q.value < p
                        && forall i :: 0 <= i < upTo && t.invocations[i].priority < p ==>
                             t.invocations[i].priority <= q.value
    ensures q.None? ==> forall i :: 0 <= i < upTo ==> p <= t.invocations[i].priority
  {
    q := None;
    if upTo > 0 {
      q := PreviousPriority(t, p, upTo - 1);
      var r := t.invocations[upTo - 1].priority;
      if r < p && (q.None? || q.value < r) {
        assert PriorityInUse(t, r);
        q := Some(r);
      }
    }
  }

  // Every phase in use begins after the target begins and after every lower phase is finished.
  lemma {:induction false} PhaseBeginsLate(statements: seq<Statement>, t: Target, dependencies: set<Target>, p: uint32)
    requires Emits(statements, t, dependencies) && PriorityInUse(t, p)
    ensures Reaches(statements, PhaseBegin(t, p), TargetBegin(t))
    ensures forall q: uint32 ::
              PriorityInUse(t, q) && q < p ==> Reaches(statements, PhaseBegin(t, p), PhaseFinish(t, q))
    decreases p
  {
    hide Reaches, PhaseBegin, PhaseFinish, TargetBegin, TargetWriteAuxiliaryFiles, TargetFinish;
    var previous := PreviousPriority(t, p, |t.invocations|);
    match previous {
      case None =>
        assert PhaseBeginEdge(t, p, Explicit, PhaseBegin(t, p), TargetWriteAuxiliaryFiles(t));
        EmittedReach(statements, t, dependencies, Explicit, PhaseBegin(t, p), TargetWriteAuxiliaryFiles(t));
        EmittedReach(statements, t, dependencies, Explicit, TargetWriteAuxiliaryFiles(t), TargetBegin(t));
        ReachTransitive(statements, PhaseBegin(t, p), TargetWriteAuxiliaryFiles(t), TargetBegin(t));
      case Some(r) =>
        assert IsPreviousPriority(t, p, r);
        assert PhaseBeginEdge(t, p, Explicit, PhaseBegin(t, p), PhaseFinish(t, r));
        EmittedReach(statements, t, dependencies, Explicit, PhaseBegin(t, p), PhaseFinish(t, r));
        assert PhaseFinishEdge(t, r, Explicit, PhaseFinish(t, r), PhaseBegin(t, r));
        EmittedReach(statements, t, dependencies, Explicit, PhaseFinish(t, r), PhaseBegin(t, r));
        ReachTransitive(statements, PhaseBegin(t, p), PhaseFinish(t, r), PhaseBegin(t, r));
        PhaseBeginsLate(statements, t, dependencies, r);
        ReachTransitive(statements, PhaseBegin(t, p), PhaseBegin(t, r), TargetBegin(t));
        forall q: uint32 | PriorityInUse(t, q) && q < p
          ensures Reaches(statements, PhaseBegin(t, p), PhaseFinish(t, q))
        {
          if q != r {
            ReachTransitive(statements, PhaseBegin(t, p), PhaseBegin(t, r), PhaseFinish(t, q));
          }
        }
    }
  }

  ghost predicate IsOutput(t: Target, i: nat, o: string) {
    i < |t.invocations| && o in t.invocations[i].Outputs()
  }

  // Within a target: an executable invocation comes after the target's begin node and after every output of every
  // lower phase.
  lemma InvocationFollowsLowerPhases(statements: seq<Statement>, t: Target, dependencies: set<Target>, i: nat,
                                     o: string)
    requires Emits(statements, t, dependencies)
    requires IsOutput(t, i, o) && t.invocations[i].executable.Found?
    ensures Reaches(statements, o, TargetBegin(t))
    ensures forall j: nat, lower: string ::
              IsOutput(t, j, lower) && t.invocations[j].priority < t.invocations[i].priority ==>
              Reaches(statements, o, lower)
  {
    hide Reaches, PhaseBegin, PhaseFinish, TargetBegin;
    var p := t.invocations[i].priority;
    assert PriorityInUse(t, p);
    assert InvocationEdge(t, i, OrderOnly, o, PhaseBegin(t, p));
    EmittedReach(statements, t, dependencies, OrderOnly, o, PhaseBegin(t, p));
    PhaseBeginsLate(statements, t, dependencies, p);
    ReachTransitive(statements, o, PhaseBegin(t, p), TargetBegin(t));
    forall j: nat, lower: string | IsOutput(t, j, lower) && t.invocations[j].priority < p
      ensures Reaches(statements, o, lower)
    {
      var q := t.invocations[j].priority;
      assert PriorityInUse(t, q);
      assert PhaseFinishEdge(t, q, Explicit, PhaseFinish(t, q), lower);
      EmittedReach(statements, t, dependencies, Explicit, PhaseFinish(t, q), lower);
      ReachTransitive(statements, o, PhaseBegin(t, p), PhaseFinish(t, q));
      ReachTransitive(statements, o, PhaseFinish(t, q), lower);
    }
  }

  lemma {:induction false} MaxPriority(t: Target, upTo: nat) returns (p: uint32)
    requires 0 < upTo <= |t.invocations|
    ensures PriorityInUse(t, p) && forall i :: 0 <= i < upTo ==> t.invocations[i].priority <= p
  {
    p := t.invocations[upTo - 1].priority;
    assert PriorityInUse(t, p);
    if upTo > 1 {
      var q := MaxPriority(t, upTo - 1);
      if p < q {
        p := q;
      }
    }
  }

  // A target with an invocation finishes after all its outputs.
  lemma FinishFollowsOutputs(statements: seq<Statement>, t: Target, dependencies: set<Target>, i: nat, o: string)
    requires Emits(statements, t, dependencies) && IsOutput(t, i, o)
    ensures Reaches(statements, TargetFinish(t), o)
  {
    hide Reaches, PhaseBegin, PhaseFinish, TargetBegin, TargetFinish;
    var q := t.invocations[i].priority;
    assert PriorityInUse(t, q);
    var p := MaxPriority(t, |t.invocations|);
    assert IsMaxPriority(t, p);
    EmittedReach(statements, t, dependencies, Explicit, TargetFinish(t), PhaseFinish(t, p));
    assert PhaseFinishEdge(t, q, Explicit, PhaseFinish(t, q), o);
    EmittedReach(statements, t, dependencies, Explicit, PhaseFinish(t, q), o);
    if q < p {
      assert PhaseFinishEdge(t, p, Explicit, PhaseFinish(t, p), PhaseBegin(t, p));
      EmittedReach(statements, t, dependencies, Explicit, PhaseFinish(t, p), PhaseBegin(t, p));
      PhaseBeginsLate(statements, t, dependencies, p);
      ReachTransitive(statements, PhaseFinish(t, p), PhaseBegin(t, p), PhaseFinish(t, q));
      ReachTransitive(statements, TargetFinish(t), PhaseFinish(t, p), PhaseFinish(t, q));
    }
    ReachTransitive(statements, TargetFinish(t), PhaseFinish(t, q), o);
  }

  // Across targets: with an edge from t to d in the target graph, every invocation of t comes after every output of d.
  lemma InvocationFollowsDependency(statements: seq<Statement>, t: Target, dependencies: set<Target>, i: nat, o: string,
                                    d: Target, dependenciesOfD: set<Target>, j: nat, earlier: string)
    requires Emits(statements, t, dependencies) && Emits(statements, d, dependenciesOfD)
    requires d in dependencies
    requires IsOutput(t, i, o) && t.invocations[i].executable.Found?
    requires IsOutput(d, j, earlier)
    ensures Reaches(statements, o, earlier)
  {
    hide Reaches, PhaseBegin, PhaseFinish, TargetBegin, TargetFinish;
    InvocationFollowsLowerPhases(statements, t, dependencies, i, o);
    EmittedReach(statements, t, dependencies, Explicit, TargetBegin(t), TargetFinish(d));
    ReachTransitive(statements, o, TargetBegin(t), TargetFinish(d));
    FinishFollowsOutputs(statements, d, dependenciesOfD, j, earlier);
    ReachTransitive(statements, o, TargetFinish(d), earlier);
  }

  // A target with an invocation finishes after it begins.
  lemma FinishFollowsBegin(statements: seq<Statement>, t: Target, dependencies: set<Target>)
    requires Emits(statements, t, dependencies) && t.invocations != []
    ensures Reaches(statements, TargetFinish(t), TargetBegin(t))
  {
    hide Reaches, PhaseBegin, PhaseFinish, TargetBegin, TargetFinish;
    var p := MaxPriority(t, |t.invocations|);
    assert IsMaxPriority(t, p);
    EmittedReach(statements, t, dependencies, Explicit, TargetFinish(t), PhaseFinish(t, p));
    assert PhaseFinishEdge(t, p, Explicit, PhaseFinish(t, p), PhaseBegin(t, p));
    EmittedReach(statements, t, dependencies, Explicit, PhaseFinish(t, p), PhaseBegin(t, p));
    PhaseBeginsLate(statements, t, dependencies, p);
    ReachTransitive(statements, TargetFinish(t), PhaseFinish(t, p), PhaseBegin(t, p));
    ReachTransitive(statements, TargetFinish(t), PhaseBegin(t, p), TargetBegin(t));
  }

  // Each target depends on the next one; those in between have an invocation.
  ghost predicate IsTargetChain(adjacency: Adjacency<Target>, p: seq<Target>) {
    && |p| >= 2
    && (forall i, j :: 0 <= i < j < |p| && j == i + 1 ==> p[j] in Successors(adjacency, p[i]))
    && forall i :: 0 < i < |p| - 1 ==> p[i].invocations != []
  }

  // Along such a chain the first target begins after the last one finishes.
  lemma {:induction false} BeginFollowsChain(statements: seq<Statement>, adjacency: Adjacency<Target>, p: seq<Target>)
    requires IsTargetChain(adjacency, p)
    requires forall t :: t in p ==> Emits(statements, t, Successors(adjacency, t))
    ensures Reaches(statements, TargetBegin(p[0]), TargetFinish(p[|p| - 1]))
    decreases |p|
  {
    hide Reaches, Emits, TargetBegin, TargetFinish, Successors;
    var first, second := p[0], p[1];
    FinishBeforeBegin(statements, first, Successors(adjacency, first), second);
    if |p| > 2 {
      FinishFollowsBegin(statements, second, Successors(adjacency, second));
      ReachTransitive(statements, TargetBegin(first), TargetFinish(second), TargetBegin(second));
      BeginFollowsChain(statements, adjacency, p[1..]);
      ReachTransitive(statements, TargetBegin(first), TargetBegin(second), TargetFinish(p[|p| - 1]));
    }
  }

  lemma FinishBeforeBegin(statements: seq<Statement>, t: Target, dependencies: set<Target>, d: Target)
    requires Emits(statements, t, dependencies) && d in dependencies
    ensures Reaches(statements, TargetBegin(t), TargetFinish(d))
  {
    hide Reaches, TargetBegin, TargetFinish;
    EmittedReach(statements, t, dependencies, Explicit, TargetBegin(t), TargetFinish(d));
  }

  // Every invocation of the first target of a chain comes after every output of the last one.
  lemma InvocationFollowsChain(statements: seq<Statement>, adjacency: Adjacency<Target>, p: seq<Target>, i: nat,
                               o: string, j: nat, earlier: string)
    requires IsTargetChain(adjacency, p)
    requires forall t :: t in p ==> Emits(statements, t, Successors(adjacency, t))
    requires IsOutput(p[0], i, o) && p[0].invocations[i].executable.Found?
    requires IsOutput(p[|p| - 1], j, earlier)
    ensures Reaches(statements, o, earlier)
  {
    hide Reaches, Emits, TargetBegin, TargetFinish, Successors;
    var t, d := p[0], p[|p| - 1];
    InvocationFollowsLowerPhases(statements, t, Successors(adjacency, t), i, o);
    BeginFollowsChain(statements, adjacency, p);
    ReachTransitive(statements, o, TargetBegin(t), TargetFinish(d));
    FinishFollowsOutputs(statements, d, Successors(adjacency, d), j, earlier);
    ReachTransitive(statements, o, TargetFinish(d), earlier);
  }

  // ----- Emitting the statements -----

  lemma AppendEdges(before: seq<Statement>, added: seq<Statement>)
    ensures forall k, x, y {:trigger HasEdge(before + added, k, x, y)} ::
              HasEdge(before + added, k, x, y) <==> HasEdge(before, k, x, y) || HasEdge(added, k, x, y)
  {
    hide Builds;
    forall k, x, y
      ensures HasEdge(before + added, k, x, y) <==> HasEdge(before, k, x, y) || HasEdge(added, k, x, y)
    {
      if HasEdge(before, k, x, y) {
        var i :| 0 <= i < |before| && Builds(before[i], k, x, y);
        assert Builds((before + added)[i], k, x, y);
      }
      if HasEdge(added, k, x, y) {
        var i :| 0 <= i < |added| && Builds(added[i], k, x, y);
        assert Builds((before + added)[|before| + i], k, x, y);
      }
    }
  }

  lemma SingleEdges(s: Statement)
    ensures forall k, x, y {:trigger HasEdge([s], k, x, y)} :: HasEdge([s], k, x, y) <==> Builds(s, k, x, y)
  {
    hide Builds;
    forall k, x, y
      ensures HasEdge([s], k, x, y) <==> Builds(s, k, x, y)
    {
      if Builds(s, k, x, y) {
        assert Builds([s][0], k, x, y);
      }
    }
  }

  // Some statement builds x from nothing.
  ghost predicate Alone(statements: seq<Statement>, x: string) {
    exists i :: 0 <= i < |statements| && BuildsAlone(statements[i], x)
  }

  predicate BuildsAlone(s: Statement, x: string) {
    x in s.outputs && s.inputs == [] && s.inputDependencies == [] && s.orderDependencies == []
  }

  lemma AppendAlone(before: seq<Statement>, added: seq<Statement>)
    ensures forall x {:trigger Alone(before + added, x)} ::
              Alone(before + added, x) <==> Alone(before, x) || Alone(added, x)
  {
    hide BuildsAlone;
    forall x
      ensures Alone(before + added, x) <==> Alone(before, x) || Alone(added, x)
    {
      if Alone(before, x) {
        var i :| 0 <= i < |before| && BuildsAlone(before[i], x);
        assert BuildsAlone((before + added)[i], x);
      }
      if Alone(added, x) {
        var i :| 0 <= i < |added| && BuildsAlone(added[i], x);
        assert BuildsAlone((before + added)[|before| + i], x);
      }
    }
  }

  lemma SingleAlone(s: Statement)
    ensures forall x {:trigger Alone([s], x)} :: Alone([s], x) <==> BuildsAlone(s, x)
  {
    hide BuildsAlone;
    forall x
      ensures Alone([s], x) <==> BuildsAlone(s, x)
    {
      if BuildsAlone(s, x) {
        assert BuildsAlone([s][0], x);
      }
    }
  }

  // Every new statement has a dependency.
  ghost predicate NothingAlone(before: seq<Statement>, after: seq<Statement>) {
    forall x :: Alone(after, x) ==> Alone(before, x)
  }

  // libninja's writer, as far as dependencies go. The statements of a file read in with `subninja` count as its own.
  class Writer {
    var statements: seq<Statement>

    constructor ()
      ensures statements == []
    {
      statements := [];
    }

    method Build(outputs: seq<string>, inputs: seq<string>, inputDependencies: seq<string>,
                 orderDependencies: seq<string>)
      modifies this
      ensures statements == old(statements) + [Statement(outputs, inputs, inputDependencies, orderDependencies)]
      ensures forall k, x, y :: HasEdge(statements, k, x, y)
                <==> HasEdge(old(statements), k, x, y)
                     || Builds(Statement(outputs, inputs, inputDependencies, orderDependencies), k, x, y)
      ensures forall x :: Alone(statements, x)
                <==> Alone(old(statements), x)
                     || BuildsAlone(Statement(outputs, inputs, inputDependencies, orderDependencies), x)
    {
      hide HasEdge, Builds, Alone, BuildsAlone;
      var s := Statement(outputs, inputs, inputDependencies, orderDependencies);
      AppendEdges(statements, [s]);
      SingleEdges(s);
      AppendAlone(statements, [s]);
      SingleAlone(s);
      statements := statements + [s];
    }

    method Subninja(file: seq<Statement>)
      modifies this
      ensures statements == old(statements) + file
      ensures forall k, x, y ::
                HasEdge(statements, k, x, y) <==> HasEdge(old(statements), k, x, y) || HasEdge(file, k, x, y)
      ensures forall x :: Alone(statements, x) <==> Alone(old(statements), x) || Alone(file, x)
    {
      hide HasEdge, Alone;
      AppendEdges(statements, file);
      AppendAlone(statements, file);
      statements := statements + file;
    }
  }

  ghost predicate AuxiliaryEdges(t: Target, n: nat, k: Kind, x: string, y: string) {
    exists i :: 0 <= i < n && AuxiliaryEdge(t, i, k, x, y)
  }

  ghost predicate PhaseEdges(t: Target, done: set<uint32>, k: Kind, x: string, y: string) {
    exists p: uint32 :: p in done && (PhaseBeginEdge(t, p, k, x, y) || PhaseFinishEdge(t, p, k, x, y))
  }

  ghost predicate InvocationEdges(t: Target, n: nat, k: Kind, x: string, y: string) {
    exists i :: 0 <= i < n && InvocationEdge(t, i, k, x, y)
  }

  ghost predicate IsGroup(t: Target, n: nat, p: uint32, o: string) {
    exists i: nat :: i < n && IsOutput(t, i, o) && t.invocations[i].priority == p
  }

  // Every priority in use, with the outputs of its invocations. An invocation without executable is grouped as well.
  method GroupOutputs(t: Target) returns (groups: map<uint32, set<string>>)
    ensures forall p: uint32 :: p in groups <==> PriorityInUse(t, p)
    ensures forall p: uint32, o: string :: p in groups ==> (o in groups[p] <==> IsGroup(t, |t.invocations|, p, o))
  {
    groups := map[];
    for n := 0 to |t.invocations|
      invariant forall p: uint32 :: p in groups <==> exists i :: 0 <= i < n && t.invocations[i].priority == p
      invariant forall p: uint32, o: string :: p in groups ==> (o in groups[p] <==> IsGroup(t, n, p, o))
    {
      var p := t.invocations[n].priority;
      var outputs := Elements(t.invocations[n].Outputs());
      ghost var before := groups;
      var known := if p in groups then groups[p] else {};
      groups := groups[p := known + outputs];
      forall q: uint32, o: string | q in groups
        ensures o in groups[q] <==> IsGroup(t, n + 1, q, o)
      {
        GroupGrows(t, n, q, o);
        if q == p && p !in before {
          assert !IsGroup(t, n, q, o);
        }
      }
    }
  }

  lemma GroupGrows(t: Target, n: nat, q: uint32, o: string)
    requires n < |t.invocations|
    ensures IsGroup(t, n + 1, q, o) <==> IsGroup(t, n, q, o) || (IsOutput(t, n, o) && t.invocations[n].priority == q)
  {
  }

  // Iteration over an ordered map visits the least key first.
  method Least(keys: set<uint32>) returns (least: uint32)
    requires keys != {}
    ensures least in keys && forall p: uint32 :: p in keys ==> least <= p
  {
    least :| least in keys;
    var rest := keys - {least};
    while rest != {}
      invariant least in keys && rest <= keys
      invariant forall p: uint32 :: p in keys && p !in rest ==> least <= p
    {
      var p :| p in rest;
      if p < least {
        least := p;
      }
      rest := rest - {p};
    }
  }

  // What `previousPhase` holds once the phases in `done` are written.
  ghost predicate IsPreviousPhase(t: Target, done: set<uint32>, previous: string) {
    if done == {} then previous == TargetWriteAuxiliaryFiles(t)
    else exists m: uint32 :: m in done && (forall p: uint32 :: p in done ==> p <= m) && previous == PhaseFinish(t, m)
  }

  lemma NextPhaseFollowsPrevious(t: Target, done: set<uint32>, previous: string, p: uint32)
    requires IsPreviousPhase(t, done, previous) && PriorityInUse(t, p)
    requires forall q: uint32 :: PriorityInUse(t, q) && q < p <==> q in done
    ensures forall y :: IsBeforePhase(t, p, y) <==> y == previous
  {
    hide PriorityInUse;
    if done == {} {
      forall q: uint32 | PriorityInUse(t, q) ensures p <= q { assert q !in done; }
    } else {
      var m: uint32 :| m in done && (forall q: uint32 :: q in done ==> q <= m) && previous == PhaseFinish(t, m);
      assert IsPreviousPriority(t, p, m);
      forall q: uint32 | IsPreviousPriority(t, p, q) ensures q == m { assert q in done; }
      assert PriorityInUse(t, m) && m < p;
    }
  }

  method WritePhase(writer: Writer, t: Target, p: uint32, outputs: set<string>, previous: string)
    requires PriorityInUse(t, p)
    requires forall o :: o in outputs <==> IsGroup(t, |t.invocations|, p, o)
    requires forall y :: IsBeforePhase(t, p, y) <==> y == previous
    modifies writer
    ensures forall k, x, y :: HasEdge(writer.statements, k, x, y)
              <==> HasEdge(old(writer.statements), k, x, y)
                   || PhaseBeginEdge(t, p, k, x, y) || PhaseFinishEdge(t, p, k, x, y)
    ensures NothingAlone(old(writer.statements), writer.statements)
  {
    hide HasEdge, Alone, PhaseBegin, PhaseFinish, IsBeforePhase;
    writer.Build([PhaseBegin(t, p)], [previous], [], []);
    var sorted := Iterate(outputs);
    assert forall o :: o in sorted <==> o in Elements(sorted);
    writer.Build([PhaseFinish(t, p)], [PhaseBegin(t, p)] + sorted, [], []);
    forall y
      ensures y in sorted
              <==> exists i :: 0 <= i < |t.invocations| && t.invocations[i].priority == p
                               && y in t.invocations[i].Outputs()
    {
      if i: nat :| i < |t.invocations| && IsOutput(t, i, y) && t.invocations[i].priority == p {
      }
      if i :| 0 <= i < |t.invocations| && t.invocations[i].priority == p && y in t.invocations[i].Outputs() {
        assert IsOutput(t, i, y);
      }
    }
  }

  // One pair of statements per phase, in ascending order of priority, each phase begun by the end of the one before.
  method WritePhases(writer: Writer, t: Target)
    modifies writer
    ensures forall k, x, y :: HasEdge(writer.statements, k, x, y)
              <==> HasEdge(old(writer.statements), k, x, y)
                   || (exists p: uint32 :: PhaseBeginEdge(t, p, k, x, y))
                   || (exists p: uint32 :: PhaseFinishEdge(t, p, k, x, y))
    ensures NothingAlone(old(writer.statements), writer.statements)
  {
    hide HasEdge, Alone, PriorityInUse, PhaseBeginEdge, PhaseFinishEdge, IsBeforePhase;
    var groups := GroupOutputs(t);
    var previous := TargetWriteAuxiliaryFiles(t);
    var rest := groups.Keys;
    ghost var done: set<uint32> := {};
    while rest != {}
      invariant done + rest == groups.Keys
      invariant forall p: uint32, q: uint32 :: p in done && q in rest ==> p < q
      invariant IsPreviousPhase(t, done, previous)
      invariant forall k, x, y :: HasEdge(writer.statements, k, x, y)
                  <==> HasEdge(old(writer.statements), k, x, y) || PhaseEdges(t, done, k, x, y)
      invariant NothingAlone(old(writer.statements), writer.statements)
    {
      var p := Least(rest);
      forall q: uint32
        ensures PriorityInUse(t, q) && q < p <==> q in done
      {
      }
      NextPhaseFollowsPrevious(t, done, previous, p);
      WritePhase(writer, t, p, groups[p], previous);
      previous := PhaseFinish(t, p);
      assert IsPreviousPhase(t, done + {p}, previous);
      rest := rest - {p};
      done := done + {p};
    }
    forall k, x, y
      ensures PhaseEdges(t, done, k, x, y)
              <==> (exists p: uint32 :: PhaseBeginEdge(t, p, k, x, y))
                   || (exists p: uint32 :: PhaseFinishEdge(t, p, k, x, y))
    {
      PhaseEdgesInUse(t, done, k, x, y);
    }
  }

  lemma PhaseEdgesInUse(t: Target, done: set<uint32>, k: Kind, x: string, y: string)
    requires forall p: uint32 :: PriorityInUse(t, p) ==> p in done
    ensures PhaseEdges(t, done, k, x, y)
            <==> (exists p: uint32 :: PhaseBeginEdge(t, p, k, x, y))
                 || (exists p: uint32 :: PhaseFinishEdge(t, p, k, x, y))
  {
    hide PriorityInUse, IsBeforePhase;
    if p: uint32 :| PhaseBeginEdge(t, p, k, x, y) {
      assert PriorityInUse(t, p);
    }
    if p: uint32 :| PhaseFinishEdge(t, p, k, x, y) {
      assert PriorityInUse(t, p);
    }
  }

  method BuildAuxiliaryFile(writer: Writer, file: AuxiliaryFile, after: string)
    modifies writer
    ensures forall k, x, y :: HasEdge(writer.statements, k, x, y)
              <==> HasEdge(old(writer.statements), k, x, y)
                   || (x == file.path
                       && ((k.Explicit? && y in file.chunkPaths) || (k.OrderOnly? && y == after)))
    ensures NothingAlone(old(writer.statements), writer.statements)
  {
    hide HasEdge, Alone;
    var inputs: seq<string> := [];
    for i := 0 to |file.chunkPaths|
      invariant inputs == file.chunkPaths[..i]
    {
      inputs := inputs + [file.chunkPaths[i]];
    }
    writer.Build([file.path], inputs, [], [after]);
  }

  method BuildInvocation(writer: Writer, invocation: Invocation, after: string) returns (ok: bool)
    modifies writer
    ensures ok <==> invocation.formatsKnown
    ensures ok ==> forall k, x, y :: HasEdge(writer.statements, k, x, y)
                     <==> HasEdge(old(writer.statements), k, x, y)
                          || (x in invocation.Outputs()
                              && match k
                                 case Explicit => y in invocation.inputs
                                 case Implicit => y in invocation.inputDependencies
                                 case OrderOnly => y in invocation.orderDependencies || y == after)
    ensures NothingAlone(old(writer.statements), writer.statements)
  {
    hide HasEdge, Alone;
    if !invocation.formatsKnown {
      return false;
    }
    var orderDependencies := invocation.orderDependencies + [after];
    writer.Build(invocation.Outputs(), invocation.inputs, invocation.inputDependencies, orderDependencies);
    return true;
  }

  predicate CanRun(invocation: Invocation) {
    !invocation.executable.NotFound? && (invocation.executable.Found? ==> invocation.formatsKnown)
  }

  predicate CanBuild(t: Target) {
    t.writable && forall i :: 0 <= i < |t.invocations| ==> CanRun(t.invocations[i])
  }

  // The file of one target. There is none when an executable or the name of a format is missing.
  method BuildTargetInvocations(t: Target) returns (result: Option<seq<Statement>>)
    ensures result.Some? <==> CanBuild(t)
    ensures result.Some? ==> forall k, x, y :: HasEdge(result.value, k, x, y) <==> InnerEdge(t, k, x, y)
    ensures result.Some? ==> NothingAlone([], result.value)
  {
    hide HasEdge, Alone, AuxiliaryEdge, InvocationEdge, PhaseBeginEdge, PhaseFinishEdge, InnerEdge;
    var writer := new Writer();
    assert forall k, x, y :: !HasEdge(writer.statements, k, x, y) by {
      NoEdges();
    }
    for i := 0 to |t.auxiliaryFiles|
      invariant forall k, x, y :: HasEdge(writer.statements, k, x, y) <==> AuxiliaryEdges(t, i, k, x, y)
      invariant fresh(writer) && NothingAlone([], writer.statements)
    {
      BuildAuxiliaryFile(writer, t.auxiliaryFiles[i], TargetBegin(t));
      forall k, x, y
        ensures HasEdge(writer.statements, k, x, y) <==> AuxiliaryEdges(t, i + 1, k, x, y)
      {
        OneMoreAuxiliary(t, i, k, x, y);
      }
    }
    WritePhases(writer, t);
    ghost var phased := writer.statements;
    for i := 0 to |t.invocations|
      invariant forall k :: 0 <= k < i ==> CanRun(t.invocations[k])
      invariant forall k, x, y ::
                  HasEdge(writer.statements, k, x, y) <==> HasEdge(phased, k, x, y) || InvocationEdges(t, i, k, x, y)
      invariant fresh(writer) && NothingAlone([], writer.statements)
    {
      forall k, x, y
        ensures InvocationEdges(t, i + 1, k, x, y)
                <==> InvocationEdges(t, i, k, x, y) || RunsAfter(t, t.invocations[i], k, x, y)
      {
        OneMoreInvocation(t, i, k, x, y);
      }
      var invocation := t.invocations[i];
      if !invocation.executable.NoExecutable? {
        if invocation.executable.NotFound? {
          return None;
        }
        var ok := BuildInvocation(writer, invocation, PhaseBegin(t, invocation.priority));
        if !ok {
          return None;
        }
      }
    }
    if !t.writable {
      return None;
    }
    forall k, x, y
      ensures HasEdge(writer.statements, k, x, y) <==> InnerEdge(t, k, x, y)
    {
      AllEdges(t, k, x, y);
    }
    return Some(writer.statements);
  }

  lemma NoEdges()
    ensures forall k, x, y :: !HasEdge([], k, x, y)
    ensures forall x :: !Alone([], x)
  {
  }

  lemma OneMoreAuxiliary(t: Target, i: nat, k: Kind, x: string, y: string)
    requires i < |t.auxiliaryFiles|
    ensures AuxiliaryEdges(t, i + 1, k, x, y) <==>
              || AuxiliaryEdges(t, i, k, x, y)
              || (x == t.auxiliaryFiles[i].path
                  && ((k.Explicit? && y in t.auxiliaryFiles[i].chunkPaths) || (k.OrderOnly? && y == TargetBegin(t))))
  {
    assert AuxiliaryEdge(t, i, k, x, y) ==> AuxiliaryEdges(t, i + 1, k, x, y);
  }

  lemma OneMoreInvocation(t: Target, i: nat, k: Kind, x: string, y: string)
    requires i < |t.invocations|
    ensures InvocationEdges(t, i + 1, k, x, y)
            <==> InvocationEdges(t, i, k, x, y) || RunsAfter(t, t.invocations[i], k, x, y)
  {
    assert InvocationEdge(t, i, k, x, y) ==> InvocationEdges(t, i + 1, k, x, y);
  }

  lemma AllEdges(t: Target, k: Kind, x: string, y: string)
    ensures InnerEdge(t, k, x, y) <==>
              || AuxiliaryEdges(t, |t.auxiliaryFiles|, k, x, y)
              || InvocationEdges(t, |t.invocations|, k, x, y)
              || (exists p: uint32 :: PhaseBeginEdge(t, p, k, x, y))
              || (exists p: uint32 :: PhaseFinishEdge(t, p, k, x, y))
  {
    hide PhaseBeginEdge, PhaseFinishEdge, RunsAfter;
    if i :| AuxiliaryEdge(t, i, k, x, y) {
      assert 0 <= i < |t.auxiliaryFiles|;
    }
    if i :| InvocationEdge(t, i, k, x, y) {
      assert 0 <= i < |t.invocations|;
    }
    if AuxiliaryEdges(t, |t.auxiliaryFiles|, k, x, y) {
      var i :| 0 <= i < |t.auxiliaryFiles| && AuxiliaryEdge(t, i, k, x, y);
    }
    if InvocationEdges(t, |t.invocations|, k, x, y) {
      var i :| 0 <= i < |t.invocations| && InvocationEdge(t, i, k, x, y);
    }
  }

  // ----- The whole build -----

  ghost predicate IsPhonyInput(t: Target, x: string) {
    && (exists i :: 0 <= i < |t.invocations| && x in t.invocations[i].phonyInputs)
    && !WritesOutput(t, x)
  }

  // Some invocation that runs writes x.
  ghost predicate WritesOutput(t: Target, x: string) {
    exists i :: 0 <= i < |t.invocations| && !t.invocations[i].executable.NoExecutable?
                && x in t.invocations[i].Outputs()
  }

  ghost predicate Defines(statements: seq<Statement>, x: string) {
    exists i :: 0 <= i < |statements| && x in statements[i].outputs
  }

  // Nodes that need a rule although they may depend on nothing.
  ghost predicate IsRoot(t: Target, x: string) {
    x == TargetBegin(t) || IsPhonyInput(t, x)
  }

  ghost predicate RootsDefined(statements: seq<Statement>, t: Target) {
    forall x :: IsRoot(t, x) ==> Defines(statements, x)
  }

  lemma DefinedIn(before: seq<Statement>, part: seq<Statement>, after: seq<Statement>, x: string)
    requires Defines(part, x)
    ensures Defines(before + part + after, x)
  {
    var i :| 0 <= i < |part| && x in part[i].outputs;
    assert x in (before + part + after)[|before| + i].outputs;
  }

  lemma DefinedInLonger(part: seq<Statement>, whole: seq<Statement>, t: Target)
    requires RootsDefined(part, t) && part <= whole
    ensures RootsDefined(whole, t)
  {
    hide IsRoot, Defines;
    forall x | IsRoot(t, x)
      ensures Defines(whole, x)
    {
      assert whole == [] + part + whole[|part|..];
      DefinedIn([], part, whole[|part|..], x);
    }
  }

  // The rules of a target: the one of its begin node first, those of its phony inputs last.
  lemma RootsOf(before: seq<Statement>, begin: Statement, between: seq<Statement>, phony: seq<Statement>, t: Target)
    requires begin.outputs == [TargetBegin(t)] && forall x :: IsPhonyInput(t, x) ==> Defines(phony, x)
    ensures RootsDefined(before + [begin] + between + phony, t)
  {
    hide IsPhonyInput, Defines;
    var all := before + [begin] + between + phony;
    forall x | IsRoot(t, x)
      ensures Defines(all, x)
    {
      if x == TargetBegin(t) {
        OneRule(begin, x);
        assert all == before + [begin] + (between + phony);
        DefinedIn(before, [begin], between + phony, x);
      } else {
        assert all == (before + [begin] + between) + phony + [];
        DefinedIn(before + [begin] + between, phony, [], x);
      }
    }
  }

  lemma OneRule(s: Statement, x: string)
    requires x in s.outputs
    ensures Defines([s], x)
  {
    assert x in [s][0].outputs;
  }

  // Rules for inputs that may not exist, none of them for a name an invocation writes.
  method PhonyInputs(t: Target) returns (rules: seq<Statement>)
    ensures forall s :: s in rules ==> s.inputs == [] && s.inputDependencies == [] && s.orderDependencies == []
    ensures forall x :: Defines(rules, x) <==> IsPhonyInput(t, x)
    ensures forall k, x, y :: !HasEdge(rules, k, x, y)
    ensures forall x :: Alone(rules, x) ==> IsPhonyInput(t, x)
  {
    var outputs: set<string> := {};
    for i := 0 to |t.invocations|
      invariant forall x :: x in outputs
                  <==> exists k :: 0 <= k < i && !t.invocations[k].executable.NoExecutable?
                                   && x in t.invocations[k].Outputs()
    {
      if !t.invocations[i].executable.NoExecutable? {
        outputs := outputs + Elements(t.invocations[i].Outputs());
      }
    }
    assert forall x :: x in outputs <==> WritesOutput(t, x);

    rules := [];
    for i := 0 to |t.invocations|
      invariant forall s :: s in rules ==> s.inputs == [] && s.inputDependencies == [] && s.orderDependencies == []
      invariant forall x :: Defines(rules, x)
                  <==> x !in outputs && exists k :: 0 <= k < i && x in t.invocations[k].phonyInputs
    {
      var inputs := t.invocations[i].phonyInputs;
      ghost var before := rules;
      for j := 0 to |inputs|
        invariant forall s :: s in rules ==> s.inputs == [] && s.inputDependencies == [] && s.orderDependencies == []
        invariant forall x :: Defines(rules, x) <==> Defines(before, x) || (x !in outputs && x in inputs[..j])
      {
        if inputs[j] !in outputs {
          OneMoreRule(rules, Statement([inputs[j]], [], [], []));
          rules := rules + [Statement([inputs[j]], [], [], [])];
        }
      }
    }
  }

  lemma OneMoreRule(rules: seq<Statement>, s: Statement)
    ensures forall x :: Defines(rules + [s], x) <==> Defines(rules, x) || x in s.outputs
  {
    forall x
      ensures Defines(rules + [s], x) <==> Defines(rules, x) || x in s.outputs
    {
      if Defines(rules, x) {
        var i :| 0 <= i < |rules| && x in rules[i].outputs;
        assert x in (rules + [s])[i].outputs;
      }
      if x in s.outputs {
        assert x in (rules + [s])[|rules|].outputs;
      }
    }
  }

  // The edges of the targets in `built`, and of the rule that regenerates the files.
  ghost predicate BuildEdge(built: set<Target>, adjacency: Adjacency<Target>, k: Kind, x: string, y: string) {
    exists t :: t in built && t.hasEnvironment && TargetEdge(t, Successors(adjacency, t), k, x, y)
  }

  ghost predicate IsBuildGraph(statements: seq<Statement>, built: set<Target>, adjacency: Adjacency<Target>,
                               regenerate: Statement) {
    forall k, x, y ::
      HasEdge(statements, k, x, y) <==> BuildEdge(built, adjacency, k, x, y) || Builds(regenerate, k, x, y)
  }

  // Every statement has a dependency, or belongs to the roots of a target or to the regeneration.
  ghost predicate IsRooted(statements: seq<Statement>, built: set<Target>, regenerate: Statement) {
    forall x :: Alone(statements, x) ==> IsRootOfSome(built, x) || x in regenerate.outputs
  }

  ghost predicate IsRootOfSome(built: set<Target>, x: string) {
    exists t :: t in built && t.hasEnvironment && IsRoot(t, x)
  }

  // What is written: exactly the edges of the targets, a rule for every root, and no rule besides.
  ghost predicate IsBuildFile(statements: seq<Statement>, built: set<Target>, adjacency: Adjacency<Target>,
                              regenerate: Statement) {
    && IsBuildGraph(statements, built, adjacency, regenerate)
    && (forall t :: t in built && t.hasEnvironment ==> RootsDefined(statements, t))
    && regenerate in statements
    && IsRooted(statements, built, regenerate)
  }

  lemma BuildGraphEmits(statements: seq<Statement>, built: set<Target>, adjacency: Adjacency<Target>,
                        regenerate: Statement, t: Target)
    requires IsBuildGraph(statements, built, adjacency, regenerate)
    requires t in built && t.hasEnvironment
    ensures Emits(statements, t, Successors(adjacency, t))
  {
    hide TargetEdge, HasEdge;
    forall k, x, y | TargetEdge(t, Successors(adjacency, t), k, x, y)
      ensures HasEdge(statements, k, x, y)
    {
      assert BuildEdge(built, adjacency, k, x, y);
    }
  }

  method MaxInvocationPriority(t: Target) returns (p: uint32)
    ensures forall q: uint32 :: IsMaxPriority(t, q) <==> q == p
  {
    p := 0;
    for i := 0 to |t.invocations|
      invariant i == 0 ==> p == 0
      invariant i > 0 ==> PriorityInUse(t, p)
      invariant forall k :: 0 <= k < i ==> t.invocations[k].priority <= p
    {
      assert PriorityInUse(t, t.invocations[i].priority);
      if p < t.invocations[i].priority {
        p := t.invocations[i].priority;
      }
    }
  }

  // The statements of the main file for one target, its own file included.
  method BuildTarget(writer: Writer, t: Target, dependencies: set<Target>) returns (ok: bool)
    modifies writer
    ensures ok <==> CanBuild(t)
    ensures old(writer.statements) <= writer.statements
    ensures ok ==> RootsDefined(writer.statements, t)
    ensures ok ==> forall x :: Alone(writer.statements, x) ==> Alone(old(writer.statements), x) || IsRoot(t, x)
    ensures ok ==> forall k, x, y :: HasEdge(writer.statements, k, x, y)
                     <==> HasEdge(old(writer.statements), k, x, y) || TargetEdge(t, dependencies, k, x, y)
  {
    hide HasEdge, Alone, InnerEdge, TargetBegin, TargetFinish, TargetWriteAuxiliaryFiles, IsMaxPriority, CanBuild,
      IsPhonyInput, Defines;
    NoEdges();
    var adjacent := Iterate(dependencies);
    var finished: seq<string> := [];
    for i := 0 to |adjacent|
      invariant finished == Finishes(adjacent[..i])
    {
      assert adjacent[..i + 1][..i] == adjacent[..i];
      finished := finished + [TargetFinish(adjacent[i])];
    }
    assert adjacent[..|adjacent|] == adjacent;
    FinishesOf(adjacent, dependencies);
    ghost var before := writer.statements;
    writer.Build([TargetBegin(t)], finished, [], []);
    ghost var begun := writer.statements;

    var auxiliary := [TargetBegin(t)];
    for i := 0 to |t.auxiliaryFiles|
      invariant auxiliary != []
      invariant forall y ::
                  y in auxiliary <==> y == TargetBegin(t) || exists k :: 0 <= k < i && y == t.auxiliaryFiles[k].path
    {
      auxiliary := auxiliary + [t.auxiliaryFiles[i].path];
    }
    writer.Build([TargetWriteAuxiliaryFiles(t)], auxiliary, [], []);

    var file := BuildTargetInvocations(t);
    if file.None? {
      return false;
    }
    writer.Subninja(file.value);
    ghost var between := writer.statements[|begun|..];

    var phony := PhonyInputs(t);
    writer.Subninja(phony);
    ghost var defined := writer.statements;
    assert defined == before + [begun[|before|]] + between + phony;
    RootsOf(before, begun[|before|], between, phony, t);

    var p := MaxInvocationPriority(t);
    writer.Build([TargetFinish(t)], [PhaseFinish(t, p)], [], []);
    DefinedInLonger(defined, writer.statements, t);
    return true;
  }

  function Finishes(targets: seq<Target>): (r: seq<string>)
    ensures |r| == |targets|
  {
    if targets == [] then [] else Finishes(targets[..|targets| - 1]) + [TargetFinish(targets[|targets| - 1])]
  }

  lemma {:induction false} FinishesOf(targets: seq<Target>, all: set<Target>)
    requires Elements(targets) == all
    ensures forall y :: y in Finishes(targets) <==> exists d :: d in all && y == TargetFinish(d)
  {
    hide TargetFinish;
    if targets != [] {
      var n := |targets| - 1;
      FinishesOf(targets[..n], Elements(targets[..n]));
      assert targets == targets[..n] + [targets[n]];
      assert all == Elements(targets[..n]) + {targets[n]};
    }
  }

  // The graph's targets are visited in any order. A target without environment is skipped; one that cannot be built
  // fails the whole build, as does a main file that cannot be written.
  method BuildAction(graph: DirectedGraph<Target>, regenerate: Statement, writable: bool)
    returns (result: Option<seq<Statement>>)
    requires graph.Valid()
    ensures result.Some? <==> writable && forall t :: t in graph.nodes && t.hasEnvironment ==> CanBuild(t)
    ensures result.Some? ==> IsBuildFile(result.value, graph.nodes, graph.adjacency, regenerate)
  {
    hide HasEdge, Alone, TargetEdge, CanBuild, RootsDefined, IsRoot;
    var writer := new Writer();
    NoEdges();
    var nodes := Iterate(graph.nodes);
    assert Elements(nodes[..0]) == {};
    forall k, x, y ensures !BuildEdge(Elements(nodes[..0]), graph.adjacency, k, x, y) {
    }
    for i := 0 to |nodes|
      invariant fresh(writer) && graph.Valid()
      invariant forall k :: 0 <= k < i && nodes[k].hasEnvironment ==> CanBuild(nodes[k])
      invariant forall k :: 0 <= k < i && nodes[k].hasEnvironment ==> RootsDefined(writer.statements, nodes[k])
      invariant forall k, x, y ::
                  HasEdge(writer.statements, k, x, y) <==> BuildEdge(Elements(nodes[..i]), graph.adjacency, k, x, y)
      invariant forall x :: Alone(writer.statements, x) ==> IsRootOfSome(Elements(nodes[..i]), x)
    {
      var t := nodes[i];
      assert t in Elements(nodes);
      if t.hasEnvironment {
        var adjacent := graph.Adjacent(t);
        ghost var before := writer.statements;
        var ok := BuildTarget(writer, t, adjacent);
        if !ok {
          return None;
        }
        forall k | 0 <= k < i && nodes[k].hasEnvironment ensures RootsDefined(writer.statements, nodes[k]) {
          DefinedInLonger(before, writer.statements, nodes[k]);
        }
      }
      OneMoreTarget(nodes, i, graph.adjacency);
      OneMoreRoot(nodes, i);
    }
    assert nodes[..|nodes|] == nodes;
    forall t | t in graph.nodes && t.hasEnvironment ensures CanBuild(t) {
      assert t in Elements(nodes);
    }
    ghost var written := writer.statements;
    writer.Build(regenerate.outputs, regenerate.inputs, regenerate.inputDependencies, regenerate.orderDependencies);
    forall t | t in graph.nodes && t.hasEnvironment ensures RootsDefined(writer.statements, t) {
      assert t in Elements(nodes);
      DefinedInLonger(written, writer.statements, t);
    }
    if !writable {
      return None;
    }
    return Some(writer.statements);
  }

  lemma OneMoreTarget(nodes: seq<Target>, i: nat, adjacency: Adjacency<Target>)
    requires i < |nodes|
    ensures forall k, x, y :: BuildEdge(Elements(nodes[..i + 1]), adjacency, k, x, y)
              <==> BuildEdge(Elements(nodes[..i]), adjacency, k, x, y)
                   || (nodes[i].hasEnvironment && TargetEdge(nodes[i], Successors(adjacency, nodes[i]), k, x, y))
  {
    hide TargetEdge;
    assert Elements(nodes[..i + 1]) == Elements(nodes[..i]) + {nodes[i]};
  }

  lemma OneMoreRoot(nodes: seq<Target>, i: nat)
    requires i < |nodes|
    ensures forall x :: IsRootOfSome(Elements(nodes[..i + 1]), x)
              <==> IsRootOfSome(Elements(nodes[..i]), x) || (nodes[i].hasEnvironment && IsRoot(nodes[i], x))
  {
    hide IsRoot;
    assert Elements(nodes[..i + 1]) == Elements(nodes[..i]) + {nodes[i]};
  }

  // ----- Which nodes have a rule -----

  // What a target can write a name as.
  datatype Role =
    | BeginNode
    | AuxiliaryNode
    | FinishNode
    | PhaseBeginNode(priority: uint32)
    | PhaseFinishNode(priority: uint32)
    | FileRole
    | OutputRole
    | PhonyInputRole

  ghost predicate HasRole(t: Target, role: Role, x: string) {
    match role
    case BeginNode => x == TargetBegin(t)
    case AuxiliaryNode => x == TargetWriteAuxiliaryFiles(t)
    case FinishNode => x == TargetFinish(t)
    case PhaseBeginNode(p) => PriorityInUse(t, p) && x == PhaseBegin(t, p)
    case PhaseFinishNode(p) => PriorityInUse(t, p) && x == PhaseFinish(t, p)
    case FileRole => exists i :: 0 <= i < |t.auxiliaryFiles| && x == t.auxiliaryFiles[i].path
    case OutputRole => exists i: nat :: IsOutput(t, i, x) && t.invocations[i].executable.Found?
    case PhonyInputRole => IsPhonyInput(t, x)
  }

  ghost predicate WritesName(t: Target, x: string) {
    exists role :: HasRole(t, role, x)
  }

  // A phase begins after something, and a target finishes after something.
  lemma PhaseBeginsAfter(t: Target, p: uint32) returns (y: string)
    requires PriorityInUse(t, p)
    ensures PhaseBeginEdge(t, p, Explicit, PhaseBegin(t, p), y)
  {
    var previous := PreviousPriority(t, p, |t.invocations|);
    y := TargetWriteAuxiliaryFiles(t);
    if previous.Some? {
      assert IsPreviousPriority(t, p, previous.value);
      y := PhaseFinish(t, previous.value);
    }
  }

  lemma TargetFinishesAfter(t: Target) returns (p: uint32)
    ensures IsMaxPriority(t, p)
  {
    p := 0;
    if t.invocations != [] {
      p := MaxPriority(t, |t.invocations|);
    }
  }

  // The names with dependencies, and those that need none, are those with a role.
  lemma RolesAreRules(t: Target, dependencies: set<Target>, x: string)
    ensures WritesName(t, x) <==> IsRoot(t, x) || exists k, y :: TargetEdge(t, dependencies, k, x, y)
  {
    hide TargetBegin, TargetFinish, TargetWriteAuxiliaryFiles, PhaseBegin, PhaseFinish, IsPhonyInput;
    if role :| HasRole(t, role, x) {
      RoleHasRule(t, dependencies, role, x);
    }
    if IsRoot(t, x) {
      assert HasRole(t, BeginNode, x) || HasRole(t, PhonyInputRole, x);
    } else if k, y :| TargetEdge(t, dependencies, k, x, y) {
      EdgeHasRole(t, dependencies, k, x, y);
    }
  }

  lemma RoleHasRule(t: Target, dependencies: set<Target>, role: Role, x: string)
    requires HasRole(t, role, x)
    ensures IsRoot(t, x) || exists k, y :: TargetEdge(t, dependencies, k, x, y)
  {
    hide TargetBegin, TargetFinish, TargetWriteAuxiliaryFiles, PhaseBegin, PhaseFinish, IsPhonyInput, PriorityInUse,
      IsMaxPriority, IsBeforePhase;
    match role {
      case BeginNode =>
      case PhonyInputRole =>
      case AuxiliaryNode =>
        assert TargetEdge(t, dependencies, Explicit, x, TargetBegin(t));
      case FinishNode =>
        var p := TargetFinishesAfter(t);
        assert TargetEdge(t, dependencies, Explicit, x, PhaseFinish(t, p));
      case PhaseBeginNode(p) =>
        var y := PhaseBeginsAfter(t, p);
        assert TargetEdge(t, dependencies, Explicit, x, y);
      case PhaseFinishNode(p) =>
        assert PhaseFinishEdge(t, p, Explicit, x, PhaseBegin(t, p));
        assert TargetEdge(t, dependencies, Explicit, x, PhaseBegin(t, p));
      case FileRole =>
        var i :| 0 <= i < |t.auxiliaryFiles| && x == t.auxiliaryFiles[i].path;
        assert AuxiliaryEdge(t, i, OrderOnly, x, TargetBegin(t));
        assert TargetEdge(t, dependencies, OrderOnly, x, TargetBegin(t));
      case OutputRole =>
        var i: nat :| IsOutput(t, i, x) && t.invocations[i].executable.Found?;
        assert InvocationEdge(t, i, OrderOnly, x, PhaseBegin(t, t.invocations[i].priority));
        assert TargetEdge(t, dependencies, OrderOnly, x, PhaseBegin(t, t.invocations[i].priority));
    }
  }

  lemma EdgeHasRole(t: Target, dependencies: set<Target>, k: Kind, x: string, y: string)
    requires TargetEdge(t, dependencies, k, x, y)
    ensures WritesName(t, x)
  {
    hide TargetEdge, HasRole;
    var role := RoleOfEdge(t, dependencies, k, x, y);
  }

  // ----- What makes a node out of date -----

  // What a target builds x from where it writes x in that role.
  ghost predicate RoleEdge(t: Target, dependencies: set<Target>, role: Role, k: Kind, x: string, y: string) {
    match role
    case BeginNode => k.Explicit? && exists d :: d in dependencies && y == TargetFinish(d)
    case AuxiliaryNode =>
      k.Explicit? && (y == TargetBegin(t) || exists i :: 0 <= i < |t.auxiliaryFiles| && y == t.auxiliaryFiles[i].path)
    case FinishNode => k.Explicit? && exists p: uint32 :: IsMaxPriority(t, p) && y == PhaseFinish(t, p)
    case PhaseBeginNode(p) => PhaseBeginEdge(t, p, k, x, y)
    case PhaseFinishNode(p) => PhaseFinishEdge(t, p, k, x, y)
    case FileRole => exists i :: AuxiliaryEdge(t, i, k, x, y)
    case OutputRole => exists i :: InvocationEdge(t, i, k, x, y)
    case PhonyInputRole => false
  }

  lemma RoleOfEdge(t: Target, dependencies: set<Target>, k: Kind, x: string, y: string) returns (role: Role)
    requires TargetEdge(t, dependencies, k, x, y)
    ensures HasRole(t, role, x) && RoleEdge(t, dependencies, role, k, x, y)
  {
    hide TargetBegin, TargetFinish, TargetWriteAuxiliaryFiles, PhaseBegin, PhaseFinish, IsPhonyInput, PriorityInUse,
      IsMaxPriority, IsBeforePhase;
    if i :| AuxiliaryEdge(t, i, k, x, y) {
      role := FileRole;
    } else if p: uint32 :| PhaseBeginEdge(t, p, k, x, y) {
      role := PhaseBeginNode(p);
    } else if p: uint32 :| PhaseFinishEdge(t, p, k, x, y) {
      role := PhaseFinishNode(p);
    } else if i :| InvocationEdge(t, i, k, x, y) {
      var n: nat := i;
      assert IsOutput(t, n, x);
      role := OutputRole;
    } else if x == TargetBegin(t) && k.Explicit? && exists d :: d in dependencies && y == TargetFinish(d) {
      role := BeginNode;
    } else if x == TargetFinish(t) && k.Explicit? && exists p: uint32 :: IsMaxPriority(t, p) && y == PhaseFinish(t, p) {
      role := FinishNode;
    } else {
      role := AuxiliaryNode;
    }
  }

  // Where nothing else has the name x, x is built from what its role says and from nothing besides.
  lemma EdgesOfName(statements: seq<Statement>, built: set<Target>, adjacency: Adjacency<Target>,
                    regenerate: Statement, t: Target, role: Role, k: Kind, x: string, y: string)
    requires IsBuildGraph(statements, built, adjacency, regenerate)
    requires t in built && t.hasEnvironment && OnlyName(built, regenerate, t, role, x) && HasRole(t, role, x)
    ensures HasEdge(statements, k, x, y) <==> RoleEdge(t, Successors(adjacency, t), role, k, x, y)
  {
    hide HasEdge, TargetEdge, RoleEdge, HasRole, Builds;
    if HasEdge(statements, k, x, y) {
      if Builds(regenerate, k, x, y) {
        BuildsItsOutputs(regenerate, k, x, y);
        assert false;
      }
      var u :| u in built && u.hasEnvironment && TargetEdge(u, Successors(adjacency, u), k, x, y);
      var r := RoleOfEdge(u, Successors(adjacency, u), k, x, y);
      assert u == t && r == role;
    }
    if RoleEdge(t, Successors(adjacency, t), role, k, x, y) {
      RoleEdgeIsEdge(t, Successors(adjacency, t), role, k, x, y);
      assert BuildEdge(built, adjacency, k, x, y);
    }
  }

  lemma RoleEdgeIsEdge(t: Target, dependencies: set<Target>, role: Role, k: Kind, x: string, y: string)
    requires HasRole(t, role, x) && RoleEdge(t, dependencies, role, k, x, y)
    ensures TargetEdge(t, dependencies, k, x, y)
  {
    hide TargetBegin, TargetFinish, TargetWriteAuxiliaryFiles, PhaseBegin, PhaseFinish, IsPhonyInput, PriorityInUse,
      IsMaxPriority, IsBeforePhase;
  }

  // What an invocation writes is out of date by its inputs and its input dependencies, and by nothing else. The begin
  // of its phase and its order dependencies only come first.
  lemma OutputIsOutOfDateExactly(statements: seq<Statement>, built: set<Target>, adjacency: Adjacency<Target>,
                                 regenerate: Statement, t: Target, i: nat, x: string, y: string)
    requires IsBuildGraph(statements, built, adjacency, regenerate)
    requires t in built && t.hasEnvironment && OnlyName(built, regenerate, t, OutputRole, x)
    requires IsOutput(t, i, x) && t.invocations[i].executable.Found?
    requires forall j: nat :: IsOutput(t, j, x) && t.invocations[j].executable.Found? ==> j == i
    ensures OutOfDateBy(statements, x, y) <==> y in t.invocations[i].inputs || y in t.invocations[i].inputDependencies
    ensures HasEdge(statements, OrderOnly, x, y)
            <==> y in t.invocations[i].orderDependencies || y == PhaseBegin(t, t.invocations[i].priority)
  {
    hide IsBuildGraph, HasEdge, OnlyName, PhaseBegin;
    assert HasRole(t, OutputRole, x);
    forall k
      ensures HasEdge(statements, k, x, y) <==> RunsAfter(t, t.invocations[i], k, x, y)
    {
      EdgesOfName(statements, built, adjacency, regenerate, t, OutputRole, k, x, y);
      if RoleEdge(t, Successors(adjacency, t), OutputRole, k, x, y) {
        var j :| InvocationEdge(t, j, k, x, y);
        var n: nat := j;
        assert IsOutput(t, n, x);
      }
      if RunsAfter(t, t.invocations[i], k, x, y) {
        assert InvocationEdge(t, i, k, x, y);
      }
    }
  }

  // An auxiliary file is out of date by its chunks, and by nothing else. The begin of its target only comes first.
  lemma AuxiliaryIsOutOfDateExactly(statements: seq<Statement>, built: set<Target>, adjacency: Adjacency<Target>,
                                    regenerate: Statement, t: Target, i: nat, x: string, y: string)
    requires IsBuildGraph(statements, built, adjacency, regenerate)
    requires t in built && t.hasEnvironment && OnlyName(built, regenerate, t, FileRole, x)
    requires i < |t.auxiliaryFiles| && x == t.auxiliaryFiles[i].path
    requires forall j :: 0 <= j < |t.auxiliaryFiles| && x == t.auxiliaryFiles[j].path ==> j == i
    ensures OutOfDateBy(statements, x, y) <==> y in t.auxiliaryFiles[i].chunkPaths
    ensures HasEdge(statements, OrderOnly, x, y) <==> y == TargetBegin(t)
  {
    hide IsBuildGraph, HasEdge, OnlyName, TargetBegin;
    assert HasRole(t, FileRole, x);
    forall k
      ensures HasEdge(statements, k, x, y) <==> AuxiliaryEdge(t, i, k, x, y)
    {
      EdgesOfName(statements, built, adjacency, regenerate, t, FileRole, k, x, y);
    }
  }

  // A node of a target or of a phase is out of date by everything it is built from.
  lemma NodeIsOutOfDateExactly(statements: seq<Statement>, built: set<Target>, adjacency: Adjacency<Target>,
                               regenerate: Statement, t: Target, role: Role, x: string, y: string)
    requires IsBuildGraph(statements, built, adjacency, regenerate)
    requires t in built && t.hasEnvironment && OnlyName(built, regenerate, t, role, x) && HasRole(t, role, x)
    requires !role.FileRole? && !role.OutputRole?
    ensures DependsOn(statements, x, y) <==> HasEdge(statements, Explicit, x, y)
    ensures OutOfDateBy(statements, x, y) <==> DependsOn(statements, x, y)
  {
    hide IsBuildGraph, HasEdge, OnlyName, HasRole, TargetBegin, TargetFinish, PhaseBegin, PhaseFinish, IsMaxPriority,
      IsBeforePhase, PriorityInUse;
    forall k
      ensures HasEdge(statements, k, x, y) ==> k.Explicit?
    {
      EdgesOfName(statements, built, adjacency, regenerate, t, role, k, x, y);
    }
  }

  // A rule depends on something or stands alone.
  lemma DefinedWithOrAlone(statements: seq<Statement>, x: string)
    ensures Defines(statements, x) <==> (exists k, y :: HasEdge(statements, k, x, y)) || Alone(statements, x)
  {
    if Defines(statements, x) && !Alone(statements, x) {
      var i :| 0 <= i < |statements| && x in statements[i].outputs;
      var s := statements[i];
      assert !BuildsAlone(s, x);
      if s.inputs != [] {
        assert Builds(s, Explicit, x, s.inputs[0]) && HasEdge(statements, Explicit, x, s.inputs[0]);
      } else if s.inputDependencies != [] {
        assert Builds(s, Implicit, x, s.inputDependencies[0]);
        assert HasEdge(statements, Implicit, x, s.inputDependencies[0]);
      } else {
        assert Builds(s, OrderOnly, x, s.orderDependencies[0]);
        assert HasEdge(statements, OrderOnly, x, s.orderDependencies[0]);
      }
    }
  }

  // Exactly the names that a target with an environment writes have a rule, and what the regeneration writes.
  lemma DefinedExactly(statements: seq<Statement>, built: set<Target>, adjacency: Adjacency<Target>,
                       regenerate: Statement, x: string)
    requires IsBuildFile(statements, built, adjacency, regenerate)
    ensures Defines(statements, x)
            <==> x in regenerate.outputs || exists t :: t in built && t.hasEnvironment && WritesName(t, x)
  {
    hide Defines, HasEdge, Builds, Alone, TargetEdge, IsRoot, WritesName;
    DefinedWithOrAlone(statements, x);
    forall t | t in built
      ensures WritesName(t, x) <==> IsRoot(t, x) || exists k, y :: TargetEdge(t, Successors(adjacency, t), k, x, y)
    {
      RolesAreRules(t, Successors(adjacency, t), x);
    }
    if t :| t in built && t.hasEnvironment && WritesName(t, x) {
      if IsRoot(t, x) {
        assert RootsDefined(statements, t);
      } else {
        var k, y :| TargetEdge(t, Successors(adjacency, t), k, x, y);
        assert BuildEdge(built, adjacency, k, x, y);
        assert HasEdge(statements, k, x, y);
      }
    }
    if x in regenerate.outputs {
      StatementDefines(statements, regenerate, x);
    }
    if k, y :| HasEdge(statements, k, x, y) {
      assert BuildEdge(built, adjacency, k, x, y) || Builds(regenerate, k, x, y);
      if Builds(regenerate, k, x, y) {
        BuildsItsOutputs(regenerate, k, x, y);
      }
    }
  }

  lemma BuildsItsOutputs(s: Statement, k: Kind, x: string, y: string)
    requires Builds(s, k, x, y)
    ensures x in s.outputs
  {
  }

  lemma StatementDefines(statements: seq<Statement>, s: Statement, x: string)
    requires s in statements && x in s.outputs
    ensures Defines(statements, x)
  {
  }

  // Nothing else has this name.
  ghost predicate OnlyName(built: set<Target>, regenerate: Statement, t: Target, role: Role, x: string) {
    && x !in regenerate.outputs
    && forall u, r :: u in built && u.hasEnvironment && HasRole(u, r, x) ==> u == t && r == role
  }

  // The node that a target finishes after has a rule exactly when the target has an invocation.
  lemma LastPhaseIsDefinedExactly(statements: seq<Statement>, built: set<Target>, adjacency: Adjacency<Target>,
                                  regenerate: Statement, t: Target, p: uint32)
    requires IsBuildFile(statements, built, adjacency, regenerate)
    requires t in built && t.hasEnvironment && IsMaxPriority(t, p)
    requires OnlyName(built, regenerate, t, PhaseFinishNode(p), PhaseFinish(t, p))
    ensures Defines(statements, PhaseFinish(t, p)) <==> t.invocations != []
  {
    hide IsBuildFile, Defines, PhaseFinish;
    var x := PhaseFinish(t, p);
    DefinedExactly(statements, built, adjacency, regenerate, x);
    if t.invocations != [] {
      assert HasRole(t, PhaseFinishNode(p), x);
      assert WritesName(t, x);
    }
    if u :| u in built && u.hasEnvironment && WritesName(u, x) {
      var role :| HasRole(u, role, x);
      assert PriorityInUse(t, p);
    }
  }

  // The finish node of a target has a rule exactly when the target is built and has an environment.
  lemma FinishIsDefinedExactly(statements: seq<Statement>, built: set<Target>, adjacency: Adjacency<Target>,
                               regenerate: Statement, d: Target)
    requires IsBuildFile(statements, built, adjacency, regenerate)
    requires OnlyName(built, regenerate, d, FinishNode, TargetFinish(d))
    ensures Defines(statements, TargetFinish(d)) <==> d in built && d.hasEnvironment
  {
    hide IsBuildFile, Defines, TargetFinish;
    var x := TargetFinish(d);
    DefinedExactly(statements, built, adjacency, regenerate, x);
    assert HasRole(d, FinishNode, x);
    assert WritesName(d, x);
    if u :| u in built && u.hasEnvironment && WritesName(u, x) {
      var role :| HasRole(u, role, x);
    }
  }

  // The phony nodes of targets and phases that a target with an environment depends on.
  ghost predicate IsNodeUsed(t: Target, dependencies: set<Target>, y: string) {
    || y == TargetBegin(t) || y == TargetWriteAuxiliaryFiles(t)
    || (exists d :: d in dependencies && y == TargetFinish(d))
    || (exists p: uint32 :: PriorityInUse(t, p) && (y == PhaseBegin(t, p) || y == PhaseFinish(t, p)))
    || (exists p: uint32 :: IsMaxPriority(t, p) && y == PhaseFinish(t, p))
  }

  ghost predicate NodesUsedDefined(statements: seq<Statement>, t: Target, dependencies: set<Target>) {
    forall y :: IsNodeUsed(t, dependencies, y) ==> Defines(statements, y)
  }

  ghost predicate IsComplete(built: set<Target>, t: Target, dependencies: set<Target>) {
    t.invocations != [] && forall d :: d in dependencies ==> d in built && d.hasEnvironment
  }

  // Every such node has a rule when the target has an invocation and the targets it depends on have environments.
  lemma NodesUsedAreDefined(statements: seq<Statement>, built: set<Target>, adjacency: Adjacency<Target>,
                            regenerate: Statement, t: Target)
    requires IsBuildFile(statements, built, adjacency, regenerate)
    requires t in built && t.hasEnvironment && IsComplete(built, t, Successors(adjacency, t))
    ensures NodesUsedDefined(statements, t, Successors(adjacency, t))
  {
    hide IsBuildFile, Defines, PhaseBegin, PhaseFinish, TargetBegin, TargetFinish, TargetWriteAuxiliaryFiles,
      Successors;
    forall y | IsNodeUsed(t, Successors(adjacency, t), y)
      ensures Defines(statements, y)
    {
      DefinedExactly(statements, built, adjacency, regenerate, y);
      NodeUsedIsWritten(built, t, Successors(adjacency, t), y);
    }
  }

  lemma NodeUsedIsWritten(built: set<Target>, t: Target, dependencies: set<Target>, y: string)
    requires t in built && t.hasEnvironment && IsComplete(built, t, dependencies) && IsNodeUsed(t, dependencies, y)
    ensures exists u :: u in built && u.hasEnvironment && WritesName(u, y)
  {
    hide PhaseBegin, PhaseFinish, TargetBegin, TargetFinish, TargetWriteAuxiliaryFiles, PriorityInUse;
    if d :| d in dependencies && y == TargetFinish(d) {
      assert HasRole(d, FinishNode, y);
      assert WritesName(d, y);
    } else if p: uint32 :| PriorityInUse(t, p) && (y == PhaseBegin(t, p) || y == PhaseFinish(t, p)) {
      assert HasRole(t, PhaseBeginNode(p), y) || HasRole(t, PhaseFinishNode(p), y);
      assert WritesName(t, y);
    } else {
      assert HasRole(t, BeginNode, y) || HasRole(t, AuxiliaryNode, y);
      assert WritesName(t, y);
    }
  }

  // Where names are not shared, exactly then. A target without invocations finishes after a phase of priority 0 that no
  // statement writes, and a target without environment has no finish node.
  lemma NodesUsedAreDefinedExactly(statements: seq<Statement>, built: set<Target>, adjacency: Adjacency<Target>,
                                   regenerate: Statement, t: Target)
    requires IsBuildFile(statements, built, adjacency, regenerate)
    requires t in built && t.hasEnvironment
    requires forall p: uint32 :: IsMaxPriority(t, p) ==>
               OnlyName(built, regenerate, t, PhaseFinishNode(p), PhaseFinish(t, p))
    requires forall d :: d in Successors(adjacency, t) ==>
               OnlyName(built, regenerate, d, FinishNode, TargetFinish(d))
    ensures NodesUsedDefined(statements, t, Successors(adjacency, t))
            <==> IsComplete(built, t, Successors(adjacency, t))
  {
    hide IsBuildFile, Defines, PhaseBegin, PhaseFinish, TargetBegin, TargetFinish, TargetWriteAuxiliaryFiles, OnlyName,
      IsMaxPriority, Successors;
    var dependencies := Successors(adjacency, t);
    if IsComplete(built, t, dependencies) {
      NodesUsedAreDefined(statements, built, adjacency, regenerate, t);
    }
    if NodesUsedDefined(statements, t, dependencies) {
      var p := TargetFinishesAfter(t);
      assert IsNodeUsed(t, dependencies, PhaseFinish(t, p));
      LastPhaseIsDefinedExactly(statements, built, adjacency, regenerate, t, p);
      forall d | d in dependencies
        ensures d in built && d.hasEnvironment
      {
        assert IsNodeUsed(t, dependencies, TargetFinish(d));
        FinishIsDefinedExactly(statements, built, adjacency, regenerate, d);
      }
    }
  }

  const AGGREGATE := Target("All", true, true, [], [])

  // The build of a single target without invocations: its finish node depends on a node without rule.
  lemma AggregateHasNoLastPhase(statements: seq<Statement>, adjacency: Adjacency<Target>, regenerate: Statement)
    requires IsBuildFile(statements, {AGGREGATE}, adjacency, regenerate)
    requires "finish-target-All-phase-priority-0" !in regenerate.outputs
    ensures DependsOn(statements, "finish-target-All", "finish-target-All-phase-priority-0")
    ensures !Defines(statements, "finish-target-All-phase-priority-0")
  {
    hide IsBuildGraph, HasEdge, Defines, Successors;
    var x := "finish-target-All-phase-priority-0";
    AggregateNames();
    BuildGraphEmits(statements, {AGGREGATE}, adjacency, regenerate, AGGREGATE);
    assert IsMaxPriority(AGGREGATE, 0);
    assert OuterEdge(AGGREGATE, Successors(adjacency, AGGREGATE), Explicit, "finish-target-All", x);
    assert TargetEdge(AGGREGATE, Successors(adjacency, AGGREGATE), Explicit, "finish-target-All", x);
    assert HasEdge(statements, Explicit, "finish-target-All", x);
    DefinedExactly(statements, {AGGREGATE}, adjacency, regenerate, x);
    forall role
      ensures !HasRole(AGGREGATE, role, x)
    {
    }
  }

  lemma SmallPriorities()
    ensures PriorityText(7) == "7" && PriorityText(0xFFFF_FFFF) == "-1"
  {
    assert Digits(7) == "7" && Digits(1) == "1";
  }

  lemma NodeNames(t: Target)
    requires t.name == "All"
    ensures PhaseFinish(t, 0xFFFF_FFFF) == "finish-target-All-phase-priority--1"
    ensures TargetBegin(t) == "begin-target-All" && TargetFinish(t) == "finish-target-All"
    ensures TargetWriteAuxiliaryFiles(t) == "write-auxiliary-files-All"
    ensures PhaseBegin(t, 7) == "begin-target-All-phase-priority-7"
    ensures PhaseFinish(t, 7) == "finish-target-All-phase-priority-7"
  {
    hide PriorityText;
    SmallPriorities();
  }

  lemma AggregateNames()
    ensures TargetFinish(AGGREGATE) == "finish-target-All"
    ensures PhaseFinish(AGGREGATE, 0) == "finish-target-All-phase-priority-0"
    ensures TargetBegin(AGGREGATE) != "finish-target-All-phase-priority-0"
    ensures TargetWriteAuxiliaryFiles(AGGREGATE) != "finish-target-All-phase-priority-0"
    ensures TargetFinish(AGGREGATE) != "finish-target-All-phase-priority-0"
  {
    assert TargetBegin(AGGREGATE)[0] == 'b';
    assert TargetWriteAuxiliaryFiles(AGGREGATE)[0] == 'w';
    assert |TargetFinish(AGGREGATE)| == 17;
    assert Digits(0) == "0";
  }

  // What the build order of a written graph guarantees: an invocation runs after every output of the lower phases of
  // its target, and after every output of the targets that its target depends on.
  lemma BuildOrderIsKept(statements: seq<Statement>, built: set<Target>, adjacency: Adjacency<Target>,
                         regenerate: Statement, time: map<string, int>, t: Target, i: nat, o: string)
    requires IsBuildGraph(statements, built, adjacency, regenerate)
    requires forall a, b {:trigger DependsOn(statements, a, b)} ::
               DependsOn(statements, a, b) ==> a in time && b in time && time[b] < time[a]
    requires t in built && t.hasEnvironment && IsOutput(t, i, o) && t.invocations[i].executable.Found?
    ensures o in time
    ensures forall j: nat, lower: string ::
              IsOutput(t, j, lower) && t.invocations[j].priority < t.invocations[i].priority
              ==> lower in time && time[lower] < time[o]
    ensures forall d: Target, j: nat, earlier: string :: d in Successors(adjacency, t) && d in built && d.hasEnvironment
                                                         && IsOutput(d, j, earlier)
              ==> earlier in time && time[earlier] < time[o]
  {
    hide DependsOn, Reaches, Emits, IsBuildGraph;
    BuildGraphEmits(statements, built, adjacency, regenerate, t);
    InvocationFollowsLowerPhases(statements, t, Successors(adjacency, t), i, o);
    SchedulesRespectReach(statements, time, o, TargetBegin(t));
    forall j: nat, lower: string | IsOutput(t, j, lower) && t.invocations[j].priority < t.invocations[i].priority
      ensures lower in time && time[lower] < time[o]
    {
      SchedulesRespectReach(statements, time, o, lower);
    }
    forall d: Target, j: nat, earlier: string
      | d in Successors(adjacency, t) && d in built && d.hasEnvironment && IsOutput(d, j, earlier)
      ensures earlier in time && time[earlier] < time[o]
    {
      BuildGraphEmits(statements, built, adjacency, regenerate, d);
      InvocationFollowsDependency(statements, t, Successors(adjacency, t), i, o, d, Successors(adjacency, d), j,
                                  earlier);
      SchedulesRespectReach(statements, time, o, earlier);
    }
  }

  // And after every output of a target further down a chain of dependencies, where no target in between is without
  // invocations.
  lemma BuildOrderIsKeptAlongChains(statements: seq<Statement>, built: set<Target>, adjacency: Adjacency<Target>,
                                    regenerate: Statement, time: map<string, int>, p: seq<Target>, i: nat, o: string,
                                    j: nat, earlier: string)
    requires IsBuildGraph(statements, built, adjacency, regenerate)
    requires forall a, b {:trigger DependsOn(statements, a, b)} ::
               DependsOn(statements, a, b) ==> a in time && b in time && time[b] < time[a]
    requires IsTargetChain(adjacency, p) && forall t :: t in p ==> t in built && t.hasEnvironment
    requires IsOutput(p[0], i, o) && p[0].invocations[i].executable.Found?
    requires IsOutput(p[|p| - 1], j, earlier)
    ensures o in time && earlier in time && time[earlier] < time[o]
  {
    hide DependsOn, Reaches, Emits, IsBuildGraph, IsTargetChain;
    forall t | t in p
      ensures Emits(statements, t, Successors(adjacency, t))
    {
      BuildGraphEmits(statements, built, adjacency, regenerate, t);
    }
    assert |p| >= 2 by {
      ChainIsLong(adjacency, p);
    }
    InvocationFollowsChain(statements, adjacency, p, i, o, j, earlier);
    SchedulesRespectReach(statements, time, o, earlier);
  }

  lemma ChainIsLong(adjacency: Adjacency<Target>, p: seq<Target>)
    requires IsTargetChain(adjacency, p)
    ensures |p| >= 2
  {
  }
}
