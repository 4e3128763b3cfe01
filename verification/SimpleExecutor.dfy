// Libraries/xcexecution/Sources/SimpleExecutor.cpp: ordering the invocations of one target.
module SimpleExecutors {
  import opened Wrappers
  import opened DirectedGraphs

  // The parts of a tool invocation the sort looks at; `command` stands for everything else.
  datatype Invocation = Invocation(
    command: string,
    outputs: seq<string>,
    inputs: seq<string>,
    phonyInputs: seq<string>,
    inputDependencies: seq<string>,
    priority: nat)

  // The original works on pointers into the vector: an invocation is known by its index.
  function Indices(invocations: seq<Invocation>): set<nat> {
    UpTo(|invocations|)
  }

  function UpTo(n: nat): (s: set<nat>)
    ensures forall i: nat :: i in s <==> i < n
  {
    if n == 0 then {} else UpTo(n - 1) + {n - 1}
  }

  ghost predicate IsFirstProducer(invocations: seq<Invocation>, j: nat, path: string) {
    && j < |invocations|
    && path in invocations[j].outputs
    && forall k :: 0 <= k < j ==> path !in invocations[k].outputs
  }

  ghost predicate Consumes(invocation: Invocation, path: string) {
    path in invocation.inputs || path in invocation.phonyInputs || path in invocation.inputDependencies
  }

  // Invocation i consumes something whose first producer is invocation j.
  ghost predicate NeedsOutputOf(invocations: seq<Invocation>, i: nat, j: nat) {
    i < |invocations| && exists path :: Consumes(invocations[i], path) && IsFirstProducer(invocations, j, path)
  }

  // What the order is for: j has to run before i.
  ghost predicate MustFollow(invocations: seq<Invocation>, i: nat, j: nat) {
    && i < |invocations| && j < |invocations|
    && (NeedsOutputOf(invocations, i, j) || invocations[j].priority < invocations[i].priority)
  }

  // An order of all invocations that honours every producer and every pair of phases.
  ghost predicate IsSchedule(invocations: seq<Invocation>, order: seq<nat>) {
    && Distinct(order)
    && Elements(order) == Indices(invocations)
    && forall b: nat, j: nat :: b < |order| && MustFollow(invocations, order[b], j) ==> j in order[..b]
  }

  function Select(invocations: seq<Invocation>, order: seq<nat>): seq<Invocation>
    requires forall k :: 0 <= k < |order| ==> order[k] < |invocations|
  {
    seq(|order|, k requires 0 <= k < |order| => invocations[order[k]])
  }

  // ----- The edges the code inserts -----

  // The phase of i comes right after the phase of j among the priorities in use.
  ghost predicate InNextPhase(invocations: seq<Invocation>, i: nat, j: nat) {
    && i < |invocations| && j < |invocations|
    && invocations[j].priority < invocations[i].priority
    && forall k :: 0 <= k < |invocations| ==>
         !(invocations[j].priority < invocations[k].priority < invocations[i].priority)
  }

  ghost predicate HasEdge(invocations: seq<Invocation>, i: nat, j: nat) {
    NeedsOutputOf(invocations, i, j) || InNextPhase(invocations, i, j)
  }

  ghost predicate IsDependencyGraph(invocations: seq<Invocation>, nodes: set<nat>, adjacency: Adjacency<nat>) {
    && nodes == adjacency.Keys == Indices(invocations)
    && forall i: nat, j: nat :: j in Successors(adjacency, i) <==> HasEdge(invocations, i, j)
  }

  // Edges between neighbouring phases are enough: they put every lower priority before every higher one.
  lemma {:induction false} NeighboursOrderAllPhases(invocations: seq<Invocation>, nodes: set<nat>,
                                                    adjacency: Adjacency<nat>, order: seq<nat>, b: nat, j: nat)
    requires IsDependencyGraph(invocations, nodes, adjacency)
    requires IsTopological(nodes, adjacency, order)
    requires b < |order| && order[b] < |invocations| && j < |invocations|
    requires invocations[j].priority < invocations[order[b]].priority
    ensures j in order[..b]
    decreases invocations[order[b]].priority - invocations[j].priority
  {
    var i := order[b];
    if InNextPhase(invocations, i, j) {
      assert HasEdge(invocations, i, j);
      assert j in Successors(adjacency, i);
    } else {
      var k :| 0 <= k < |invocations| && invocations[j].priority < invocations[k].priority < invocations[i].priority;
      NeighboursOrderAllPhases(invocations, nodes, adjacency, order, b, k);
      var c :| 0 <= c < b && order[c] == k;
      NeighboursOrderAllPhases(invocations, nodes, adjacency, order, c, j);
      assert order[..c] <= order[..b];
    }
  }

  lemma TopologicalIsSchedule(invocations: seq<Invocation>, nodes: set<nat>, adjacency: Adjacency<nat>, order: seq<nat>)
    requires IsDependencyGraph(invocations, nodes, adjacency)
    requires IsTopological(nodes, adjacency, order)
    ensures IsSchedule(invocations, order)
  {
    forall b: nat, j: nat | b < |order| && MustFollow(invocations, order[b], j)
      ensures j in order[..b]
    {
      if NeedsOutputOf(invocations, order[b], j) {
        assert HasEdge(invocations, order[b], j);
        assert j in Successors(adjacency, order[b]);
      } else {
        NeighboursOrderAllPhases(invocations, nodes, adjacency, order, b, j);
      }
    }
  }

  lemma ScheduleIsTopological(invocations: seq<Invocation>, nodes: set<nat>, adjacency: Adjacency<nat>, order: seq<nat>)
    requires IsDependencyGraph(invocations, nodes, adjacency)
    requires IsSchedule(invocations, order)
    ensures IsTopological(nodes, adjacency, order)
  {
    forall b: nat, j: nat | b < |order| && j in Successors(adjacency, order[b])
      ensures j in order[..b]
    {
      assert HasEdge(invocations, order[b], j);
      assert MustFollow(invocations, order[b], j);
    }
  }

  // The dependency graph is cyclic exactly when no order could satisfy the producers and the phases.
  lemma CyclicMeansUnschedulable(invocations: seq<Invocation>, nodes: set<nat>, adjacency: Adjacency<nat>)
    requires IsDependencyGraph(invocations, nodes, adjacency)
    requires HasCycle(adjacency)
    ensures forall order :: !IsSchedule(invocations, order)
  {
    forall order | IsSchedule(invocations, order)
      ensures false
    {
      ScheduleIsTopological(invocations, nodes, adjacency, order);
      TopologicalIsAcyclic(nodes, adjacency, order);
    }
  }

  // Taking the elements of a sequence in a permuted order keeps their multiset.
  lemma {:induction false} SelectIsPermutation(invocations: seq<Invocation>, order: seq<nat>)
    requires Distinct(order) && Elements(order) == Indices(invocations)
    ensures |order| == |invocations| && forall k :: 0 <= k < |order| ==> order[k] < |invocations|
    ensures multiset(Select(invocations, order)) == multiset(invocations)
    decreases |invocations|
  {
    forall k | 0 <= k < |order|
      ensures order[k] < |invocations|
    {
      assert order[k] in Elements(order);
    }
    if invocations == [] {
      NonEmptyHasElements(order);
    } else {
      var n := |invocations| - 1;
      assert n in Indices(invocations);
      var k :| 0 <= k < |order| && order[k] == n;
      var shorter := order[..k] + order[k + 1..];
      DropLargest(order, n, k);
      SelectIsPermutation(invocations[..n], shorter);
      SelectWithout(invocations, order, k);
    }
  }

  lemma DropLargest(order: seq<nat>, n: nat, k: nat)
    requires Distinct(order) && Elements(order) == UpTo(n + 1)
    requires k < |order| && order[k] == n
    ensures Distinct(order[..k] + order[k + 1..]) && Elements(order[..k] + order[k + 1..]) == UpTo(n)
  {
    var shorter := order[..k] + order[k + 1..];
    forall i: nat
      ensures i in Elements(shorter) <==> i < n
    {
      assert i in order <==> i in UpTo(n + 1);
      if i in order && i != n {
        var at :| 0 <= at < |order| && order[at] == i;
        assert if at < k then shorter[at] == i else shorter[at - 1] == i;
      }
    }
  }

  lemma SelectWithout(invocations: seq<Invocation>, order: seq<nat>, k: nat)
    requires invocations != [] && k < |order| && order[k] == |invocations| - 1
    requires forall i :: 0 <= i < |order| ==> order[i] < |invocations|
    requires forall i :: 0 <= i < |order| && i != k ==> order[i] < |invocations| - 1
    requires var rest := order[..k] + order[k + 1..];
             multiset(Select(invocations[..|invocations| - 1], rest)) == multiset(invocations[..|invocations| - 1])
    ensures multiset(Select(invocations, order)) == multiset(invocations)
  {
    var n := |invocations| - 1;
    var all := Select(invocations, order);
    assert Select(invocations[..n], order[..k] + order[k + 1..]) == all[..k] + all[k + 1..];
    assert all == all[..k] + [invocations[n]] + all[k + 1..];
    assert invocations == invocations[..n] + [invocations[n]];
  }

  // ----- Building the graph -----

  // outputToInvocation: `insert` keeps the first producer of a path.
  ghost predicate RecordsProducers(invocations: seq<Invocation>, producers: map<string, nat>, upTo: nat)
    requires upTo <= |invocations|
  {
    forall path: string, j: nat ::
      path in producers && producers[path] == j <==> j < upTo && IsFirstProducer(invocations, j, path)
  }

  method RecordOutputs(invocations: seq<Invocation>) returns (producers: map<string, nat>, priorities: set<nat>)
    ensures RecordsProducers(invocations, producers, |invocations|)
    ensures priorities == set i | 0 <= i < |invocations| :: invocations[i].priority
  {
    producers, priorities := map[], {};
    for i := 0 to |invocations|
      invariant RecordsProducers(invocations, producers, i)
      invariant priorities == set k | 0 <= k < i :: invocations[k].priority
    {
      var outputs := invocations[i].outputs;
      ghost var before := producers;
      for n := 0 to |outputs|
        invariant forall path :: path in producers <==> path in before || path in outputs[..n]
        invariant forall path :: path in producers ==>
                    producers[path] == if path in before then before[path] else i
      {
        if outputs[n] !in producers {
          producers := producers[outputs[n] := i];
        }
        assert outputs[..n + 1] == outputs[..n] + [outputs[n]];
      }
      assert outputs[..|outputs|] == outputs;
      RecordsNext(invocations, before, producers, i);
      priorities := priorities + {invocations[i].priority};
    }
  }

  lemma RecordsNext(invocations: seq<Invocation>, before: map<string, nat>, after: map<string, nat>, i: nat)
    requires i < |invocations|
    requires RecordsProducers(invocations, before, i)
    requires forall path :: path in after <==> path in before || path in invocations[i].outputs
    requires forall path :: path in after ==> after[path] == if path in before then before[path] else i
    ensures RecordsProducers(invocations, after, i + 1)
  {
    forall path
      ensures path in before <==> exists k :: 0 <= k < i && path in invocations[k].outputs
    {
      if k :| 0 <= k < i && path in invocations[k].outputs {
        var first := FirstProducerUpTo(invocations, path, k);
        assert path in before && before[path] == first;
      }
      if path in before {
        assert IsFirstProducer(invocations, before[path], path);
      }
    }
  }

  lemma {:induction false} FirstProducerUpTo(invocations: seq<Invocation>, path: string, k: nat) returns (first: nat)
    requires k < |invocations| && path in invocations[k].outputs
    ensures first <= k && IsFirstProducer(invocations, first, path)
  {
    if j :| 0 <= j < k && path in invocations[j].outputs {
      first := FirstProducerUpTo(invocations, path, j);
    } else {
      first := k;
    }
  }

  // The first producers of the listed paths.
  ghost predicate ProducesOneOf(invocations: seq<Invocation>, j: nat, paths: seq<string>) {
    exists path :: path in paths && IsFirstProducer(invocations, j, path)
  }

  method InsertProducers(graph: DirectedGraph<nat>, i: nat, paths: seq<string>, producers: map<string, nat>,
                         ghost invocations: seq<Invocation>)
    requires graph.Valid() && i in graph.adjacency && i < |invocations|
    requires RecordsProducers(invocations, producers, |invocations|)
    requires graph.nodes <= Indices(invocations)
    modifies graph
    ensures graph.Valid() && graph.adjacency.Keys == old(graph.adjacency.Keys)
    ensures graph.nodes <= Indices(invocations)
    ensures forall a: nat, j: nat {:trigger j in Successors(graph.adjacency, a)} ::
              j in Successors(graph.adjacency, a)
              <==> j in Successors(old(graph.adjacency), a) || (a == i && ProducesOneOf(invocations, j, paths))
  {
    for n := 0 to |paths|
      invariant graph.Valid() && graph.adjacency.Keys == old(graph.adjacency.Keys)
      invariant graph.nodes <= Indices(invocations)
      invariant forall a: nat, j: nat {:trigger j in Successors(graph.adjacency, a)} ::
                  j in Successors(graph.adjacency, a)
                  <==> j in Successors(old(graph.adjacency), a) || (a == i && ProducesOneOf(invocations, j, paths[..n]))
    {
      assert paths[..n + 1] == paths[..n] + [paths[n]];
      assert forall j: nat :: ProducesOneOf(invocations, j, paths[..n + 1])
                         <==> ProducesOneOf(invocations, j, paths[..n]) || IsFirstProducer(invocations, j, paths[n]);
      if paths[n] in producers {
        var producer := producers[paths[n]];
        assert IsFirstProducer(invocations, producer, paths[n]);
        assert forall j: nat :: IsFirstProducer(invocations, j, paths[n]) <==> j == producer;
        graph.Insert(i, {producer});
      } else {
        assert forall j: nat :: !IsFirstProducer(invocations, j, paths[n]);
      }
    }
    assert paths[..|paths|] == paths;
  }

  // std::next on the ordered set of priorities: the least priority above p.
  method NextPriority(priorities: set<nat>, p: nat) returns (next: Option<nat>)
    ensures next.None? ==> forall q: nat :: q in priorities ==> q <= p
    ensures next.Some? ==> next.value in priorities && p < next.value
    ensures next.Some? ==> forall q: nat :: q in priorities && p < q ==> next.value <= q
  {
    next := None;
    var rest := priorities;
    while rest != {}
      invariant rest <= priorities
      invariant next.None? ==> forall q: nat :: q in priorities && q !in rest ==> q <= p
      invariant next.Some? ==> next.value in priorities && p < next.value
                               && forall q: nat :: q in priorities && q !in rest && p < q ==> next.value <= q
    {
      var q :| q in rest;
      if p < q && (next.None? || q < next.value) {
        next := Some(q);
      }
      rest := rest - {q};
    }
  }

  method InsertPhaseEdges(graph: DirectedGraph<nat>, invocations: seq<Invocation>, i: nat, next: Option<nat>)
    requires graph.Valid() && i in graph.adjacency && i < |invocations|
    requires graph.nodes <= Indices(invocations)
    modifies graph
    ensures graph.Valid()
    ensures old(graph.adjacency.Keys) <= graph.adjacency.Keys && graph.nodes <= Indices(invocations)
    ensures forall a: nat, j: nat {:trigger j in Successors(graph.adjacency, a)} :: j in Successors(graph.adjacency, a)
              <==> j in Successors(old(graph.adjacency), a)
                   || (j == i && HasPriority(invocations, a, next))
  {
    if next.Some? {
      for n := 0 to |invocations|
        invariant graph.Valid()
        invariant old(graph.adjacency.Keys) <= graph.adjacency.Keys && graph.nodes <= Indices(invocations)
        invariant forall a: nat, j: nat {:trigger j in Successors(graph.adjacency, a)} ::
                    j in Successors(graph.adjacency, a)
                    <==> j in Successors(old(graph.adjacency), a)
                         || (j == i && a < n && HasPriority(invocations, a, next))
      {
        if invocations[n].priority == next.value {
          graph.Insert(n, {i});
        }
      }
    }
  }

  // The edges inserted once the first n invocations have been visited.
  ghost predicate EdgesAfter(invocations: seq<Invocation>, adjacency: Adjacency<nat>, n: nat) {
    forall a: nat, j: nat :: j in Successors(adjacency, a)
                   <==> (a < n && NeedsOutputOf(invocations, a, j)) || (j < n && InNextPhase(invocations, a, j))
  }

  // `next` is what NextPriority finds above the priority of invocation n.
  ghost predicate IsNextPriority(invocations: seq<Invocation>, n: nat, next: Option<nat>) {
    && n < |invocations|
    && (next.None? ==> forall k :: 0 <= k < |invocations| ==> invocations[k].priority <= invocations[n].priority)
    && (next.Some? ==>
          && invocations[n].priority < next.value
          && (exists k :: 0 <= k < |invocations| && invocations[k].priority == next.value)
          && forall k :: 0 <= k < |invocations| && invocations[n].priority < invocations[k].priority
                         ==> next.value <= invocations[k].priority)
  }

  ghost predicate HasPriority(invocations: seq<Invocation>, a: nat, next: Option<nat>) {
    a < |invocations| && next.Some? && invocations[a].priority == next.value
  }

  lemma NextPriorityIsNextPhase(invocations: seq<Invocation>, n: nat, next: Option<nat>, a: nat)
    requires IsNextPriority(invocations, n, next)
    ensures InNextPhase(invocations, a, n) <==> HasPriority(invocations, a, next)
  {
    if InNextPhase(invocations, a, n) {
      var k :| 0 <= k < |invocations| && invocations[k].priority == next.value;
      assert !(invocations[n].priority < invocations[k].priority < invocations[a].priority);
    }
  }

  lemma EdgesAfterNext(invocations: seq<Invocation>, before: Adjacency<nat>, after: Adjacency<nat>, n: nat,
                       next: Option<nat>)
    requires IsNextPriority(invocations, n, next)
    requires EdgesAfter(invocations, before, n)
    requires forall a: nat, j: nat {:trigger j in Successors(after, a)} :: j in Successors(after, a)
               <==> j in Successors(before, a)
                    || (a == n && NeedsOutputOf(invocations, n, j))
                    || (j == n && HasPriority(invocations, a, next))
    ensures EdgesAfter(invocations, after, n + 1)
  {
    forall a: nat, j: nat
      ensures j in Successors(after, a)
              <==> (a < n + 1 && NeedsOutputOf(invocations, a, j)) || (j < n + 1 && InNextPhase(invocations, a, j))
    {
      NextPriorityIsNextPhase(invocations, n, next, a);
    }
  }

  // The edges of one invocation: to the producers of what it consumes, and from every invocation of the next phase.
  method InsertInvocation(graph: DirectedGraph<nat>, invocations: seq<Invocation>, i: nat, producers: map<string, nat>,
                          priorities: set<nat>)
    requires i < |invocations| && graph.Valid()
    requires RecordsProducers(invocations, producers, |invocations|)
    requires priorities == set k | 0 <= k < |invocations| :: invocations[k].priority
    requires graph.nodes <= Indices(invocations) && EdgesAfter(invocations, graph.adjacency, i)
    modifies graph
    ensures graph.Valid() && old(graph.adjacency.Keys) + {i} <= graph.adjacency.Keys
    ensures graph.nodes <= Indices(invocations) && EdgesAfter(invocations, graph.adjacency, i + 1)
  {
    ghost var before := graph.adjacency;
    graph.Insert(i, {});
    InsertProducers(graph, i, invocations[i].inputs, producers, invocations);
    InsertProducers(graph, i, invocations[i].phonyInputs, producers, invocations);
    InsertProducers(graph, i, invocations[i].inputDependencies, producers, invocations);
    ghost var between := graph.adjacency;
    assert forall j: nat :: NeedsOutputOf(invocations, i, j)
                            <==> ProducesOneOf(invocations, j, invocations[i].inputs)
                                 || ProducesOneOf(invocations, j, invocations[i].phonyInputs)
                                 || ProducesOneOf(invocations, j, invocations[i].inputDependencies) by {
      forall j: nat {
        NeedsIsProducesOneOf(invocations, i, j);
      }
    }
    var next := NextPriority(priorities, invocations[i].priority);
    assert IsNextPriority(invocations, i, next) by {
      assert forall k :: 0 <= k < |invocations| ==> invocations[k].priority in priorities;
    }
    InsertPhaseEdges(graph, invocations, i, next);
    EdgesAfterNext(invocations, before, graph.adjacency, i, next);
  }

  lemma NeedsIsProducesOneOf(invocations: seq<Invocation>, i: nat, j: nat)
    requires i < |invocations|
    ensures NeedsOutputOf(invocations, i, j)
            <==> ProducesOneOf(invocations, j, invocations[i].inputs)
                 || ProducesOneOf(invocations, j, invocations[i].phonyInputs)
                 || ProducesOneOf(invocations, j, invocations[i].inputDependencies)
  {
  }

  // SortInvocations. It fails exactly when no order of the invocations lets every consumer follow the recorded
  // (first) producer of what it consumes and every phase follow all lower phases; otherwise it returns such an order.
  method SortInvocations(invocations: seq<Invocation>) returns (result: Option<seq<Invocation>>, ghost order: seq<nat>)
    ensures result.None? <==> forall o :: !IsSchedule(invocations, o)
    ensures result.Some? ==> IsSchedule(invocations, order)
    ensures result.Some? ==> |result.value| == |order| == |invocations|
    ensures result.Some? ==> forall k ::
              0 <= k < |order| ==> order[k] < |invocations| && result.value[k] == invocations[order[k]]
    ensures result.Some? ==> multiset(result.value) == multiset(invocations)
  {
    order := [];
    var producers, priorities := RecordOutputs(invocations);
    var graph := new DirectedGraph<nat>();
    for i := 0 to |invocations|
      invariant fresh(graph) && graph.Valid()
      invariant graph.nodes <= Indices(invocations)
      invariant forall k :: 0 <= k < i ==> k in graph.adjacency
      invariant EdgesAfter(invocations, graph.adjacency, i)
    {
      InsertInvocation(graph, invocations, i, producers, priorities);
    }
    assert IsDependencyGraph(invocations, graph.nodes, graph.adjacency);

    var ordered := graph.Ordered();
    match ordered {
      case None =>
        CyclicMeansUnschedulable(invocations, graph.nodes, graph.adjacency);
        return None, [];
      case Some(indices) =>
        TopologicalIsSchedule(invocations, graph.nodes, graph.adjacency, indices);
        SelectIsPermutation(invocations, indices);
        var sorted: seq<Invocation> := [];
        for k := 0 to |indices|
          invariant sorted == Select(invocations, indices)[..k]
        {
          sorted := sorted + [invocations[indices[k]]];
        }
        assert sorted == Select(invocations, indices);
        return Some(sorted), indices;
    }
  }
}
