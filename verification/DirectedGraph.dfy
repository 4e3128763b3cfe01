// Libraries/pbxbuild/Sources/DirectedGraph.cpp: a directed graph and its depth-first
// topological sort. An edge leads from a node to the nodes it depends on.
module DirectedGraphs {
  import opened Wrappers

  type Adjacency<T> = map<T, set<T>>

  function Successors<T>(adjacency: Adjacency<T>, node: T): set<T> {
    if node in adjacency then adjacency[node] else {}
  }

  // Every node with an adjacency entry and every target of an edge is a node, and there is no other node.
  ghost predicate WellFormed<T(!new)>(nodes: set<T>, adjacency: Adjacency<T>) {
    && adjacency.Keys <= nodes
    && (forall n :: n in adjacency ==> adjacency[n] <= nodes)
    && (forall c {:trigger IsTarget(adjacency, c)} :: c in nodes ==> c in adjacency || IsTarget(adjacency, c))
  }

  ghost predicate IsTarget<T(!new)>(adjacency: Adjacency<T>, c: T) {
    exists n :: n in adjacency && c in adjacency[n]
  }

  // p follows the edges of the graph.
  ghost predicate IsWalk<T>(adjacency: Adjacency<T>, p: seq<T>) {
    p != [] && forall i, j :: 0 <= i < j < |p| && j == i + 1 ==> p[j] in Successors(adjacency, p[i])
  }

  ghost predicate IsCycle<T>(adjacency: Adjacency<T>, p: seq<T>) {
    IsWalk(adjacency, p) && p[0] in Successors(adjacency, p[|p| - 1])
  }

  ghost predicate HasCycle<T(!new)>(adjacency: Adjacency<T>) {
    exists p: seq<T> :: IsCycle(adjacency, p)
  }

  // Every node exactly once, each one after everything it depends on.
  ghost predicate IsTopological<T(!new)>(nodes: set<T>, adjacency: Adjacency<T>, order: seq<T>) {
    && Distinct(order)
    && Elements(order) == nodes
    && DependenciesFirst(adjacency, order)
  }

  ghost predicate DependenciesFirst<T(!new)>(adjacency: Adjacency<T>, order: seq<T>) {
    forall i, c :: 0 <= i < |order| && c in Successors(adjacency, order[i]) ==> c in order[..i]
  }

  // Along a walk the position in the order falls at every step.
  lemma {:induction false} WalkDescends<T(!new)>(adjacency: Adjacency<T>, order: seq<T>, p: seq<T>, k: nat, start: nat)
    returns (at: nat)
    requires DependenciesFirst(adjacency, order) && IsWalk(adjacency, p) && k < |p|
    requires start < |order| && order[start] == p[0]
    ensures at + k <= start && order[at] == p[k]
  {
    if k == 0 {
      at := start;
    } else {
      var prev := WalkDescends(adjacency, order, p, k - 1, start);
      assert p[k - 1 + 1] in Successors(adjacency, order[prev]);
      at :| 0 <= at < prev && order[at] == p[k];
    }
  }

  // A graph that has a topological order has no cycle: the converse of what Ordered establishes by search.
  lemma TopologicalIsAcyclic<T(!new)>(nodes: set<T>, adjacency: Adjacency<T>, order: seq<T>)
    requires adjacency.Keys <= nodes
    requires IsTopological(nodes, adjacency, order)
    ensures !HasCycle(adjacency)
  {
    forall p: seq<T> | IsCycle(adjacency, p)
      ensures false
    {
      var last := p[|p| - 1];
      assert last in adjacency;
      assert last in Elements(order);
      var top :| 0 <= top < |order| && order[top] == last;
      // p[0] stands strictly before the last node, yet the walk from p[0] reaches the last node below it.
      assert p[0] in order[..top];
      var first :| 0 <= first < top && order[first] == p[0];
      var at := WalkDescends(adjacency, order, p, |p| - 1, first);
    }
  }

  // An edge from the top of the depth-first path back to a node on it closes a cycle.
  lemma PathClosesCycle<T(!new)>(adjacency: Adjacency<T>, path: seq<T>, child: T)
    requires path != [] && child in path
    requires IsPath(adjacency, path)
    requires child in Successors(adjacency, path[0])
    ensures HasCycle(adjacency)
  {
    var k :| 0 <= k < |path| && path[k] == child;
    var p := seq(k + 1, i requires 0 <= i <= k => path[k - i]);
    forall i | 0 <= i < |p| - 1
      ensures p[i + 1] in Successors(adjacency, p[i])
    {
      assert path[k - i - 1] in Successors(adjacency, path[k - i - 1 + 1]);
    }
    assert IsCycle(adjacency, p);
  }

  // Once every node with an adjacency entry is explored, every node is.
  lemma ExploredIsEverything<T(!new)>(nodes: set<T>, adjacency: Adjacency<T>, order: seq<T>)
    requires WellFormed(nodes, adjacency)
    requires DependenciesFirst(adjacency, order)
    requires adjacency.Keys <= Elements(order) <= nodes
    ensures Elements(order) == nodes
  {
    forall c | c in nodes
      ensures c in order
    {
      if c !in adjacency {
        assert IsTarget(adjacency, c);
        var n :| n in adjacency && c in adjacency[n];
        assert n in Elements(order);
        var i :| 0 <= i < |order| && order[i] == n;
        assert c in Successors(adjacency, order[i]);
        assert c in order[..i];
      }
    }
  }

  // The state of the depth-first search. The worklist is `path + roots`: the path from the current root,
  // deepest node first, and then the roots still to be tried. Explored nodes stand in `order` after
  // everything they depend on.
  ghost predicate Searching<T(!new)>(nodes: set<T>, adjacency: Adjacency<T>, path: seq<T>, roots: seq<T>,
                                     explored: set<T>, order: seq<T>)
  {
    && explored <= nodes
    && (forall n :: n in path ==> n in nodes && n !in explored)
    && (forall n :: n in roots ==> n in nodes)
    && (forall n :: n in adjacency ==> n in explored || n in path || n in roots)
    && Distinct(path) && IsPath(adjacency, path)
    && (forall n :: n in explored <==> n in order)
    && Distinct(order) && DependenciesFirst(adjacency, order)
  }

  ghost predicate IsPath<T(!new)>(adjacency: Adjacency<T>, path: seq<T>) {
    forall i, j :: 0 <= i < j < |path| && j == i + 1 ==> path[i] in Successors(adjacency, path[j])
  }

  // The inProgress set is exactly the depth-first path, but for a node that was pushed and not yet looked at.
  ghost predicate Tracks<T(!new)>(path: seq<T>, inProgress: set<T>) {
    || OnPath(path, inProgress)
    || (path != [] && OnPath(path[1..], inProgress) && path[0] !in inProgress)
  }

  ghost predicate OnPath<T(!new)>(path: seq<T>, inProgress: set<T>) {
    forall n :: n in inProgress <==> n in path
  }

  // Looking at the deepest node of the path puts it in progress.
  lemma LookAt<T(!new)>(nodes: set<T>, path: seq<T>, inProgress: set<T>)
    requires path != [] && path[0] in nodes
    requires Tracks(path, inProgress)
    ensures OnPath(path, inProgress + {path[0]})
    ensures path[0] !in inProgress ==> |nodes - (inProgress + {path[0]})| < |nodes - inProgress|
    ensures path[0] in inProgress ==> inProgress + {path[0]} == inProgress
  {
    assert path == [path[0]] + path[1..];
    if path[0] !in inProgress {
      assert nodes - inProgress == (nodes - (inProgress + {path[0]})) + {path[0]};
    }
  }

  lemma DropExploredRoot<T(!new)>(nodes: set<T>, adjacency: Adjacency<T>, roots: seq<T>, explored: set<T>,
                                  order: seq<T>, inProgress: set<T>)
    requires Searching(nodes, adjacency, [], roots, explored, order) && Tracks([], inProgress)
    requires roots != [] && roots[0] in explored
    ensures Searching(nodes, adjacency, [], roots[1..], explored, order)
    ensures inProgress == {} && [] + roots == roots && [] + roots[1..] == roots[1..]
  {
    assert roots == [roots[0]] + roots[1..];
  }

  lemma StartRoot<T(!new)>(nodes: set<T>, adjacency: Adjacency<T>, roots: seq<T>, explored: set<T>, order: seq<T>,
                           inProgress: set<T>)
    requires Searching(nodes, adjacency, [], roots, explored, order) && Tracks([], inProgress)
    requires roots != [] && roots[0] !in explored
    ensures Searching(nodes, adjacency, [roots[0]], roots[1..], explored, order) && Tracks([roots[0]], inProgress)
    ensures [] + roots == roots == [roots[0]] + roots[1..]
  {
    assert roots == [roots[0]] + roots[1..];
  }

  lemma PushChild<T(!new)>(nodes: set<T>, adjacency: Adjacency<T>, path: seq<T>, roots: seq<T>, explored: set<T>,
                           order: seq<T>, inProgress: set<T>, child: T)
    requires WellFormed(nodes, adjacency)
    requires Searching(nodes, adjacency, path, roots, explored, order)
    requires path != [] && child in Successors(adjacency, path[0])
    requires OnPath(path, inProgress) && child !in inProgress && child !in explored
    ensures Searching(nodes, adjacency, [child] + path, roots, explored, order)
    ensures Tracks([child] + path, inProgress)
  {
    assert ([child] + path)[1..] == path;
    var path' := [child] + path;
    forall i | 0 <= i < |path'| - 1
      ensures path'[i] in Successors(adjacency, path'[i + 1])
    {
      if i > 0 {
        assert path[i - 1] in Successors(adjacency, path[i - 1 + 1]);
      }
    }
  }

  lemma FinishNode<T(!new)>(nodes: set<T>, adjacency: Adjacency<T>, path: seq<T>, roots: seq<T>, explored: set<T>,
                            order: seq<T>, inProgress: set<T>)
    requires Searching(nodes, adjacency, path, roots, explored, order)
    requires OnPath(path, inProgress)
    requires path != [] && Successors(adjacency, path[0]) <= explored
    ensures Searching(nodes, adjacency, path[1..], roots, explored + {path[0]}, order + [path[0]])
    ensures Tracks(path[1..], inProgress - {path[0]})
    ensures |nodes - (explored + {path[0]})| < |nodes - explored|
  {
    var node := path[0];
    assert path == [node] + path[1..];
    PathTail(adjacency, path);
    AppendExplored(adjacency, order, node);
    assert nodes - explored == (nodes - (explored + {node})) + {node};
  }

  lemma PathTail<T(!new)>(adjacency: Adjacency<T>, path: seq<T>)
    requires path != [] && IsPath(adjacency, path)
    ensures IsPath(adjacency, path[1..])
  {
    forall i, j | 0 <= i < j < |path| - 1 && j == i + 1
      ensures path[1..][i] in Successors(adjacency, path[1..][j])
    {
      assert path[i + 1] in Successors(adjacency, path[j + 1]);
    }
  }

  lemma AppendExplored<T(!new)>(adjacency: Adjacency<T>, order: seq<T>, node: T)
    requires Distinct(order) && DependenciesFirst(adjacency, order)
    requires node !in order && forall c :: c in Successors(adjacency, node) ==> c in order
    ensures Distinct(order + [node]) && DependenciesFirst(adjacency, order + [node])
  {
    var order' := order + [node];
    forall i, c | 0 <= i < |order'| && c in Successors(adjacency, order'[i])
      ensures c in order'[..i]
    {
      assert order'[..i] == order[..i];
      if i == |order| {
        assert order[..i] == order;
      }
    }
  }

  lemma ConcatPush<T>(x: T, a: seq<T>, b: seq<T>)
    ensures [x] + (a + b) == ([x] + a) + b
  {
  }

  lemma ConcatPop<T>(a: seq<T>, b: seq<T>)
    requires a != []
    ensures (a + b)[1..] == a[1..] + b
  {
  }

  // The elements of a set in some order: the iteration order of an unordered container.
  method Iterate<T(==, !new)>(s: set<T>) returns (r: seq<T>)
    ensures Distinct(r) && Elements(r) == s
  {
    r := [];
    var rest := s;
    while rest != {}
      invariant rest <= s && Distinct(r) && Elements(r) == s - rest
      decreases rest
    {
      var x :| x in rest;
      ghost var before := r;
      r := r + [x];
      assert Elements(r) == Elements(before) + {x};
      rest := rest - {x};
    }
  }

  datatype NextStep<T> = InProgress(child: T) | Unexplored(child: T) | AllExplored

  // The scan over a node's children, in whatever order they are iterated: it stops at the first child that is
  // in progress or not yet explored.
  method NextChild<T(==, !new)>(children: set<T>, inProgress: set<T>, explored: set<T>) returns (next: NextStep<T>)
    ensures next.InProgress? ==> next.child in children && next.child in inProgress
    ensures next.Unexplored? ==> next.child in children && next.child !in inProgress && next.child !in explored
    ensures next.AllExplored? <==> children <= explored && children !! inProgress
  {
    var rest := children;
    while rest != {}
      invariant rest <= children
      invariant forall c :: c in children - rest ==> c in explored && c !in inProgress
    {
      var child :| child in rest;
      if child in inProgress {
        return InProgress(child);
      }
      if child !in explored {
        return Unexplored(child);
      }
      rest := rest - {child};
    }
    return AllExplored;
  }

  class DirectedGraph<T(==, !new)> {
    var nodes: set<T>
    var adjacency: Adjacency<T>

    ghost predicate Valid()
      reads this
    {
      WellFormed(nodes, adjacency)
    }

    constructor ()
      ensures Valid() && nodes == {} && adjacency == map[]
    {
      nodes, adjacency := {}, map[];
    }

    method Insert(node: T, adjacent: set<T>)
      requires Valid()
      modifies this
      ensures Valid()
      ensures nodes == old(nodes) + {node} + adjacent
      ensures adjacency.Keys == old(adjacency.Keys) + {node}
      ensures forall n :: Successors(adjacency, n)
                          == Successors(old(adjacency), n) + (if n == node then adjacent else {})
    {
      nodes := nodes + {node};
      nodes := nodes + adjacent;
      if node !in adjacency {
        adjacency := adjacency[node := adjacent];
      } else {
        adjacency := adjacency[node := adjacency[node] + adjacent];
      }
      assert forall n :: n in old(adjacency) ==> n in adjacency && old(adjacency)[n] <= adjacency[n];
      assert node in adjacency && adjacent <= adjacency[node];
      forall c | c in nodes && c !in adjacency
        ensures IsTarget(adjacency, c)
      {
        assert c in adjacent || IsTarget(old(adjacency), c);
      }
    }

    method Adjacent(node: T) returns (r: set<T>)
      requires Valid()
      ensures r == Successors(adjacency, node) && r <= nodes
    {
      if node in adjacency {
        r := adjacency[node];
      } else {
        r := {};
      }
    }

    // Fails exactly on the graphs that have a cycle (a self-loop is one) and otherwise returns a
    // topological order of all nodes. Termination on every graph is part of the proof.
    method Ordered() returns (result: Option<seq<T>>)
      requires Valid()
      ensures result.None? <==> HasCycle(adjacency)
      ensures result.Some? ==> IsTopological(nodes, adjacency, result.value)
    {
      var order: seq<T> := [];
      var toExplore := Iterate(adjacency.Keys);
      var inProgress: set<T> := {};
      var explored: set<T> := {};

      ghost var path: seq<T> := [];
      ghost var roots := toExplore;
      assert toExplore == path + roots;

      while toExplore != []
        invariant toExplore == path + roots
        invariant Searching(nodes, adjacency, path, roots, explored, order)
        invariant Tracks(path, inProgress)
        decreases |nodes - explored|, |nodes - inProgress|,
                  (if toExplore != [] && toExplore[0] in inProgress then 1 else 0), |toExplore|
      {
        var node := toExplore[0];
        if node in explored {
          assert path == [];
          DropExploredRoot(nodes, adjacency, roots, explored, order, inProgress);
          toExplore := toExplore[1..];
          roots := roots[1..];
          continue;
        }

        if path == [] {
          StartRoot(nodes, adjacency, roots, explored, order, inProgress);
          path, roots := [node], roots[1..];
        }
        assert path[0] == node;
        LookAt(nodes, path, inProgress);
        inProgress := inProgress + {node};

        var next := NextChild(Successors(adjacency, node), inProgress, explored);
        match next {
          case InProgress(child) =>
            PathClosesCycle(adjacency, path, child);
            return None;
          case Unexplored(child) =>
            PushChild(nodes, adjacency, path, roots, explored, order, inProgress, child);
            ConcatPush(child, path, roots);
            toExplore := [child] + toExplore;
            path := [child] + path;
          case AllExplored =>
            FinishNode(nodes, adjacency, path, roots, explored, order, inProgress);
            ConcatPop(path, roots);
            toExplore := toExplore[1..];
            path := path[1..];
            inProgress := inProgress - {node};
            explored := explored + {node};
            order := order + [node];
        }
      }

      ExploredIsEverything(nodes, adjacency, order);
      TopologicalIsAcyclic(nodes, adjacency, order);
      return Some(order);
    }
  }
}
