/**
 Validation of the declared `depends_on` pairs: the missing-target check and the three-colour
 depth-first search with parent pointers (builtins/usage.go).
 */
module Dependencies {
  import opened Wrappers
  import opened Graphs
  import Names

  /** One declared dependency; `isRef` marks a dependency given as a handle. */
  datatype Pair = Pair(dependent: string, dependency: string, isRef: bool, fieldPath: string)

  datatype DependencyError =
    | MissingTarget(dependent: string, dependency: string)
    | Circular(path: seq<string>)

  /** The graph of a list of pairs: an edge from each dependent to its dependency. */
  function EdgesOf(deps: seq<Pair>): Graph {
    set d | d in deps :: (d.dependent, d.dependency)
  }

  /** A handle may only name a resource that the script created. */
  ghost predicate AllTargetsExist(deps: seq<Pair>, names: set<string>) {
    forall d :: d in deps && d.isRef ==> d.dependency in names
  }

  ghost predicate FirstMissing(deps: seq<Pair>, names: set<string>, i: nat)
    requires i < |deps|
  {
    deps[i].isRef && deps[i].dependency !in names && AllTargetsExist(deps[..i], names)
  }

  /** Some declared pair leads from `a` to `b`. */
  ghost predicate DependsOn(deps: seq<Pair>, a: string, b: string) {
    exists d :: d in deps && d.dependent == a && d.dependency == b
  }

  /** A chain of declared dependencies that returns to its start. */
  ghost predicate IsCircle(deps: seq<Pair>, p: seq<string>) {
    && |p| >= 2 && p[0] == p[|p| - 1]
    && forall i, j :: 0 <= i && j == i + 1 < |p| ==> DependsOn(deps, p[i], p[j])
  }

  lemma CircleIff(deps: seq<Pair>, p: seq<string>)
    ensures IsCircle(deps, p) <==> IsCycle(EdgesOf(deps), p)
  {
    assert forall a, b {:trigger DependsOn(deps, a, b)} :: DependsOn(deps, a, b) <==> (a, b) in EdgesOf(deps);
  }

  datatype Color = Gray | Black

  /** The active calls of the search, innermost first. */
  datatype Stack = Empty | Push(top: string, below: Stack)

  ghost function Members(s: Stack): set<string> {
    match s
    case Empty => {}
    case Push(n, below) => Members(below) + {n}
  }

  /** No name is stacked twice, and each stands on its parent, from which an edge leads to it. */
  ghost predicate Linked(s: Stack, parent: map<string, string>, g: Graph) {
    s.Push? ==>
      && s.top !in Members(s.below)
      && Linked(s.below, parent, g)
      && StandsOn(s.top, s.below, parent, g)
  }

  ghost predicate StandsOn(n: string, s: Stack, parent: map<string, string>, g: Graph) {
    s.Push? ==> n in parent && parent[n] == s.top && (s.top, n) in g
  }

  lemma {:induction false} LinkedReparent(s: Stack, parent: map<string, string>, g: Graph, n: string, p: string)
    requires Linked(s, parent, g) && n !in Members(s)
    ensures Linked(s, parent[n := p], g)
  {
    if s.Push? {
      LinkedReparent(s.below, parent, g, n, p);
    }
  }

  /** The state of one depth-first search. A name without a colour is white. */
  class CycleSearch {
    const adj: map<string, seq<string>>
    var color: map<string, Color>
    var parent: map<string, string>

    ghost const graph: Graph
    ghost const nodes: set<string>
    ghost var stack: Stack            // the gray names
    ghost var done: map<string, nat>  // the black names, numbered in the order in which they turned black

    constructor (adj: map<string, seq<string>>, ghost graph: Graph, ghost nodes: set<string>)
      requires Represents(adj, graph)
      requires forall e :: e in graph ==> e.1 in nodes
      ensures this.adj == adj && this.graph == graph && this.nodes == nodes
      ensures Valid() && stack == Empty
    {
      this.adj := adj;
      this.graph := graph;
      this.nodes := nodes;
      color := map[];
      parent := map[];
      stack := Empty;
      done := map[];
    }

    /** Gray names form the call stack, linked by parent pointers that are edges of the graph;
        all edges out of a black name lead to names that turned black before it. */
    ghost predicate Valid()
      reads this
    {
      && Represents(adj, graph)
      && (forall e :: e in graph ==> e.1 in nodes)
      && (forall n :: n in color && color[n] == Gray <==> n in Members(stack))
      && (forall n :: n in color && color[n] == Black <==> n in done)
      && Linked(stack, parent, graph)
      && Settled(done, graph)
    }

    /** Between two searches every coloured name is black. */
    lemma ColoredIsDone(n: string)
      requires Valid() && stack == Empty && n in color
      ensures n in done
    {
      assert color[n] != Gray;
    }

    /** Once every node is black, the order in which they turned black excludes cycles. */
    lemma AllDone()
      requires Valid() && forall n :: n in Nodes(graph) ==> n in done.Keys
      ensures Acyclic(graph)
    {
      forall e | e in graph
        ensures e.0 in done && e.1 in done && done[e.1] < done[e.0]
      {
        assert (e.0, e.1) in graph;
      }
      NumberedIsAcyclic(graph, done);
    }

    /** One call of the recursive search on a white name. */
    method Dfs(node: string) returns (err: Option<seq<string>>)
      requires Valid() && node in nodes && node !in color && StandsOn(node, stack, parent, graph)
      modifies this
      ensures err.None? ==> Valid() && stack == old(stack) && old(done).Keys <= done.Keys && node in done
      ensures err.None? ==> |nodes - color.Keys| <= |nodes - old(color).Keys|
      ensures err.Some? ==> IsSimpleCycle(graph, err.value)
      decreases |nodes - color.Keys|, 0
    {
      Open(node);
      assert node in nodes - old(color).Keys && node !in nodes - color.Keys;
      SubsetSmaller(nodes - color.Keys, nodes - old(color).Keys);
      err := VisitAll(node, if node in adj then adj[node] else []);
      if err.None? {
        Close(node);
      }
    }

    /** The loop over the neighbours of the innermost gray name. */
    method VisitAll(node: string, neighbors: seq<string>) returns (err: Option<seq<string>>)
      requires Valid() && stack.Push? && node == stack.top
      requires forall k :: 0 <= k < |neighbors| ==> (node, neighbors[k]) in graph
      modifies this
      ensures err.None? ==> Valid() && stack == old(stack) && old(done).Keys <= done.Keys
      ensures err.None? ==> FirstIn(neighbors, |neighbors|, done.Keys)
      ensures err.None? ==> |nodes - color.Keys| <= |nodes - old(color).Keys|
      ensures err.Some? ==> IsSimpleCycle(graph, err.value)
      decreases |nodes - color.Keys|, 2
    {
      var i := 0;
      while i < |neighbors|
        invariant 0 <= i <= |neighbors|
        invariant Valid() && stack == old(stack) && old(done).Keys <= done.Keys
        invariant FirstIn(neighbors, i, done.Keys)
        invariant |nodes - color.Keys| <= |nodes - old(color).Keys|
      {
        ghost var before := done.Keys;
        err := Visit(node, neighbors[i]);
        if err.Some? {
          return;
        }
        FirstInGrows(neighbors, i, before, done.Keys);
        i := i + 1;
      }
      err := None;
    }

    /** What the search does with one neighbour of the innermost gray name. */
    method Visit(node: string, neighbor: string) returns (err: Option<seq<string>>)
      requires Valid() && stack.Push? && node == stack.top && (node, neighbor) in graph
      modifies this
      ensures err.None? ==> Valid() && stack == old(stack) && old(done).Keys <= done.Keys && neighbor in done
      ensures err.None? ==> |nodes - color.Keys| <= |nodes - old(color).Keys|
      ensures err.Some? ==> IsSimpleCycle(graph, err.value)
      decreases |nodes - color.Keys|, 1
    {
      err := None;
      if neighbor in color && color[neighbor] == Gray {
        var path := CyclePath(node, neighbor);
        return Some(path);
      }
      if neighbor !in color {
        LinkedReparent(stack, parent, graph, neighbor, node);
        parent := parent[neighbor := node];
        err := Dfs(neighbor);
      }
    }

    /** Turns a white name gray. */
    method Open(node: string)
      requires Valid() && node !in color && StandsOn(node, stack, parent, graph)
      modifies `color, `stack
      ensures Valid() && stack == Push(node, old(stack))
      ensures color.Keys == old(color).Keys + {node}
    {
      color := color[node := Gray];
      stack := Push(node, stack);
    }

    /** Turns the innermost gray name black, once all its neighbours are black. */
    method Close(node: string)
      requires Valid() && stack.Push? && node == stack.top
      requires forall b :: (node, b) in graph ==> b in done
      modifies `color, `stack, `done
      ensures Valid() && stack == old(stack).below
      ensures done.Keys == old(done).Keys + {node} && color.Keys == old(color).Keys
    {
      SettledGrows(done, graph, node);
      color := color[node := Black];
      done := done[node := Above(done)];
      stack := stack.below;
    }

    /** The parent-pointer walk from `node` back to the gray name `neighbor`, then reversed. */
    method CyclePath(node: string, neighbor: string) returns (path: seq<string>)
      requires Linked(stack, parent, graph) && stack.Push? && node == stack.top
      requires neighbor in Members(stack) && (node, neighbor) in graph
      ensures IsSimpleCycle(graph, path)
      ensures path[0] == neighbor && path[|path| - 2] == node
    {
      ghost var rest := stack;
      var cycle := [neighbor, node];
      var cur := node;
      while cur != neighbor
        invariant rest.Push? && rest.top == cur && Linked(rest, parent, graph) && neighbor in Members(rest)
        invariant |cycle| >= 2 && cycle[0] == neighbor && cycle[1] == node && cycle[|cycle| - 1] == cur
        invariant forall t :: 1 <= t < |cycle| ==> cycle[t] !in Members(rest.below)
        invariant Backwards(graph, cycle)
        invariant forall t, u :: 1 <= t < u < |cycle| ==> cycle[t] != cycle[u]
        decreases rest
      {
        cur := parent[cur];
        rest := rest.below;
        cycle := cycle + [cur];
      }
      path := Reverse(cycle);
      ReversedWalk(graph, cycle, path);
    }
  }

  /** Every step of `p`, read backwards, is an edge. */
  ghost predicate Backwards(g: Graph, p: seq<string>) {
    forall t, u {:trigger p[t], p[u]} :: 0 <= t < u < |p| && u == t + 1 ==> (p[u], p[t]) in g
  }

  lemma ReversedWalk(g: Graph, p: seq<string>, r: seq<string>)
    requires Backwards(g, p) && |r| == |p| > 0
    requires forall t :: 0 <= t < |p| ==> r[t] == p[|p| - 1 - t]
    ensures IsWalk(g, r)
  {
    forall t | 0 <= t < |r| - 1
      ensures (r[t], r[t + 1]) in g
    {
      var u := |p| - 2 - t;
      assert r[t] == p[u + 1] && r[t + 1] == p[u];
    }
  }

  ghost predicate FirstIn(s: seq<string>, n: nat, d: set<string>)
    requires n <= |s|
  {
    forall k :: 0 <= k < n ==> s[k] in d
  }

  lemma FirstInGrows(s: seq<string>, n: nat, d: set<string>, e: set<string>)
    requires n < |s| && FirstIn(s, n, d) && d <= e && s[n] in e
    ensures FirstIn(s, n + 1, e)
  {
  }

  ghost predicate Represents(adj: map<string, seq<string>>, g: Graph) {
    forall a, b {:trigger (a, b) in g} {:trigger b in adj[a]} :: (a, b) in g <==> a in adj && b in adj[a]
  }

  /** Every edge out of a numbered name leads to a smaller number. */
  ghost predicate Settled(done: map<string, nat>, g: Graph) {
    forall a, b {:trigger (a, b) in g} :: (a, b) in g && a in done ==> b in done && done[b] < done[a]
  }

  lemma SettledGrows(done: map<string, nat>, g: Graph, n: string)
    requires Settled(done, g) && n !in done
    requires forall b :: (n, b) in g ==> b in done
    ensures Settled(done[n := Above(done)], g)
  {
  }

  /** The two-index swap loop that puts the walk into forward order. */
  method Reverse(s: seq<string>) returns (r: seq<string>)
    ensures |r| == |s|
    ensures forall t :: 0 <= t < |s| ==> r[t] == s[|s| - 1 - t]
  {
    r := s;
    var i, j := 0, |s| - 1;
    while i < j
      invariant 0 <= i <= j + 1 <= |s| && i + j == |s| - 1 && |r| == |s|
      invariant forall t :: 0 <= t < i || j < t < |s| ==> r[t] == s[|s| - 1 - t]
      invariant forall t :: i <= t <= j ==> r[t] == s[t]
    {
      r := r[i := r[j]][j := r[i]];
      i, j := i + 1, j - 1;
    }
  }

  /** Accepts exactly the lists whose handles all name created resources and whose graph has no
      cycle; the error of a rejected list is the first missing target, or a real simple cycle. */
  method ValidateDependencies(deps: seq<Pair>, names: set<string>) returns (err: Option<DependencyError>)
    ensures err.None? <==> AllTargetsExist(deps, names) && !exists p :: IsCircle(deps, p)
    ensures err.None? <==> AllTargetsExist(deps, names) && Acyclic(EdgesOf(deps))
    ensures err.Some? && err.value.MissingTarget? ==>
              exists i :: 0 <= i < |deps| && FirstMissing(deps, names, i)
                          && err.value == MissingTarget(deps[i].dependent, deps[i].dependency)
    ensures err.Some? && err.value.Circular? ==>
              var p := err.value.path;
              AllTargetsExist(deps, names) && IsCircle(deps, p) && forall i, j :: 0 <= i < j < |p| - 1 ==> p[i] != p[j]
  {
    forall p
      ensures IsCircle(deps, p) <==> IsCycle(EdgesOf(deps), p)
    {
      CircleIff(deps, p);
    }
    hide IsCircle, IsCycle;
    err := CheckTargets(deps, names);
    if err.None? {
      var cycle := FindCycle(deps);
      if cycle.Some? {
        err := Some(Circular(cycle.value));
      }
    }
  }

  /** Step 1: the first handle whose target the script did not create. */
  method CheckTargets(deps: seq<Pair>, names: set<string>) returns (err: Option<DependencyError>)
    ensures err.None? <==> AllTargetsExist(deps, names)
    ensures err.Some? ==> exists i :: 0 <= i < |deps| && FirstMissing(deps, names, i)
                                      && err.value == MissingTarget(deps[i].dependent, deps[i].dependency)
  {
    var i := 0;
    while i < |deps|
      invariant 0 <= i <= |deps|
      invariant AllTargetsExist(deps[..i], names)
    {
      if deps[i].isRef && deps[i].dependency !in names {
        assert deps[i] in deps && FirstMissing(deps, names, i);
        return Some(MissingTarget(deps[i].dependent, deps[i].dependency));
      }
      assert deps[..i + 1] == deps[..i] + [deps[i]];
      i := i + 1;
    }
    assert deps[..i] == deps;
    err := None;
  }

  /** Step 2: the search, started from every name in sorted order. */
  method FindCycle(deps: seq<Pair>) returns (cycle: Option<seq<string>>)
    ensures cycle.None? ==> Acyclic(EdgesOf(deps))
    ensures cycle.Some? ==> IsSimpleCycle(EdgesOf(deps), cycle.value)
  {
    hide EdgesOf, Acyclic, IsSimpleCycle, CycleSearch.Valid, Names.Ascending;
    var adj, nodes := Adjacency(deps);
    ghost var g := EdgesOf(deps);
    var search := new CycleSearch(adj, g, nodes);
    var sortedNodes := Names.SortNames(nodes);
    var k := 0;
    while k < |sortedNodes|
      invariant 0 <= k <= |sortedNodes|
      invariant search.Valid() && search.stack == Empty
      invariant search.graph == g && search.nodes == nodes
      invariant FirstIn(sortedNodes, k, search.done.Keys)
    {
      var node := sortedNodes[k];
      ghost var before := search.done.Keys;
      if node !in search.color {
        cycle := search.Dfs(node);
        if cycle.Some? {
          return;
        }
      } else {
        search.ColoredIsDone(node);
      }
      FirstInGrows(sortedNodes, k, before, search.done.Keys);
      k := k + 1;
    }
    assert forall n :: n in nodes ==> n in search.done.Keys;
    search.AllDone();
    cycle := None;
  }

  lemma NodesGrow(g: Graph, a: string, b: string)
    ensures Nodes(g + {(a, b)}) == Nodes(g) + {a, b}
  {
    var h := g + {(a, b)};
    assert (a, b) in h;
    assert forall e :: e in h <==> e in g || e == (a, b);
  }

  /** The adjacency lists and the node set built from the pairs in declaration order. */
  method Adjacency(deps: seq<Pair>) returns (adj: map<string, seq<string>>, nodes: set<string>)
    ensures Represents(adj, EdgesOf(deps))
    ensures nodes == Nodes(EdgesOf(deps))
  {
    adj, nodes := map[], {};
    ghost var g: Graph := {};
    var i := 0;
    while i < |deps|
      invariant 0 <= i <= |deps|
      invariant Represents(adj, g) && nodes == Nodes(g)
      invariant g == EdgesOf(deps[..i])
    {
      var d := deps[i];
      var before := if d.dependent in adj then adj[d.dependent] else [];
      adj := adj[d.dependent := before + [d.dependency]];
      nodes := nodes + {d.dependent, d.dependency};
      NodesGrow(g, d.dependent, d.dependency);
      EdgesGrow(deps, i);
      g := g + {(d.dependent, d.dependency)};
      i := i + 1;
    }
    assert deps[..i] == deps;
  }

  lemma EdgesGrow(deps: seq<Pair>, i: nat)
    requires i < |deps|
    ensures EdgesOf(deps[..i + 1]) == EdgesOf(deps[..i]) + {(deps[i].dependent, deps[i].dependency)}
  {
    assert deps[..i + 1] == deps[..i] + [deps[i]];
  }
}
