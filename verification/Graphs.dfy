/**
 Finite directed graphs over names: walks, reachability, cycles, and the two facts that
 every graph algorithm of the system rests on: adding an edge that closes no walk keeps a
 graph acyclic, and in an acyclic graph every node has a longest walk.
 */
module Graphs {

  type Name = string

  /** A graph is its set of edges (from, to). */
  type Graph = set<(Name, Name)>

  /** `p` is a nonempty sequence of names in which every step is an edge. */
  ghost predicate IsWalk(g: Graph, p: seq<Name>) {
    |p| > 0 && forall i, j :: 0 <= i && j == i + 1 < |p| ==> (p[i], p[j]) in g
  }

  ghost predicate WalkFromTo(g: Graph, p: seq<Name>, a: Name, b: Name) {
    IsWalk(g, p) && p[0] == a && p[|p| - 1] == b
  }

  /** Reachability in zero or more steps. */
  ghost predicate Reaches(g: Graph, a: Name, b: Name) {
    exists p :: WalkFromTo(g, p, a, b)
  }

  /** A walk of at least one step that returns to its start; self-loops count. */
  ghost predicate IsCycle(g: Graph, p: seq<Name>) {
    |p| >= 2 && IsWalk(g, p) && p[0] == p[|p| - 1]
  }

  /** A cycle that repeats no name except that its first name is also its last. */
  ghost predicate IsSimpleCycle(g: Graph, p: seq<Name>) {
    IsCycle(g, p) && forall i, j :: 0 <= i < j < |p| - 1 ==> p[i] != p[j]
  }

  ghost predicate Acyclic(g: Graph) {
    !exists p :: IsCycle(g, p)
  }

  /** `s` is closed under the edges of `g`. */
  ghost predicate Closed(g: Graph, s: set<Name>) {
    forall e :: e in g && e.0 in s ==> e.1 in s
  }

  /** The nodes that some edge touches. */
  function Nodes(g: Graph): (s: set<Name>)
    ensures forall e :: e in g ==> e.0 in s && e.1 in s
  {
    (set e | e in g :: e.0) + (set e | e in g :: e.1)
  }

  // ---------------------------------------------------------------- reachability

  lemma ReachesSelf(g: Graph, a: Name)
    ensures Reaches(g, a, a)
  {
    assert WalkFromTo(g, [a], a, a);
  }

  lemma ReachesStep(g: Graph, a: Name, b: Name, c: Name)
    requires Reaches(g, a, b) && (b, c) in g
    ensures Reaches(g, a, c)
  {
    var p :| WalkFromTo(g, p, a, b);
    assert WalkFromTo(g, p + [c], a, c);
  }

  /** A walk that starts in a closed set stays in it. */
  lemma {:induction false} WalkStaysClosed(g: Graph, s: set<Name>, p: seq<Name>, k: nat)
    requires Closed(g, s) && IsWalk(g, p) && p[0] in s && k < |p|
    ensures p[k] in s
  {
    if k > 0 {
      WalkStaysClosed(g, s, p, k - 1);
      assert (p[k - 1], p[k]) in g;
    }
  }

  lemma ClosedExcludesReach(g: Graph, s: set<Name>, a: Name, b: Name)
    requires Closed(g, s) && a in s && b !in s
    ensures !Reaches(g, a, b)
  {
    forall p | WalkFromTo(g, p, a, b)
      ensures false
    {
      WalkStaysClosed(g, s, p, |p| - 1);
    }
  }

  // ---------------------------------------------------------------- acyclicity

  /** A numbering that falls along every edge excludes cycles. */
  lemma NumberedIsAcyclic(g: Graph, rank: map<Name, nat>)
    requires forall e :: e in g ==> e.0 in rank && e.1 in rank && rank[e.1] < rank[e.0]
    ensures Acyclic(g)
  {
    forall p | IsCycle(g, p)
      ensures false
    {
      RankFalls(g, rank, p, |p| - 1);
    }
  }

  lemma {:induction false} RankFalls(g: Graph, rank: map<Name, nat>, p: seq<Name>, k: nat)
    requires forall e :: e in g ==> e.0 in rank && e.1 in rank && rank[e.1] < rank[e.0]
    requires IsWalk(g, p) && 0 < k < |p|
    ensures p[0] in rank && p[k] in rank && rank[p[k]] + k <= rank[p[0]]
  {
    assert (p[k - 1], p[k]) in g;
    if k > 1 {
      RankFalls(g, rank, p, k - 1);
    }
  }

  /** A closed-off position: from `b` onwards a walk of `g + {(a, b)}` never meets `a` again. */
  lemma {:induction false} ReachStaysApart(g: Graph, a: Name, b: Name, p: seq<Name>, i: nat, k: nat)
    requires !Reaches(g, b, a)
    requires IsWalk(g + {(a, b)}, p) && i <= k < |p| && Reaches(g, b, p[i])
    ensures Reaches(g, b, p[k])
  {
    if i < k {
      ReachStaysApart(g, a, b, p, i, k - 1);
      assert (p[k - 1], p[k]) in g + {(a, b)};
      ReachesStep(g, b, p[k - 1], p[k]);
    }
  }

  /** The incremental test of the resolver: a new edge whose head does not reach its tail
      closes no cycle. */
  lemma AddEdgeAcyclic(g: Graph, a: Name, b: Name)
    requires Acyclic(g) && !Reaches(g, b, a)
    ensures Acyclic(g + {(a, b)})
  {
    var h := g + {(a, b)};
    forall p | IsCycle(h, p)
      ensures false
    {
      if i :| 0 <= i < |p| - 1 && (p[i], p[i + 1]) !in g {
        assert (p[i], p[i + 1]) in h;
        ReachesSelf(g, b);
        ReachStaysApart(g, a, b, p, i + 1, |p| - 1);
        ReachStaysApart(g, a, b, p, 0, i);
      } else {
        assert IsCycle(g, p);
      }
    }
  }

  /** The converse: if the head reaches the tail, the new edge closes a cycle. */
  lemma AddEdgeCyclic(g: Graph, a: Name, b: Name)
    requires Reaches(g, b, a)
    ensures !Acyclic(g + {(a, b)})
  {
    var p :| WalkFromTo(g, p, b, a);
    assert IsCycle(g + {(a, b)}, p + [b]);
  }

  lemma SubgraphAcyclic(g: Graph, h: Graph)
    requires g <= h && Acyclic(h)
    ensures Acyclic(g)
  {
    forall p | IsCycle(g, p)
      ensures false
    {
      assert IsCycle(h, p);
    }
  }

  /** A walk in an acyclic graph repeats nothing. */
  lemma AcyclicWalkDistinct(g: Graph, p: seq<Name>)
    requires Acyclic(g) && IsWalk(g, p)
    ensures forall i, j :: 0 <= i < j < |p| ==> p[i] != p[j]
  {
    forall i, j | 0 <= i < j < |p|
      ensures p[i] != p[j]
    {
      if p[i] == p[j] {
        assert IsCycle(g, p[i..j + 1]);
      }
    }
  }

  lemma {:induction false} DistinctFits(p: seq<Name>, s: set<Name>)
    requires forall i, j :: 0 <= i < j < |p| ==> p[i] != p[j]
    requires forall i :: 0 <= i < |p| ==> p[i] in s
    ensures |p| <= |s|
  {
    if p != [] {
      DistinctFits(p[1..], s - {p[0]});
    }
  }

  // ---------------------------------------------------------------- longest walks

  /** Some walk of exactly `n` steps starts at `a`. */
  ghost predicate HasChain(g: Graph, a: Name, n: nat) {
    exists p :: IsWalk(g, p) && |p| == n + 1 && p[0] == a
  }

  lemma ChainBound(g: Graph, a: Name, n: nat)
    requires Acyclic(g) && HasChain(g, a, n)
    ensures n <= |Nodes(g)|
  {
    var p :| IsWalk(g, p) && |p| == n + 1 && p[0] == a;
    if n > 0 {
      AcyclicWalkDistinct(g, p);
      forall i | 0 <= i < |p|
        ensures p[i] in Nodes(g)
      {
        if i + 1 < |p| { assert (p[i], p[i + 1]) in g; } else { assert (p[i - 1], p[i]) in g; }
      }
      DistinctFits(p, Nodes(g));
    }
  }

  ghost function LongestFrom(g: Graph, a: Name, n: nat): (r: nat)
    requires Acyclic(g) && HasChain(g, a, n)
    ensures HasChain(g, a, r) && r >= n
    ensures forall k: nat :: HasChain(g, a, k) ==> k <= r || k < n
    decreases |Nodes(g)| + 1 - n
  {
    ChainBound(g, a, n);
    if k: nat :| k > n && HasChain(g, a, k) then
      ChainBound(g, a, k);
      LongestFrom(g, a, k)
    else n
  }

  /** The number of steps of the longest walk that starts at `a`. */
  ghost function Rank(g: Graph, a: Name): (r: nat)
    requires Acyclic(g)
    ensures HasChain(g, a, r)
    ensures forall k: nat :: HasChain(g, a, k) ==> k <= r
  {
    assert IsWalk(g, [a]);
    LongestFrom(g, a, 0)
  }

  lemma RankStep(g: Graph, a: Name, b: Name)
    requires Acyclic(g) && (a, b) in g
    ensures Rank(g, b) < Rank(g, a)
  {
    var n := Rank(g, b);
    assert HasChain(g, b, n);
    var p :| IsWalk(g, p) && |p| == n + 1 && p[0] == b;
    var q := [a] + p;
    forall i | 0 <= i < |q| - 1
      ensures (q[i], q[i + 1]) in g
    {
      if i > 0 { assert (p[i - 1], p[i]) in g; }
    }
    assert IsWalk(g, q) && |q| == n + 2 && q[0] == a;
    assert HasChain(g, a, n + 1);
  }

  // ---------------------------------------------------------------- starvation

  /** Every member of `s` has an edge to a member of `s`. */
  ghost predicate EachHasSuccessorIn(g: Graph, s: set<Name>) {
    forall x {:trigger HasSuccessorIn(g, s, x)} :: x in s ==> HasSuccessorIn(g, s, x)
  }

  ghost predicate HasSuccessorIn(g: Graph, s: set<Name>, x: Name) {
    exists y :: (x, y) in g && y in s
  }

  lemma CycleStarves(g: Graph, p: seq<Name>)
    requires IsCycle(g, p)
    ensures exists s :: s != {} && EachHasSuccessorIn(g, s)
  {
    var s := set i | 0 <= i < |p| :: p[i];
    forall x | x in s
      ensures HasSuccessorIn(g, s, x)
    {
      var i :| 0 <= i < |p| && p[i] == x;
      var j := if i + 1 < |p| then i + 1 else 1;
      assert (p[j - 1], p[j]) in g;
      assert (x, p[j]) in g && p[j] in s;
    }
    assert p[0] in s && EachHasSuccessorIn(g, s);
  }

  lemma {:induction false} DescendForever(g: Graph, s: set<Name>, x: Name)
    requires Acyclic(g) && EachHasSuccessorIn(g, s) && x in s
    ensures false
    decreases Rank(g, x)
  {
    assert HasSuccessorIn(g, s, x);
    var y :| (x, y) in g && y in s;
    RankStep(g, x, y);
    DescendForever(g, s, y);
  }

  /** A graph has a cycle exactly when some nonempty set of names is closed off in this way. */
  lemma CyclicIffStarvingSet(g: Graph)
    ensures !Acyclic(g) <==> exists s :: s != {} && EachHasSuccessorIn(g, s)
  {
    if p :| IsCycle(g, p) {
      CycleStarves(g, p);
    } else if s :| s != {} && EachHasSuccessorIn(g, s) {
      var x :| x in s;
      DescendForever(g, s, x);
    }
  }

  // ---------------------------------------------------------------- numberings

  /** A number above all numbers of a numbering. */
  ghost function Above(rank: map<Name, nat>): (n: nat)
    ensures forall x :: x in rank ==> rank[x] < n
  {
    if rank.Keys == {} then 0 else
      var x :| x in rank.Keys;
      var m := Above(rank - {x});
      assert forall y :: y in rank && y != x ==> y in rank - {x};
      if m <= rank[x] then rank[x] + 1 else m
  }

  lemma SubsetSmaller(a: set<Name>, b: set<Name>)
    requires a < b
    ensures |a| < |b|
  {
    assert |b| == |a| + |b - a| by { assert a + (b - a) == b; }
  }
}
