/**
 The bounded least-recently-used cache of compiled patterns (builtins/regex.go). Compilation is a
 given function.
 */
module RegexCache {
  import opened Wrappers

  // ---------------------------------------------------------------- recency

  /** `l` without `p`. */
  function Without(l: seq<string>, p: string): seq<string> {
    if l == [] then []
    else if l[0] == p then Without(l[1..], p)
    else [l[0]] + Without(l[1..], p)
  }

  /** The distinct entries of a request history, most recently requested first. */
  function Recent(h: seq<string>): seq<string> {
    if h == [] then []
    else [h[|h| - 1]] + Without(Recent(h[..|h| - 1]), h[|h| - 1])
  }

  function Take(l: seq<string>, n: nat): seq<string> {
    if |l| <= n then l else l[..n]
  }

  /** The first `n` entries, or all if there are no more. */
  lemma TakeExactly(l: seq<string>, n: nat)
    ensures Take(l, n) <= l && |Take(l, n)| <= n && (Take(l, n) != l ==> |Take(l, n)| == n)
  {
  }

  ghost predicate Distinct(l: seq<string>) {
    forall i, j :: 0 <= i < j < |l| ==> l[i] != l[j]
  }

  ghost function Elems(l: seq<string>): set<string> {
    set x | x in l
  }

  lemma {:induction false} WithoutMembers(l: seq<string>, p: string)
    ensures forall x :: x in Without(l, p) <==> x in l && x != p
  {
    if l != [] {
      WithoutMembers(l[1..], p);
      assert l == [l[0]] + l[1..];
    }
  }

  lemma {:induction false} WithoutAbsent(l: seq<string>, p: string)
    requires p !in l
    ensures Without(l, p) == l
  {
    if l != [] {
      WithoutAbsent(l[1..], p);
      assert l == [l[0]] + l[1..];
    }
  }

  /** Removing a distinct list's only occurrence of `p` leaves what is before and after it. */
  lemma {:induction false} WithoutAt(l: seq<string>, p: string, i: nat)
    requires Distinct(l) && i < |l| && l[i] == p
    ensures Without(l, p) == l[..i] + l[i + 1..]
  {
    if i == 0 {
      WithoutAbsent(l[1..], p);
    } else {
      WithoutAt(l[1..], p, i - 1);
      assert l[..i] + l[i + 1..] == [l[0]] + (l[1..][..i - 1] + l[1..][i..]);
    }
  }

  lemma WithoutDistinct(l: seq<string>, p: string)
    requires Distinct(l)
    ensures Distinct([p] + Without(l, p))
  {
    if p in l {
      var i :| 0 <= i < |l| && l[i] == p;
      WithoutAt(l, p, i);
    } else {
      WithoutAbsent(l, p);
    }
  }

  lemma {:induction false} RecentDistinct(h: seq<string>)
    ensures Distinct(Recent(h))
  {
    if h != [] {
      RecentDistinct(h[..|h| - 1]);
      WithoutDistinct(Recent(h[..|h| - 1]), h[|h| - 1]);
    }
  }

  /** The position of the last request for `p`, or -1. */
  function LastRequest(h: seq<string>, p: string): int {
    if h == [] then -1
    else if h[|h| - 1] == p then |h| - 1
    else LastRequest(h[..|h| - 1], p)
  }

  lemma {:induction false} LastRequestSpec(h: seq<string>, p: string)
    ensures LastRequest(h, p) < |h|
    ensures p in h <==> LastRequest(h, p) >= 0
    ensures p in h ==> h[LastRequest(h, p)] == p && p !in h[LastRequest(h, p) + 1..]
  {
    if h != [] {
      var g := h[..|h| - 1];
      LastRequestSpec(g, p);
      assert h == g + [h[|h| - 1]];
      var i := LastRequest(h, p);
      if p in g && h[|h| - 1] != p {
        assert h[i + 1..] == g[i + 1..] + [h[|h| - 1]];
      }
    }
  }

  /** The entries of `l` were last requested in falling order. */
  ghost predicate ByRecency(h: seq<string>, l: seq<string>) {
    l != [] ==> (forall x :: x in l[1..] ==> LastRequest(h, x) < LastRequest(h, l[0])) && ByRecency(h, l[1..])
  }

  lemma {:induction false} WithoutByRecency(h: seq<string>, l: seq<string>, p: string)
    requires ByRecency(h, l)
    ensures ByRecency(h + [p], Without(l, p))
  {
    if l != [] {
      WithoutByRecency(h, l[1..], p);
      WithoutMembers(l[1..], p);
      assert (h + [p])[..|h|] == h;
      if l[0] != p {
        var w := Without(l, p);
        assert w[1..] == Without(l[1..], p);
      }
    }
  }

  /** The recursive listing has exactly the requested patterns, each once, ordered by last request. */
  lemma {:induction false} RecentIsByRecency(h: seq<string>)
    ensures Distinct(Recent(h)) && ByRecency(h, Recent(h)) && forall x :: x in Recent(h) <==> x in h
  {
    RecentDistinct(h);
    if h != [] {
      var g, p := h[..|h| - 1], h[|h| - 1];
      assert h == g + [p];
      RecentIsByRecency(g);
      var w := Without(Recent(g), p);
      WithoutMembers(Recent(g), p);
      WithoutByRecency(g, Recent(g), p);
      assert ([p] + w)[1..] == w;
      forall x | x in w
        ensures LastRequest(h, x) < LastRequest(h, p)
      {
        LastRequestSpec(g, x);
      }
    }
  }

  // ---------------------------------------------------------------- one more request

  lemma RecentSnoc(h: seq<string>, p: string)
    ensures Recent(h + [p]) == [p] + Without(Recent(h), p)
  {
    assert (h + [p])[..|h|] == h;
  }

  lemma RecentHit(h: seq<string>, p: string, n: nat, i: nat)
    requires i < |Take(Recent(h), n)| && Take(Recent(h), n)[i] == p
    ensures var t := Take(Recent(h), n); Take(Recent(h + [p]), n) == [p] + (t[..i] + t[i + 1..])
  {
    hide Recent, Without, Distinct;
    RecentSnoc(h, p);
    RecentDistinct(h);
    WithoutAt(Recent(h), p, i);
    TakeMoved(Recent(h), n, i);
  }

  lemma TakeMoved(l: seq<string>, n: nat, i: nat)
    requires i < |Take(l, n)|
    ensures var t := Take(l, n); Take([l[i]] + (l[..i] + l[i + 1..]), n) == [l[i]] + (t[..i] + t[i + 1..])
  {
    if |l| > n {
      assert l[..n][..i] == l[..i] && l[..n][i + 1..] == l[i + 1..n];
      assert l[i + 1..] == l[i + 1..n] + l[n..];
    }
  }

  lemma RecentMiss(h: seq<string>, p: string, n: nat)
    requires p !in Take(Recent(h), n)
    ensures Take(Recent(h + [p]), n) == Take([p] + Take(Recent(h), n), n)
  {
    hide Recent, Without, Distinct;
    RecentSnoc(h, p);
    RecentDistinct(h);
    var l := Recent(h);
    if p in l {
      var i :| 0 <= i < |l| && l[i] == p;
      assert forall k :: 0 <= k < |Take(l, n)| ==> Take(l, n)[k] == l[k];
      WithoutAt(l, p, i);
      TakePushed(l, p, n, i);
    } else {
      WithoutAbsent(l, p);
      TakePushed(l, p, n, |l|);
    }
  }

  /** Beyond the first `n` entries an entry may be missing. */
  lemma TakePushed(l: seq<string>, p: string, n: nat, i: nat)
    requires |Take(l, n)| <= i <= |l|
    ensures i < |l| ==> Take([p] + (l[..i] + l[i + 1..]), n) == Take([p] + Take(l, n), n)
    ensures Take([p] + l, n) == Take([p] + Take(l, n), n)
  {
    if |l| > n {
      assert l == l[..n] + l[n..];
      assert l[..i] == l[..n] + l[n..i];
    }
  }

  lemma EvictLast(l: seq<string>)
    requires Distinct(l) && l != []
    ensures Elems(l[..|l| - 1]) == Elems(l) - {l[|l| - 1]}
  {
    var n := |l| - 1;
    assert l == l[..n] + [l[n]];
    assert l[n] !in l[..n];
  }

  lemma PushDistinct(l: seq<string>, p: string)
    requires Distinct(l) && p !in l
    ensures Distinct([p] + l) && Elems([p] + l) == Elems(l) + {p}
  {
  }

  lemma MoveKeepsElems(l: seq<string>, i: nat)
    requires i < |l|
    ensures Elems([l[i]] + (l[..i] + l[i + 1..])) == Elems(l)
  {
    assert l == l[..i] + [l[i]] + l[i + 1..];
  }

  // ---------------------------------------------------------------- the cache

  datatype Entry<Re> = Entry(pattern: string, re: Re)

  function Patterns<Re>(l: seq<Entry<Re>>): seq<string> {
    seq(|l|, i requires 0 <= i < |l| => l[i].pattern)
  }

  class Cache<Re> {
    const capacity: nat
    const compile: string -> Option<Re>
    var ll: seq<Entry<Re>>
    var items: map<string, Re>
    ghost var history: seq<string>  // the requests that compiled

    constructor (capacity: nat, compile: string -> Option<Re>)
      ensures Valid() && history == [] && this.capacity == capacity && this.compile == compile
    {
      this.capacity := capacity;
      this.compile := compile;
      ll, items, history := [], map[], [];
    }

    /** The list is the most recently requested distinct patterns, as many as fit; list and map hold
        the same patterns, each with its compilation. */
    ghost predicate Valid()
      reads this
    {
      && Patterns(ll) == Take(Recent(history), capacity)
      && items.Keys == Elems(Patterns(ll))
      && (forall e :: e in ll ==> compile(e.pattern) == Some(e.re))
      && (forall p :: p in items ==> compile(p) == Some(items[p]))
    }

    /** The answer is that of a fresh compilation, cached or not; a pattern that compiles becomes the
        most recent one. */
    method Get(pattern: string) returns (re: Option<Re>)
      requires Valid()
      modifies `ll, `items, `history
      ensures Valid()
      ensures re == compile(pattern)
      ensures history == if re.Some? then old(history) + [pattern] else old(history)
    {
      hide Recent, Distinct;
      if pattern in items {
        assert pattern in Patterns(ll);
        var i :| 0 <= i < |ll| && ll[i].pattern == pattern;
        re := Some(items[pattern]);
        RecentHit(history, pattern, capacity, i);
        MoveKeepsElems(Patterns(ll), i);
        history := history + [pattern];
        MoveToFront(i);
        return;
      }
      re := compile(pattern);
      if re.None? {
        return;
      }
      assert pattern !in Patterns(ll);
      RecentMiss(history, pattern, capacity);
      RecentDistinct(history);
      TakeDistinct(Recent(history), capacity);
      PushFront(pattern, re.value);
      history := history + [pattern];
    }

    /** Puts the entry at position `i` first. */
    method MoveToFront(i: nat)
      requires i < |ll|
      modifies `ll
      ensures var before := Patterns(old(ll)); Patterns(ll) == [before[i]] + (before[..i] + before[i + 1..])
      ensures forall e :: e in ll ==> e in old(ll)
    {
      ll := [ll[i]] + (ll[..i] + ll[i + 1..]);
    }

    /** Adds an entry in front and evicts the last one when the capacity is exceeded. */
    method PushFront(pattern: string, re: Re)
      requires pattern !in Patterns(ll) && |ll| <= capacity && Distinct(Patterns(ll)) && items.Keys == Elems(Patterns(ll))
      requires compile(pattern) == Some(re)
      requires forall e :: e in ll ==> compile(e.pattern) == Some(e.re)
      requires forall p :: p in items ==> compile(p) == Some(items[p])
      modifies `ll, `items
      ensures Patterns(ll) == Take([pattern] + Patterns(old(ll)), capacity) && items.Keys == Elems(Patterns(ll))
      ensures forall e :: e in ll ==> compile(e.pattern) == Some(e.re)
      ensures forall p :: p in items ==> compile(p) == Some(items[p])
    {
      hide Distinct, Elems;
      ghost var l := [pattern] + Patterns(ll);
      PushDistinct(Patterns(ll), pattern);
      EvictLast(l);
      ll := [Entry(pattern, re)] + ll;
      items := items[pattern := re];
      assert Patterns(ll) == l;
      if |ll| > capacity {
        var back := ll[|ll| - 1];
        ll := ll[..|ll| - 1];
        assert Patterns(ll) == l[..|l| - 1];
        items := items - {back.pattern};
      }
    }
  }

  lemma TakeDistinct(l: seq<string>, n: nat)
    requires Distinct(l)
    ensures Distinct(Take(l, n))
  {
  }
}
