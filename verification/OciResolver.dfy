/**
 Transitive resolution of OCI load targets: level by level, with a memo of loaded artifacts, an
 incrementally built dependency graph, an explicit-stack reachability search and a depth limit
 (runtime/oci/resolver.go).
 */
module OciResolver {
  import opened Wrappers
  import opened Graphs
  import opened OciCache

  const MAX_TRANSITIVE_DEPTH: nat := 10

  /** A parsed oci:// load target. */
  datatype Target = Target(rawUrl: string, refStr: string, file: string, digest: string)

  /** The parser of load targets and the scanner of module sources, as given functions. */
  datatype Syntax = Syntax(parse: string -> Target, scan: (string, string) -> Option<seq<Target>>)

  datatype ResolveError =
    | DepthExceeded
    | Unfetched(ref: string, cause: FetchError)
    | FileNotFound(ref: string, file: string)
    | CycleDetected(from: string, to: string)

  // ---------------------------------------------------------------- what artifacts load

  /** The targets that the scan of one source finds; a source that does not scan is skipped. */
  function ScanOf(x: Syntax, src: string, ref: string): seq<Target> {
    match x.scan(src, ref)
    case Some(ts) => ts
    case None => []
  }

  /** The targets scanned from any file of the artifact `ref`. */
  ghost function TargetsOf(x: Syntax, files: Files, ref: string): set<Target> {
    set f, t | f in files && x.scan(files[f], ref).Some? && t in x.scan(files[f], ref).value :: t
  }

  /** Every target that a scan yields is the parse of its own URL. */
  ghost predicate ScansParsed(x: Syntax) {
    forall src, ref, t :: x.scan(src, ref).Some? && t in x.scan(src, ref).value ==> x.parse(t.rawUrl) == t
  }

  /** Artifact `a`, which is loaded, loads a file of another artifact `b`. */
  ghost predicate LoadsOther(x: Syntax, loaded: map<string, Files>, a: string, b: string) {
    a in loaded && a != b && exists t :: t in TargetsOf(x, loaded[a], a) && t.refStr == b
  }

  /** Every edge of `g` is a load between two artifacts. */
  ghost predicate RealLoads(x: Syntax, loaded: map<string, Files>, g: Graph) {
    forall e :: e in g ==> LoadsOther(x, loaded, e.0, e.1)
  }

  // ---------------------------------------------------------------- distance from the roots

  /** Some walk of exactly `n` steps leads from a root to `a`. */
  ghost predicate AtDistance(g: Graph, roots: set<string>, a: string, n: nat) {
    exists p :: IsWalk(g, p) && |p| == n + 1 && p[0] in roots && p[n] == a
  }

  ghost predicate IsShortestDistance(g: Graph, roots: set<string>, a: string, n: nat) {
    AtDistance(g, roots, a, n) && forall m: nat :: AtDistance(g, roots, a, m) ==> n <= m
  }

  lemma AtDistanceMonotone(g: Graph, h: Graph, roots: set<string>, a: string, n: nat)
    requires g <= h && AtDistance(g, roots, a, n)
    ensures AtDistance(h, roots, a, n)
  {
    var p :| IsWalk(g, p) && |p| == n + 1 && p[0] in roots && p[n] == a;
    assert IsWalk(h, p);
  }

  lemma AtDistanceStep(g: Graph, roots: set<string>, a: string, n: nat, b: string)
    requires AtDistance(g, roots, a, n) && (a, b) in g
    ensures AtDistance(g, roots, b, n + 1)
  {
    var p :| IsWalk(g, p) && |p| == n + 1 && p[0] in roots && p[n] == a;
    var q := p + [b];
    assert IsWalk(g, q) && |q| == n + 2 && q[0] in roots && q[n + 1] == b;
  }

  // ---------------------------------------------------------------- reachability search

  /** `reaches`: an explicit stack and a set of seen names, in arbitrary successor order. */
  method ReachesSearch(edges: Graph, from: string, to: string) returns (found: bool)
    ensures found <==> Reaches(edges, from, to)
  {
    var seen: set<string> := {};
    var stack := [from];
    ghost var universe := Nodes(edges) + {from};
    ReachesSelf(edges, from);
    while stack != []
      invariant seen <= universe && to !in seen
      invariant forall x :: x in stack ==> x in universe && Reaches(edges, from, x)
      invariant forall x :: x in seen ==> Reaches(edges, from, x)
      invariant from in seen || from in stack
      invariant forall e :: e in edges && e.0 in seen ==> e.1 in seen || e.1 in stack
      decreases |universe - seen|, |stack|
    {
      var cur, rest := stack[|stack| - 1], stack[..|stack| - 1];
      LastMember(stack);
      stack := rest;
      if cur == to {
        return true;
      }
      if cur !in seen {
        assert universe - seen == (universe - (seen + {cur})) + {cur};
        seen := seen + {cur};
        var next := Successors(edges, from, cur);
        stack := stack + next;
      }
    }
    ClosedExcludesReach(edges, seen, from, to);
    found := false;
  }

  lemma LastMember(s: seq<string>)
    requires s != []
    ensures forall x :: x in s <==> x in s[..|s| - 1] || x == s[|s| - 1]
  {
    assert s == s[..|s| - 1] + [s[|s| - 1]];
  }

  /** The successors of `cur`, in some order. */
  method Successors(edges: Graph, ghost from: string, cur: string) returns (r: seq<string>)
    requires Reaches(edges, from, cur)
    ensures forall e :: e in edges && e.0 == cur ==> e.1 in r
    ensures forall x :: x in r ==> x in Nodes(edges) && Reaches(edges, from, x)
  {
    r := Listing(set e | e in edges && e.0 == cur :: e.1);
    forall x | x in r
      ensures x in Nodes(edges) && Reaches(edges, from, x)
    {
      assert (cur, x) in edges;
      ReachesStep(edges, from, cur, x);
    }
  }

  /** The members of a set in some order, as a Go map is ranged over. */
  method Listing(s: set<string>) returns (r: seq<string>)
    ensures forall x :: x in r <==> x in s
  {
    r := [];
    var rest := s;
    while rest != {}
      invariant rest <= s
      invariant forall x :: x in r <==> x in s - rest
      decreases rest
    {
      var n :| n in rest;
      r := r + [n];
      rest := rest - {n};
    }
  }

  // ---------------------------------------------------------------- the state of a resolution

  /** The artifacts fetched so far, the graph recorded so far, and the level of each fetch. */
  datatype Progress = Progress(loaded: map<string, Files>, edges: Graph, level: map<string, nat>)

  ghost predicate Extends(p: Progress, q: Progress) {
    && p.edges <= q.edges
    && (forall a :: a in p.loaded ==> a in q.loaded && q.loaded[a] == p.loaded[a])
    && (forall a :: a in p.level ==> a in q.level && q.level[a] == p.level[a])
  }

  /** The recorded graph is real and acyclic, and every artifact was fetched at a level that is the
      length of some walk from the roots. */
  ghost predicate Sound(x: Syntax, roots: set<string>, p: Progress) {
    && p.level.Keys == p.loaded.Keys
    && Acyclic(p.edges)
    && RealLoads(x, p.loaded, p.edges)
    && (forall a :: a in p.level ==> AtDistance(p.edges, roots, a, p.level[a]))
    && (forall r :: r in roots && r in p.level ==> p.level[r] == 0)
  }

  /** All loads of the loaded artifacts, except those of `open`, are recorded. */
  ghost predicate Complete(x: Syntax, p: Progress, open: set<string>) {
    forall a, b {:trigger LoadsOther(x, p.loaded, a, b)} ::
      LoadsOther(x, p.loaded, a, b) && a !in open ==> (a, b) in p.edges
  }

  /** While level `d` is processed: an edge leads at most one level down, or to a target that this
      level still has to process (`now`) or that is queued for the next level (`next`). */
  ghost predicate Near(p: Progress, d: nat, now: set<string>, next: set<string>)
    requires p.level.Keys == p.loaded.Keys
  {
    && (forall a :: a in p.level ==> p.level[a] <= d)
    && (forall e :: e in p.edges && e.0 in p.level ==>
          || (e.1 in p.level && p.level[e.1] <= p.level[e.0] + 1)
          || (e.1 in now && p.level[e.0] + 1 == d)
          || (e.1 in next && p.level[e.0] == d))
    && (forall e :: e in p.edges && e.0 in p.level && p.level[e.0] == d ==> e.1 in next)
  }

  /** `ref` may be fetched at level `d`. */
  ghost predicate Due(p: Progress, roots: set<string>, ref: string, d: nat) {
    (d == 0 && ref in roots) || exists a :: a in p.level && p.level[a] + 1 == d && (a, ref) in p.edges
  }

  function RefsOf(ts: seq<Target>): set<string> {
    set t | t in ts :: t.refStr
  }

  lemma DueMonotone(p: Progress, q: Progress, roots: set<string>, ref: string, d: nat)
    requires Extends(p, q) && Due(p, roots, ref, d)
    ensures Due(q, roots, ref, d)
  {
  }

  lemma DueAtDistance(x: Syntax, p: Progress, roots: set<string>, ref: string, d: nat)
    requires Sound(x, roots, p) && Due(p, roots, ref, d)
    ensures AtDistance(p.edges, roots, ref, d)
  {
    if d == 0 && ref in roots {
      assert IsWalk(p.edges, [ref]);
    } else {
      var a :| a in p.level && p.level[a] + 1 == d && (a, ref) in p.edges;
      AtDistanceStep(p.edges, roots, a, p.level[a], ref);
    }
  }

  function AfterLoad(p: Progress, ref: string, files: Files, d: nat): Progress {
    p.(loaded := p.loaded[ref := files], level := p.level[ref := d])
  }

  function AfterEdge(p: Progress, a: string, b: string): Progress {
    p.(edges := p.edges + {(a, b)})
  }

  /** Fetching an artifact that is due at level `d` keeps the state sound. */
  lemma LoadSound(x: Syntax, p: Progress, roots: set<string>, ref: string, files: Files, d: nat)
    requires Sound(x, roots, p) && ref !in p.loaded && Due(p, roots, ref, d)
    requires d > 0 ==> roots <= p.loaded.Keys
    ensures Sound(x, roots, AfterLoad(p, ref, files, d))
  {
    DueAtDistance(x, p, roots, ref, d);
    forall e | e in p.edges
      ensures LoadsOther(x, p.loaded[ref := files], e.0, e.1)
    {
      LoadsOtherFrame(x, p.loaded, ref, files, e.0, e.1);
    }
  }

  /** After the fetch, only the loads of the new artifact are unrecorded. */
  lemma LoadComplete(x: Syntax, p: Progress, ref: string, files: Files, d: nat)
    requires Complete(x, p, {}) && ref !in p.loaded
    ensures Complete(x, AfterLoad(p, ref, files, d), {ref})
  {
    forall a, b | LoadsOther(x, p.loaded[ref := files], a, b) && a != ref
      ensures (a, b) in p.edges
    {
      LoadsOtherFrame(x, p.loaded, ref, files, a, b);
    }
  }

  lemma LoadsOtherFrame(x: Syntax, loaded: map<string, Files>, ref: string, files: Files, a: string, b: string)
    requires ref !in loaded
    ensures LoadsOther(x, loaded, a, b) ==> LoadsOther(x, loaded[ref := files], a, b)
    ensures LoadsOther(x, loaded[ref := files], a, b) && a != ref ==> LoadsOther(x, loaded, a, b)
  {
  }

  lemma LoadKeepsNear(p: Progress, ref: string, files: Files, d: nat, now: set<string>, next: set<string>)
    requires p.level.Keys == p.loaded.Keys && ref !in p.loaded && Near(p, d, now, next)
    requires forall e :: e in p.edges ==> e.0 in p.level
    ensures var q := AfterLoad(p, ref, files, d);
            q.level.Keys == q.loaded.Keys && Near(q, d, now - {ref}, next) && Extends(p, q)
  {
    var q := AfterLoad(p, ref, files, d);
    assert forall a :: a in p.level ==> q.level[a] == p.level[a];
  }

  lemma EdgeKeeps(x: Syntax, p: Progress, roots: set<string>, a: string, b: string, d: nat,
                  now: set<string>, next: set<string>, open: set<string>)
    requires Sound(x, roots, p) && Complete(x, p, open) && Near(p, d, now, next)
    requires LoadsOther(x, p.loaded, a, b) && p.level[a] == d && !Reaches(p.edges, b, a)
    ensures var q := AfterEdge(p, a, b);
            Extends(p, q) && Sound(x, roots, q) && Complete(x, q, open) && Near(q, d, now, next + {b})
  {
    hide AtDistance, Reaches, Acyclic;
    AddEdgeAcyclic(p.edges, a, b);
    forall c | c in p.level
      ensures AtDistance(p.edges + {(a, b)}, roots, c, p.level[c])
    {
      AtDistanceMonotone(p.edges, p.edges + {(a, b)}, roots, c, p.level[c]);
    }
  }

  // ---------------------------------------------------------------- the log of fetches

  /** One reference asked for through the cache, and the answer. */
  datatype Fetched = Fetched(call: Call, answer: Result<Files, FetchError>)

  function CallsOf(log: seq<Fetched>): seq<Call> {
    seq(|log|, i requires 0 <= i < |log| => log[i].call)
  }

  function AskedRefs(log: seq<Fetched>): set<string> {
    set f | f in log :: f.call.ref
  }

  ghost predicate AllOk(log: seq<Fetched>) {
    forall f :: f in log ==> f.answer.Ok?
  }

  /** What the successful fetches brought. */
  function LoadedBy(log: seq<Fetched>): map<string, Files> {
    if log == [] then map[]
    else
      var before, last := LoadedBy(log[..|log| - 1]), log[|log| - 1];
      if last.answer.Ok? then before[last.call.ref := last.answer.value] else before
  }

  ghost predicate NoRefTwice(log: seq<Fetched>) {
    forall i, j :: 0 <= i < j < |log| ==> log[i].call.ref != log[j].call.ref
  }

  /** Every logged answer is what the cache, started in `began` and having served the calls before,
      answers with the world's next answers. */
  ghost predicate Genuine(began: CacheState, first: nat, answers: nat -> Answers, log: seq<Fetched>) {
    forall k :: 0 <= k < |log| ==>
                  && log[k].call.answers == answers(first + k)
                  && log[k].answer == Step(Run(began, CallsOf(log[..k])), log[k].call).answer
  }

  lemma GenuineAppend(began: CacheState, first: nat, answers: nat -> Answers, log: seq<Fetched>, f: Fetched)
    requires Genuine(began, first, answers, log) && f.call.answers == answers(first + |log|)
    requires f.answer == Step(Run(began, CallsOf(log)), f.call).answer
    ensures Genuine(began, first, answers, log + [f])
  {
    hide Step, Run, CallsOf;
    var longer := log + [f];
    forall k | 0 <= k < |longer|
      ensures longer[k].call.answers == answers(first + k)
      ensures longer[k].answer == Step(Run(began, CallsOf(longer[..k])), longer[k].call).answer
    {
      if k < |log| {
        assert longer[..k] == log[..k];
      } else {
        assert longer[..k] == log;
      }
    }
  }

  lemma NoRefTwiceAppend(log: seq<Fetched>, f: Fetched)
    requires NoRefTwice(log) && f.call.ref !in AskedRefs(log)
    ensures NoRefTwice(log + [f])
  {
    assert forall k :: 0 <= k < |log| ==> log[k].call.ref in AskedRefs(log);
  }

  lemma CallsAppend(began: CacheState, log: seq<Fetched>, f: Fetched)
    ensures Run(began, CallsOf(log + [f])) == Step(Run(began, CallsOf(log)), f.call).cache
  {
    hide Step;
    assert CallsOf(log + [f])[..|log|] == CallsOf(log);
  }

  /** The log accounts for the cache, for what is loaded and for every reference asked for. */
  ghost predicate LogInv(answers: nat -> Answers, began: CacheState, first: nat, log: seq<Fetched>,
                         cache: CacheState, asked: nat, loaded: map<string, Files>) {
    && asked == first + |log|
    && cache == Run(began, CallsOf(log))
    && Genuine(began, first, answers, log)
    && NoRefTwice(log)
    && loaded == LoadedBy(log)
  }

  lemma LogStart(answers: nat -> Answers, cache: CacheState, asked: nat)
    ensures LogInv(answers, cache, asked, [], cache, asked, map[])
  {
  }

  /** Asking for a reference that is not loaded, after fetches that all succeeded. */
  lemma LogFetch(answers: nat -> Answers, began: CacheState, first: nat, log: seq<Fetched>,
                 cache: CacheState, asked: nat, loaded: map<string, Files>, ref: string, digest: string)
    requires LogInv(answers, began, first, log, cache, asked, loaded) && AllOk(log) && ref !in loaded
    ensures var call := Call(ref, digest, answers(asked));
            var out := Step(cache, call);
            var longer := log + [Fetched(call, out.answer)];
            && LogInv(answers, began, first, longer, out.cache, asked + 1,
                      if out.answer.Ok? then loaded[ref := out.answer.value] else loaded)
            && longer[..|longer| - 1] == log
            && (out.answer.Ok? ==> AllOk(longer))
  {
    hide Genuine, NoRefTwice, LoadedBy, Run, CallsOf, Step;
    var call := Call(ref, digest, answers(asked));
    AskedAreLoaded(log);
    var f := Fetched(call, Step(cache, call).answer);
    GenuineAppend(began, first, answers, log, f);
    NoRefTwiceAppend(log, f);
    CallsAppend(began, log, f);
    LoadedAppend(log, f);
  }

  lemma LoadedAppend(log: seq<Fetched>, f: Fetched)
    ensures LoadedBy(log + [f]) == if f.answer.Ok? then LoadedBy(log)[f.call.ref := f.answer.value] else LoadedBy(log)
  {
    assert (log + [f])[..|log|] == log;
  }

  lemma {:induction false} AskedAreLoaded(log: seq<Fetched>)
    requires AllOk(log)
    ensures LoadedBy(log).Keys == AskedRefs(log)
  {
    if log != [] {
      var before, last := log[..|log| - 1], log[|log| - 1];
      assert log == before + [last];
      AskedAreLoaded(before);
      RefsAppend(before, last);
    }
  }

  /** The artifacts are exactly those that some fetch answered, each with the files of that answer. */
  ghost predicate FetchedExactly(log: seq<Fetched>, loaded: map<string, Files>) {
    && (forall f :: f in log && f.answer.Ok? ==> f.call.ref in loaded && loaded[f.call.ref] == f.answer.value)
    && (forall ref :: ref in loaded ==> exists f :: f in log && f.call.ref == ref && f.answer == Ok(loaded[ref]))
  }

  lemma {:induction false} LoadedExactly(log: seq<Fetched>)
    requires NoRefTwice(log)
    ensures FetchedExactly(log, LoadedBy(log))
  {
    if log != [] {
      var before, last := log[..|log| - 1], log[|log| - 1];
      assert log == before + [last];
      LoadedExactly(before);
      forall f | f in before
        ensures f.call.ref != last.call.ref
      {
        var i :| 0 <= i < |before| && before[i] == f;
        assert log[i] == f;
      }
      var loaded := LoadedBy(log);
      forall ref | ref in loaded
        ensures exists f :: f in log && f.call.ref == ref && f.answer == Ok(loaded[ref])
      {
        if last.answer.Ok? && ref == last.call.ref {
          assert last in log;
        } else {
          var f :| f in before && f.call.ref == ref && f.answer == Ok(loaded[ref]);
          assert f in log;
        }
      }
    }
  }

  lemma RefsAppend(log: seq<Fetched>, f: Fetched)
    ensures AskedRefs(log + [f]) == AskedRefs(log) + {f.call.ref}
  {
    assert forall g :: g in log + [f] <==> g in log || g == f;
  }

  /** While every fetch succeeds, each artifact is loaded by a fetch of its own. */
  lemma {:induction false} OneFetchEach(log: seq<Fetched>)
    requires AllOk(log) && NoRefTwice(log)
    ensures |LoadedBy(log)| == |log|
  {
    if log != [] {
      var before, last := log[..|log| - 1], log[|log| - 1];
      OneFetchEach(before);
      AskedAreLoaded(before);
      assert last.call.ref !in AskedRefs(before);
    }
  }

  // ---------------------------------------------------------------- what the answer means

  /** Every URL of the answer maps to the named file of the named artifact. */
  ghost predicate Mapped(x: Syntax, loaded: map<string, Files>, result: map<string, string>) {
    forall url :: url in result ==>
                    var t := x.parse(url);
                    t.refStr in loaded && t.file in loaded[t.refStr] && result[url] == loaded[t.refStr][t.file]
  }

  /** Every target scanned from the artifact `a` is answered or still queued. */
  ghost predicate Answered(x: Syntax, files: Files, a: string, result: map<string, string>, queue: seq<Target>) {
    forall t :: t in TargetsOf(x, files, a) ==> t.rawUrl in result || t in queue
  }

  /** Every error of a resolution has the reason it names. `log` are the fetches up to the error. */
  ghost predicate Justified(x: Syntax, roots: set<string>, p: Progress, log: seq<Fetched>, e: ResolveError) {
    match e
    case DepthExceeded =>
      exists a, b :: (a, b) in p.edges && IsShortestDistance(p.edges, roots, a, MAX_TRANSITIVE_DEPTH)
                     && LoadsOther(x, p.loaded, a, b)
    case CycleDetected(a, b) =>
      && LoadsOther(x, p.loaded, a, b) && RealLoads(x, p.loaded, p.edges)
      && Reaches(p.edges, b, a) && !Acyclic(p.edges + {(a, b)})
    case FileNotFound(ref, file) => ref in p.loaded && file !in p.loaded[ref]
    case Unfetched(ref, cause) =>
      log != [] && AllOk(log[..|log| - 1]) && log[|log| - 1].call.ref == ref && log[|log| - 1].answer == Err(cause)
  }

  /** A level is the length of the shortest walk from the roots. */
  lemma LevelIsShortest(x: Syntax, p: Progress, roots: set<string>, d: nat, now: set<string>, next: set<string>, a: string)
    requires Sound(x, roots, p) && Near(p, d, now, next) && a in p.level
    ensures IsShortestDistance(p.edges, roots, a, p.level[a])
  {
    forall m: nat | AtDistance(p.edges, roots, a, m)
      ensures p.level[a] <= m
    {
      var w :| IsWalk(p.edges, w) && |w| == m + 1 && w[0] in roots && w[m] == a;
      WalkAtLeastLevel(x, p, roots, d, now, next, w, m);
    }
  }

  lemma {:induction false} WalkAtLeastLevel(x: Syntax, p: Progress, roots: set<string>, d: nat,
                                            now: set<string>, next: set<string>, w: seq<string>, k: nat)
    requires Sound(x, roots, p) && Near(p, d, now, next)
    requires IsWalk(p.edges, w) && w[0] in roots && k < |w| && w[k] in p.level
    ensures p.level[w[k]] <= k
  {
    if k > 0 {
      assert (w[k - 1], w[k]) in p.edges;
      assert LoadsOther(x, p.loaded, w[k - 1], w[k]);
      WalkAtLeastLevel(x, p, roots, d, now, next, w, k - 1);
    }
  }

  // ---------------------------------------------------------------- one level

  ghost predicate LevelInv(x: Syntax, roots: set<string>, p: Progress, d: nat,
                           now: set<string>, next: set<string>, open: set<string>) {
    && Sound(x, roots, p)
    && Complete(x, p, open)
    && Near(p, d, now, next)
    && (d > 0 ==> roots <= p.loaded.Keys)
  }

  /** What a level accumulates: the answer and the targets queued for the next level. */
  datatype Work = Work(result: map<string, string>, queue: seq<Target>)

  ghost predicate Grows(v: Work, w: Work) {
    v.result.Keys <= w.result.Keys && forall t :: t in v.queue ==> t in w.queue
  }

  /** The answer is right so far, and the queue holds parsed targets that are due next. */
  ghost predicate WorkInv(x: Syntax, roots: set<string>, p: Progress, d: nat, w: Work) {
    && Mapped(x, p.loaded, w.result)
    && forall t :: t in w.queue ==> x.parse(t.rawUrl) == t && Due(p, roots, t.refStr, d + 1)
  }

  /** The target `t`, scanned from `ref`, is answered or queued, and its edge is recorded. */
  ghost predicate Handled(ref: string, g: Graph, w: Work, t: Target) {
    (t.rawUrl in w.result || t in w.queue) && (t.refStr != ref ==> (ref, t.refStr) in g)
  }

  ghost predicate AllHandled(ref: string, g: Graph, w: Work, ts: seq<Target>) {
    forall t :: t in ts ==> Handled(ref, g, w, t)
  }

  lemma AllHandledGrows(ref: string, g: Graph, h: Graph, v: Work, w: Work, ts: seq<Target>)
    requires AllHandled(ref, g, v, ts) && g <= h && Grows(v, w)
    ensures AllHandled(ref, h, w, ts)
  {
  }

  /** Once every file of `ref` is scanned, its loads are all recorded and its targets answered. */
  lemma AllScanned(x: Syntax, p: Progress, files: Files, ref: string, w: Work)
    requires Complete(x, p, {ref}) && ref in p.loaded && p.loaded[ref] == files
    requires forall f :: f in files ==> AllHandled(ref, p.edges, w, ScanOf(x, files[f], ref))
    ensures Complete(x, p, {}) && Answered(x, files, ref, w.result, w.queue)
  {
    forall t | t in TargetsOf(x, files, ref)
      ensures Handled(ref, p.edges, w, t)
    {
      var f :| f in files && x.scan(files[f], ref).Some? && t in x.scan(files[f], ref).value;
      assert AllHandled(ref, p.edges, w, ScanOf(x, files[f], ref));
    }
  }

  lemma RefsOfAppend(ts: seq<Target>, t: Target)
    ensures RefsOf(ts + [t]) == RefsOf(ts) + {t.refStr}
  {
    assert forall u :: u in ts + [t] <==> u in ts || u == t;
  }

  lemma EdgeLevel(x: Syntax, roots: set<string>, p: Progress, d: nat, now: set<string>, queue: seq<Target>, a: string, t: Target)
    requires LevelInv(x, roots, p, d, now, RefsOf(queue), {a})
    requires LoadsOther(x, p.loaded, a, t.refStr) && p.level[a] == d && !Reaches(p.edges, t.refStr, a)
    ensures LevelInv(x, roots, AfterEdge(p, a, t.refStr), d, now, RefsOf(queue + [t]), {a})
  {
    EdgeKeeps(x, p, roots, a, t.refStr, d, now, RefsOf(queue), {a});
    RefsOfAppend(queue, t);
  }

  lemma EdgeWork(x: Syntax, roots: set<string>, p: Progress, d: nat, w: Work, a: string, t: Target)
    requires WorkInv(x, roots, p, d, w) && x.parse(t.rawUrl) == t && a in p.level && p.level[a] == d
    ensures WorkInv(x, roots, AfterEdge(p, a, t.refStr), d, w.(queue := w.queue + [t]))
  {
    var q := AfterEdge(p, a, t.refStr);
    forall u | u in w.queue + [t]
      ensures x.parse(u.rawUrl) == u && Due(q, roots, u.refStr, d + 1)
    {
      if u in w.queue {
        DueMonotone(p, q, roots, u.refStr, d + 1);
      } else {
        assert (a, u.refStr) in q.edges;
      }
    }
  }

  lemma ResultWork(x: Syntax, roots: set<string>, p: Progress, d: nat, w: Work, t: Target)
    requires WorkInv(x, roots, p, d, w) && x.parse(t.rawUrl) == t
    requires t.refStr in p.loaded && t.file in p.loaded[t.refStr]
    ensures WorkInv(x, roots, p, d, w.(result := w.result[t.rawUrl := p.loaded[t.refStr][t.file]]))
  {
  }

  lemma LevelFacts(x: Syntax, roots: set<string>, p: Progress, d: nat, now: set<string>, next: set<string>, open: set<string>)
    requires LevelInv(x, roots, p, d, now, next, open)
    ensures p.level.Keys == p.loaded.Keys && RealLoads(x, p.loaded, p.edges)
  {
  }

  ghost predicate OrderOf(ts: seq<Target>, order: seq<string>) {
    && (forall r :: r in order <==> r in RefsOf(ts))
    && forall i, j :: 0 <= i < j < |order| ==> order[i] != order[j]
  }

  ghost predicate GroupsOf(ts: seq<Target>, groups: map<string, seq<Target>>) {
    && groups.Keys == RefsOf(ts)
    && (forall r :: r in groups ==> groups[r] != [])
    && (forall r, t :: r in groups && t in groups[r] ==> t in ts && t.refStr == r)
    && (forall t :: t in ts ==> t.refStr in groups && t in groups[t.refStr])
  }

  lemma GroupsAppend(ts: seq<Target>, groups: map<string, seq<Target>>, t: Target)
    requires GroupsOf(ts, groups)
    ensures GroupsOf(ts + [t], groups[t.refStr := (if t.refStr in groups then groups[t.refStr] else []) + [t]])
  {
    RefsOfAppend(ts, t);
  }

  lemma OrderAppend(ts: seq<Target>, order: seq<string>, t: Target)
    requires OrderOf(ts, order)
    ensures OrderOf(ts + [t], if t.refStr in order then order else order + [t.refStr])
  {
    RefsOfAppend(ts, t);
  }

  lemma GroupsNil()
    ensures OrderOf([], []) && GroupsOf([], map[])
  {
  }

  lemma GroupsMatchOrder(ts: seq<Target>, order: seq<string>, groups: map<string, seq<Target>>)
    requires OrderOf(ts, order) && GroupsOf(ts, groups)
    ensures forall r :: r in order <==> r in groups
  {
  }

  /** The targets of a level by reference, with the references in order of first appearance. */
  method Group(targets: seq<Target>) returns (groups: map<string, seq<Target>>, order: seq<string>)
    ensures OrderOf(targets, order) && GroupsOf(targets, groups)
  {
    hide OrderOf, GroupsOf;
    groups, order := map[], [];
    var i := 0;
    ghost var done: seq<Target> := [];
    GroupsNil();
    while i < |targets|
      invariant 0 <= i <= |targets| && done == targets[..i]
      invariant OrderOf(done, order)
      invariant GroupsOf(done, groups)
    {
      var t := targets[i];
      OrderAppend(done, order, t);
      GroupsAppend(done, groups, t);
      GroupsMatchOrder(done, order, groups);
      done := done + [t];
      if t.refStr !in groups {
        order := order + [t.refStr];
        groups := groups[t.refStr := [] + [t]];
      } else {
        groups := groups[t.refStr := groups[t.refStr] + [t]];
      }
      i := i + 1;
    }
    assert targets[..i] == targets;
  }

  lemma WorkExtends(x: Syntax, roots: set<string>, p: Progress, q: Progress, d: nat, w: Work)
    requires WorkInv(x, roots, p, d, w) && Extends(p, q)
    ensures WorkInv(x, roots, q, d, w)
  {
    forall t | t in w.queue
      ensures Due(q, roots, t.refStr, d + 1)
    {
      DueMonotone(p, q, roots, t.refStr, d + 1);
    }
  }

  /** The state just after a new artifact was fetched: its own loads are still open. */
  lemma FetchLevel(x: Syntax, roots: set<string>, p: Progress, d: nat, now: set<string>, w: Work, ref: string, files: Files)
    requires LevelInv(x, roots, p, d, now, RefsOf(w.queue), {}) && WorkInv(x, roots, p, d, w)
    requires ref !in p.loaded && Due(p, roots, ref, d)
    ensures var q := AfterLoad(p, ref, files, d);
            Extends(p, q) && LevelInv(x, roots, q, d, now - {ref}, RefsOf(w.queue), {ref}) && WorkInv(x, roots, q, d, w)
  {
    hide AtDistance, WorkInv;
    LevelFacts(x, roots, p, d, now, RefsOf(w.queue), {});
    LoadSound(x, p, roots, ref, files, d);
    LoadComplete(x, p, ref, files, d);
    LoadKeepsNear(p, ref, files, d, now, RefsOf(w.queue));
    WorkExtends(x, roots, p, AfterLoad(p, ref, files, d), d, w);
  }

  /** A reference that is already loaded needs no further attention at this level. */
  lemma SkipLevel(x: Syntax, roots: set<string>, p: Progress, d: nat, now: set<string>, next: set<string>, ref: string)
    requires LevelInv(x, roots, p, d, now, next, {}) && ref in p.loaded
    ensures LevelInv(x, roots, p, d, now - {ref}, next, {})
  {
    hide Acyclic, RealLoads, AtDistance, Complete;
  }

  /** When a level is done, its queue is what the next level has to process. */
  lemma NextLevel(x: Syntax, roots: set<string>, p: Progress, d: nat, next: set<string>)
    requires LevelInv(x, roots, p, d, {}, next, {}) && roots <= p.loaded.Keys
    ensures LevelInv(x, roots, p, d + 1, next, {}, {})
  {
    hide Acyclic, RealLoads, AtDistance, Complete;
  }

  /** A level with an empty queue ends the traversal, whatever its depth. */
  lemma LastLevel(x: Syntax, roots: set<string>, p: Progress, d: nat)
    requires LevelInv(x, roots, p, d, {}, {}, {}) && d <= MAX_TRANSITIVE_DEPTH
    ensures Near(p, MAX_TRANSITIVE_DEPTH, {}, {})
  {
    hide Acyclic, RealLoads, AtDistance, Complete;
  }

  /** Beyond the depth limit, some artifact at the greatest distance still loads another one. */
  lemma TooDeep(x: Syntax, roots: set<string>, p: Progress, now: set<string>, ref: string)
    requires LevelInv(x, roots, p, MAX_TRANSITIVE_DEPTH + 1, now, {}, {})
    requires Due(p, roots, ref, MAX_TRANSITIVE_DEPTH + 1)
    ensures forall log :: Justified(x, roots, p, log, DepthExceeded)
  {
    var a :| a in p.level && p.level[a] == MAX_TRANSITIVE_DEPTH && (a, ref) in p.edges;
    LevelIsShortest(x, p, roots, MAX_TRANSITIVE_DEPTH + 1, now, {}, a);
    assert LoadsOther(x, p.loaded, (a, ref).0, (a, ref).1);
  }

  ghost predicate AllAnswered(ts: seq<Target>, result: map<string, string>) {
    forall t :: t in ts ==> t.rawUrl in result
  }

  /** Every artifact loaded since `before` has its targets answered or queued. */
  ghost predicate NewAnswered(x: Syntax, before: map<string, Files>, loaded: map<string, Files>, w: Work) {
    forall a :: a in loaded && a !in before ==> Answered(x, loaded[a], a, w.result, w.queue)
  }

  lemma WorkFacts(x: Syntax, roots: set<string>, p: Progress, d: nat, w: Work)
    requires WorkInv(x, roots, p, d, w)
    ensures Mapped(x, p.loaded, w.result)
    ensures forall t :: t in w.queue ==> x.parse(t.rawUrl) == t && Due(p, roots, t.refStr, d + 1)
  {
  }

  lemma LevelBounds(x: Syntax, roots: set<string>, p: Progress, d: nat, now: set<string>, next: set<string>, open: set<string>)
    requires LevelInv(x, roots, p, d, now, next, open)
    ensures Sound(x, roots, p) && Complete(x, p, open) && p.level.Keys == p.loaded.Keys
    ensures d > 0 ==> roots <= p.loaded.Keys
  {
  }

  lemma RefDue(ts: seq<Target>, p: Progress, q: Progress, roots: set<string>, ref: string, d: nat)
    requires Extends(p, q) && ref in RefsOf(ts)
    requires forall t :: t in ts ==> Due(p, roots, t.refStr, d)
    ensures Due(q, roots, ref, d)
  {
    var t :| t in ts && t.refStr == ref;
    DueMonotone(p, q, roots, ref, d);
  }

  lemma ExtendsTransitive(p: Progress, q: Progress, r: Progress)
    requires Extends(p, q) && Extends(q, r)
    ensures Extends(p, r)
  {
  }

  lemma NewAnsweredGrows(x: Syntax, start: map<string, Files>, p: Progress, q: Progress, v: Work, w: Work, ref: string)
    requires NewAnswered(x, start, p.loaded, v) && Grows(v, w)
    requires Extends(p, q) && q.loaded.Keys == p.loaded.Keys + {ref}
    requires ref !in p.loaded ==> Answered(x, q.loaded[ref], ref, w.result, w.queue)
    ensures NewAnswered(x, start, q.loaded, w)
  {
    forall a | a in q.loaded && a !in start
      ensures Answered(x, q.loaded[a], a, w.result, w.queue)
    {
      if a in p.loaded {
        assert Answered(x, p.loaded[a], a, v.result, v.queue);
      }
    }
  }

  /** The first `i` references are loaded, answered and no longer pending. */
  ghost predicate LevelDone(groups: map<string, seq<Target>>, order: seq<string>, i: nat, rest: set<string>,
                            keys: set<string>, result: map<string, string>)
    requires i <= |order|
  {
    forall j :: 0 <= j < i ==>
                  order[j] !in rest && order[j] in keys && order[j] in groups && AllAnswered(groups[order[j]], result)
  }

  lemma LevelDoneStep(groups: map<string, seq<Target>>, order: seq<string>, i: nat, rest: set<string>,
                      keys: set<string>, keys': set<string>, v: Work, w: Work)
    requires i < |order| && LevelDone(groups, order, i, rest, keys, v.result)
    requires keys' == keys + {order[i]} && Grows(v, w)
    requires order[i] in groups && AllAnswered(groups[order[i]], w.result)
    ensures LevelDone(groups, order, i + 1, rest - {order[i]}, keys', w.result)
  {
  }

  lemma LevelDoneAll(ts: seq<Target>, groups: map<string, seq<Target>>, order: seq<string>, rest: set<string>,
                     keys: set<string>, result: map<string, string>)
    requires OrderOf(ts, order) && GroupsOf(ts, groups) && rest <= RefsOf(ts)
    requires LevelDone(groups, order, |order|, rest, keys, result)
    ensures rest == {} && RefsOf(ts) <= keys && AllAnswered(ts, result)
  {
    forall t | t in ts
      ensures t.refStr !in rest && t.refStr in keys && t.rawUrl in result
    {
      assert t.refStr in RefsOf(ts) && t.refStr in order;
      var j :| 0 <= j < |order| && order[j] == t.refStr;
      assert AllAnswered(groups[order[j]], result) && t in groups[t.refStr];
    }
  }

  /** The state between two references of a level that started in `p0`. */
  ghost predicate InLevel(x: Syntax, roots: set<string>, p0: Progress, p: Progress, d: nat, ts: seq<Target>,
                          groups: map<string, seq<Target>>, order: seq<string>, i: nat, rest: set<string>, w: Work)
    requires i <= |order|
  {
    && Extends(p0, p) && rest <= RefsOf(ts)
    && LevelInv(x, roots, p, d, rest, RefsOf(w.queue), {}) && WorkInv(x, roots, p, d, w)
    && LevelDone(groups, order, i, rest, p.loaded.Keys, w.result)
    && NewAnswered(x, p0.loaded, p.loaded, w)
  }

  lemma LevelStart(x: Syntax, roots: set<string>, p: Progress, d: nat, ts: seq<Target>,
                   groups: map<string, seq<Target>>, order: seq<string>)
    requires LevelInv(x, roots, p, d, RefsOf(ts), {}, {})
    ensures InLevel(x, roots, p, p, d, ts, groups, order, 0, RefsOf(ts), Work(map[], []))
  {
    hide LevelInv;
    assert RefsOf([]) == {};
  }

  lemma LevelNext(x: Syntax, roots: set<string>, p0: Progress, p: Progress, d: nat, ts: seq<Target>,
                  groups: map<string, seq<Target>>, order: seq<string>, i: nat, rest: set<string>, w: Work)
    requires i < |order| && OrderOf(ts, order) && GroupsOf(ts, groups)
    requires forall t :: t in ts ==> Due(p0, roots, t.refStr, d)
    requires InLevel(x, roots, p0, p, d, ts, groups, order, i, rest, w)
    ensures Extends(p0, p) && Due(p, roots, order[i], d)
    ensures LevelInv(x, roots, p, d, rest, RefsOf(w.queue), {}) && WorkInv(x, roots, p, d, w)
    ensures order[i] in groups && groups[order[i]] != []
    ensures forall t :: t in groups[order[i]] ==> t in ts && t.refStr == order[i]
  {
    hide LevelInv, WorkInv, NewAnswered, LevelDone;
    RefDue(ts, p0, p, roots, order[i], d);
  }

  lemma LevelStep(x: Syntax, roots: set<string>, p0: Progress, p: Progress, q: Progress, d: nat, ts: seq<Target>,
                  groups: map<string, seq<Target>>, order: seq<string>, i: nat, rest: set<string>, v: Work, w: Work)
    requires i < |order| && OrderOf(ts, order) && GroupsOf(ts, groups)
    requires InLevel(x, roots, p0, p, d, ts, groups, order, i, rest, v)
    requires Extends(p0, q) && Extends(p, q) && Grows(v, w) && q.loaded.Keys == p.loaded.Keys + {order[i]}
    requires LevelInv(x, roots, q, d, rest - {order[i]}, RefsOf(w.queue), {}) && WorkInv(x, roots, q, d, w)
    requires order[i] in groups && AllAnswered(groups[order[i]], w.result)
    requires order[i] !in p.loaded ==> Answered(x, q.loaded[order[i]], order[i], w.result, w.queue)
    ensures InLevel(x, roots, p0, q, d, ts, groups, order, i + 1, rest - {order[i]}, w)
  {
    hide LevelInv, WorkInv, NewAnswered, LevelDone, Answered, AllAnswered, Extends, OrderOf, GroupsOf, Grows;
    NewAnsweredGrows(x, p0.loaded, p, q, v, w, order[i]);
    LevelDoneStep(groups, order, i, rest, p.loaded.Keys, q.loaded.Keys, v, w);
  }

  lemma LevelEnd(x: Syntax, roots: set<string>, p0: Progress, p: Progress, d: nat, ts: seq<Target>,
                 groups: map<string, seq<Target>>, order: seq<string>, rest: set<string>, w: Work)
    requires OrderOf(ts, order) && GroupsOf(ts, groups) && (d == 0 ==> roots == RefsOf(ts))
    requires InLevel(x, roots, p0, p, d, ts, groups, order, |order|, rest, w)
    ensures Extends(p0, p) && roots <= p.loaded.Keys && AllAnswered(ts, w.result)
    ensures LevelInv(x, roots, p, d, {}, RefsOf(w.queue), {}) && WorkInv(x, roots, p, d, w)
    ensures NewAnswered(x, p0.loaded, p.loaded, w)
  {
    hide LevelInv, WorkInv, NewAnswered, LevelDone, Extends, OrderOf, GroupsOf;
    LevelDoneAll(ts, groups, order, rest, p.loaded.Keys, w.result);
    LevelBounds(x, roots, p, d, {}, RefsOf(w.queue), {});
  }

  /** The answer of a level joined with that of the levels below. */
  lemma MergeAnswers(x: Syntax, start: map<string, Files>, mid: map<string, Files>, end: map<string, Files>,
                     w: Work, below: map<string, string>)
    requires Mapped(x, mid, w.result) && Mapped(x, end, below) && AllAnswered(w.queue, below)
    requires forall a :: a in mid ==> a in end && end[a] == mid[a]
    requires NewAnswered(x, start, mid, w) && NewAnswered(x, mid, end, Work(below, []))
    ensures Mapped(x, end, w.result + below)
    ensures NewAnswered(x, start, end, Work(w.result + below, []))
  {
    var all := w.result + below;
    forall a | a in end && a !in start
      ensures Answered(x, end[a], a, all, [])
    {
      if a in mid {
        assert Answered(x, mid[a], a, w.result, w.queue);
      } else {
        assert Answered(x, end[a], a, below, []);
      }
    }
  }

  /** What a successful resolution of `targets` guarantees: the answer maps every URL to the file it
      names, and contains every requested URL and every URL scanned from any file of any loaded
      artifact; the graph is exactly who loads whom and has no cycle; every artifact was fetched at
      its shortest distance from the roots, and none at the depth limit loads another one. */
  ghost predicate IsClosure(x: Syntax, targets: seq<Target>, p: Progress, result: map<string, string>) {
    && Mapped(x, p.loaded, result)
    && AllAnswered(targets, result)
    && (forall a :: a in p.loaded ==> Answered(x, p.loaded[a], a, result, []))
    && Acyclic(p.edges)
    && (forall a, b {:trigger LoadsOther(x, p.loaded, a, b)} :: (a, b) in p.edges <==> LoadsOther(x, p.loaded, a, b))
    && p.level.Keys == p.loaded.Keys
    && (forall a :: a in p.level ==>
          p.level[a] <= MAX_TRANSITIVE_DEPTH && IsShortestDistance(p.edges, RefsOf(targets), a, p.level[a]))
    && (forall e :: e in p.edges && e.0 in p.level ==> p.level[e.0] < MAX_TRANSITIVE_DEPTH)
  }

  lemma ClosureAtEnd(x: Syntax, targets: seq<Target>, p: Progress, result: map<string, string>)
    requires Sound(x, RefsOf(targets), p) && Complete(x, p, {}) && Near(p, MAX_TRANSITIVE_DEPTH, {}, {})
    requires Mapped(x, p.loaded, result) && AllAnswered(targets, result)
    requires NewAnswered(x, map[], p.loaded, Work(result, []))
    ensures IsClosure(x, targets, p, result)
  {
    hide AtDistance, Answered, Mapped, AllAnswered;
    forall a | a in p.level
      ensures IsShortestDistance(p.edges, RefsOf(targets), a, p.level[a])
    {
      LevelIsShortest(x, p, RefsOf(targets), MAX_TRANSITIVE_DEPTH, {}, {}, a);
    }
    forall a, b | (a, b) in p.edges
      ensures LoadsOther(x, p.loaded, a, b)
    {
      assert LoadsOther(x, p.loaded, (a, b).0, (a, b).1);
    }
  }

  lemma EmptyStart(x: Syntax, targets: seq<Target>)
    ensures LevelInv(x, RefsOf(targets), Progress(map[], {}, map[]), 0, RefsOf(targets), {}, {})
    ensures forall t :: t in targets ==> Due(Progress(map[], {}, map[]), RefsOf(targets), t.refStr, 0)
  {
    NumberedIsAcyclic({}, map[]);
  }

  // ---------------------------------------------------------------- the resolver

  /** A resolver with the state of its current traversal. `answers(n)` is what the world answers
      during the n-th reference resolution. */
  class Resolver {
    const syntax: Syntax
    const cache: Cache
    const answers: nat -> Answers
    var asked: nat
    var loaded: map<string, Files>
    var edges: Graph
    ghost var level: map<string, nat>
    ghost var roots: set<string>
    ghost var log: seq<Fetched>    // the fetches of the traversal
    ghost var began: CacheState    // the cache when it started
    ghost var first: nat           // the references asked for before it

    constructor (syntax: Syntax, cache: Cache, answers: nat -> Answers)
      ensures this.syntax == syntax && this.cache == cache && this.answers == answers
    {
      this.syntax := syntax;
      this.cache := cache;
      this.answers := answers;
      asked := 0;
      loaded, edges := map[], {};
      level, roots := map[], {};
      log, began, first := [], CacheState(map[], map[], Always, 0), 0;
    }

    ghost predicate Logged()
      reads `loaded, `asked, `log, `began, `first, cache
    {
      LogInv(answers, began, first, log, cache.State(), asked, loaded)
    }

    ghost function State(): Progress
      reads this
    {
      Progress(loaded, edges, level)
    }

    /** What scanning does with one target of the artifact `ref`. */
    method ScanTarget(ref: string, files: Files, t: Target, v: Work, ghost d: nat, ghost now: set<string>)
      returns (w: Work, err: Option<ResolveError>)
      requires LevelInv(syntax, roots, State(), d, now, RefsOf(v.queue), {ref})
      requires WorkInv(syntax, roots, State(), d, v)
      requires ref in loaded && loaded[ref] == files && level[ref] == d
      requires t in TargetsOf(syntax, files, ref) && syntax.parse(t.rawUrl) == t
      modifies `edges
      ensures old(edges) <= edges && Grows(v, w)
      ensures match err
              case Some(e) => Justified(syntax, roots, State(), log, e)
              case None =>
                && LevelInv(syntax, roots, State(), d, now, RefsOf(w.queue), {ref})
                && WorkInv(syntax, roots, State(), d, w)
                && Handled(ref, edges, w, t)
    {
      hide LevelInv, WorkInv;
      w, err := v, None;
      LevelFacts(syntax, roots, State(), d, now, RefsOf(v.queue), {ref});
      if t.refStr == ref {
        if t.file !in files {
          return v, Some(FileNotFound(ref, t.file));
        }
        w := v.(result := v.result[t.rawUrl := files[t.file]]);
        ResultWork(syntax, roots, State(), d, v, t);
        return;
      }
      assert LoadsOther(syntax, loaded, ref, t.refStr);
      var cyclic := ReachesSearch(edges, t.refStr, ref);
      if cyclic {
        AddEdgeCyclic(edges, ref, t.refStr);
        return v, Some(CycleDetected(ref, t.refStr));
      }
      EdgeLevel(syntax, roots, State(), d, now, v.queue, ref, t);
      EdgeWork(syntax, roots, State(), d, v, ref, t);
      edges := edges + {(ref, t.refStr)};
      w := v.(queue := v.queue + [t]);
    }

    /** The loop over the targets scanned from one file. */
    method ScanSource(ref: string, files: Files, ts: seq<Target>, v: Work, ghost d: nat, ghost now: set<string>)
      returns (w: Work, err: Option<ResolveError>)
      requires LevelInv(syntax, roots, State(), d, now, RefsOf(v.queue), {ref})
      requires WorkInv(syntax, roots, State(), d, v)
      requires ref in loaded && loaded[ref] == files && level[ref] == d
      requires forall t :: t in ts ==> t in TargetsOf(syntax, files, ref) && syntax.parse(t.rawUrl) == t
      modifies `edges
      ensures old(edges) <= edges && Grows(v, w)
      ensures match err
              case Some(e) => Justified(syntax, roots, State(), log, e)
              case None =>
                && LevelInv(syntax, roots, State(), d, now, RefsOf(w.queue), {ref})
                && WorkInv(syntax, roots, State(), d, w)
                && AllHandled(ref, edges, w, ts)
    {
      hide LevelInv, WorkInv, Justified;
      w, err := v, None;
      var i := 0;
      while i < |ts|
        invariant 0 <= i <= |ts|
        invariant err.None? && old(edges) <= edges && Grows(v, w)
        invariant LevelInv(syntax, roots, State(), d, now, RefsOf(w.queue), {ref})
        invariant WorkInv(syntax, roots, State(), d, w)
        invariant AllHandled(ref, edges, w, ts[..i])
      {
        ghost var u, g := w, edges;
        w, err := ScanTarget(ref, files, ts[i], w, d, now);
        if err.Some? {
          return;
        }
        AllHandledGrows(ref, g, edges, u, w, ts[..i]);
        assert ts[..i + 1] == ts[..i] + [ts[i]];
        i := i + 1;
      }
      assert ts[..i] == ts;
    }

    /** The loop over the files of a newly fetched artifact, in arbitrary order. */
    method ScanArtifact(ref: string, files: Files, v: Work, ghost d: nat, ghost now: set<string>)
      returns (w: Work, err: Option<ResolveError>)
      requires ScansParsed(syntax)
      requires LevelInv(syntax, roots, State(), d, now, RefsOf(v.queue), {ref})
      requires WorkInv(syntax, roots, State(), d, v)
      requires ref in loaded && loaded[ref] == files && level[ref] == d
      modifies `edges
      ensures old(edges) <= edges && Grows(v, w)
      ensures match err
              case Some(e) => Justified(syntax, roots, State(), log, e)
              case None =>
                && LevelInv(syntax, roots, State(), d, now, RefsOf(w.queue), {})
                && WorkInv(syntax, roots, State(), d, w)
                && Answered(syntax, files, ref, w.result, w.queue)
    {
      hide WorkInv, Justified, Sound, Near;
      w, err := v, None;
      var todo := files.Keys;
      while todo != {}
        invariant err.None? && todo <= files.Keys && old(edges) <= edges && Grows(v, w)
        invariant LevelInv(syntax, roots, State(), d, now, RefsOf(w.queue), {ref})
        invariant WorkInv(syntax, roots, State(), d, w)
        invariant forall f :: f in files && f !in todo ==> AllHandled(ref, edges, w, ScanOf(syntax, files[f], ref))
        decreases todo
      {
        hide LevelInv;
        var f :| f in todo;
        todo := todo - {f};
        ghost var u, g := w, edges;
        w, err := ScanSource(ref, files, ScanOf(syntax, files[f], ref), w, d, now);
        if err.Some? {
          return;
        }
        forall f' | f' in files && f' !in todo && f' != f
          ensures AllHandled(ref, edges, w, ScanOf(syntax, files[f'], ref))
        {
          AllHandledGrows(ref, g, edges, u, w, ScanOf(syntax, files[f'], ref));
        }
      }
      AllScanned(syntax, State(), files, ref, w);
    }

    /** Maps the requested files of one artifact into the answer. */
    method MapTargets(ref: string, files: Files, group: seq<Target>, v: Work, ghost d: nat)
      returns (w: Work, err: Option<ResolveError>)
      requires WorkInv(syntax, roots, State(), d, v) && ref in loaded && loaded[ref] == files
      requires forall t :: t in group ==> syntax.parse(t.rawUrl) == t && t.refStr == ref
      ensures Grows(v, w) && w.queue == v.queue
      ensures match err
              case Some(e) => Justified(syntax, roots, State(), log, e)
              case None => WorkInv(syntax, roots, State(), d, w) && AllAnswered(group, w.result)
    {
      hide WorkInv;
      w, err := v, None;
      var i := 0;
      while i < |group|
        invariant 0 <= i <= |group|
        invariant err.None? && Grows(v, w) && w.queue == v.queue
        invariant WorkInv(syntax, roots, State(), d, w)
        invariant AllAnswered(group[..i], w.result)
      {
        var t := group[i];
        if t.file !in files {
          return w, Some(FileNotFound(ref, t.file));
        }
        ResultWork(syntax, roots, State(), d, w, t);
        w := w.(result := w.result[t.rawUrl := files[t.file]]);
        assert group[..i + 1] == group[..i] + [t];
        i := i + 1;
      }
      assert group[..i] == group;
    }

    /** One reference of a level: fetched unless already loaded, mapped, and scanned if new. */
    method ProcessRef(ref: string, group: seq<Target>, v: Work, ghost d: nat, ghost now: set<string>)
      returns (w: Work, err: Option<ResolveError>)
      requires ScansParsed(syntax)
      requires LevelInv(syntax, roots, State(), d, now, RefsOf(v.queue), {})
      requires WorkInv(syntax, roots, State(), d, v) && Due(State(), roots, ref, d)
      requires group != [] && forall t :: t in group ==> syntax.parse(t.rawUrl) == t && t.refStr == ref
      requires Logged() && AllOk(log)
      modifies `loaded, `edges, `level, `asked, `log, cache`tags, cache`contents
      ensures Logged()
      ensures Extends(old(State()), State()) && Grows(v, w)
      ensures match err
              case Some(e) => Justified(syntax, roots, State(), log, e)
              case None =>
                && LevelInv(syntax, roots, State(), d, now - {ref}, RefsOf(w.queue), {})
                && WorkInv(syntax, roots, State(), d, w)
                && AllAnswered(group, w.result)
                && loaded.Keys == old(loaded).Keys + {ref}
                && (ref !in old(loaded) ==> Answered(syntax, loaded[ref], ref, w.result, w.queue))
                && AllOk(log)
    {
      hide LogInv, AllOk, LevelInv, WorkInv, Due, Justified, Answered, RefsOf, ScansParsed;
      w := v;
      var alreadyLoaded := ref in loaded;
      if alreadyLoaded {
        SkipLevel(syntax, roots, State(), d, now, RefsOf(v.queue), ref);
      } else {
        err := Fetch(ref, group[0].digest, v, d, now);
        if err.Some? {
          return;
        }
      }
      var files := loaded[ref];
      w, err := MapTargets(ref, files, group, v, d);
      if err.Some? || alreadyLoaded {
        return;
      }
      ghost var answered := w.result;
      LevelFacts(syntax, roots, State(), d, now - {ref}, RefsOf(w.queue), {ref});
      w, err := ScanArtifact(ref, files, w, d, now - {ref});
      assert answered.Keys <= w.result.Keys;
    }

    /** Fetches an artifact through the cache and records it at level `d`. */
    method Fetch(ref: string, digest: string, ghost v: Work, ghost d: nat, ghost now: set<string>)
      returns (err: Option<ResolveError>)
      requires LevelInv(syntax, roots, State(), d, now, RefsOf(v.queue), {})
      requires WorkInv(syntax, roots, State(), d, v) && Due(State(), roots, ref, d) && ref !in loaded
      requires Logged() && AllOk(log)
      modifies `loaded, `level, `asked, `log, cache`tags, cache`contents
      ensures Logged()
      ensures Extends(old(State()), State())
      ensures match err
              case Some(e) => Justified(syntax, roots, State(), log, e)
              case None =>
                && LevelInv(syntax, roots, State(), d, now - {ref}, RefsOf(v.queue), {ref})
                && WorkInv(syntax, roots, State(), d, v)
                && loaded.Keys == old(loaded).Keys + {ref} && level[ref] == d
                && AllOk(log)
    {
      hide LevelInv, WorkInv, Due, LogInv, ResolveRef;
      LogFetch(answers, began, first, log, cache.State(), asked, loaded, ref, digest);
      var answer := cache.Resolve(ref, digest, answers(asked));
      log := log + [Fetched(Call(ref, digest, answers(asked)), answer)];
      asked := asked + 1;
      if answer.Err? {
        return Some(Unfetched(ref, answer.error));
      }
      FetchLevel(syntax, roots, State(), d, now, v, ref, answer.value);
      loaded := loaded[ref := answer.value];
      level := level[ref := d];
      err := None;
    }

    /** One level of the traversal and, through its queue, all levels below it. */
    method ResolveLevel(targets: seq<Target>, depth: nat) returns (r: Result<map<string, string>, ResolveError>)
      requires ScansParsed(syntax) && depth <= MAX_TRANSITIVE_DEPTH + 1
      requires depth == 0 ==> roots == RefsOf(targets)
      requires depth > 0 ==> targets != []
      requires LevelInv(syntax, roots, State(), depth, RefsOf(targets), {}, {})
      requires forall t :: t in targets ==> syntax.parse(t.rawUrl) == t && Due(State(), roots, t.refStr, depth)
      requires Logged() && AllOk(log)
      modifies `loaded, `edges, `level, `asked, `log, cache`tags, cache`contents
      ensures Logged()
      ensures Extends(old(State()), State())
      ensures match r
              case Err(e) => Justified(syntax, roots, State(), log, e)
              case Ok(result) =>
                && Sound(syntax, roots, State()) && Complete(syntax, State(), {})
                && Near(State(), MAX_TRANSITIVE_DEPTH, {}, {})
                && Mapped(syntax, loaded, result) && AllAnswered(targets, result)
                && NewAnswered(syntax, old(loaded), loaded, Work(result, []))
                && AllOk(log)
      decreases MAX_TRANSITIVE_DEPTH + 1 - depth
    {
      hide LogInv, AllOk, LevelInv, WorkInv, Due, Justified, NewAnswered, Sound, Complete, Near, Mapped;
      if depth > MAX_TRANSITIVE_DEPTH {
        TooDeep(syntax, roots, State(), RefsOf(targets), targets[0].refStr);
        return Err(DepthExceeded);
      }
      var w, err := ProcessLevel(targets, depth);
      if err.Some? {
        return Err(err.value);
      }
      WorkFacts(syntax, roots, State(), depth, w);
      LevelBounds(syntax, roots, State(), depth, {}, RefsOf(w.queue), {});
      if w.queue == [] {
        assert RefsOf(w.queue) == {};
        LastLevel(syntax, roots, State(), depth);
        return Ok(w.result);
      }
      ghost var mid := loaded;
      NextLevel(syntax, roots, State(), depth, RefsOf(w.queue));
      r := ResolveLevel(w.queue, depth + 1);
      if r.Ok? {
        MergeAnswers(syntax, old(loaded), mid, loaded, w, r.value);
        r := Ok(w.result + r.value);
      }
    }

    /** The loop over the references of one level. */
    method ProcessLevel(targets: seq<Target>, depth: nat) returns (w: Work, err: Option<ResolveError>)
      requires ScansParsed(syntax)
      requires depth == 0 ==> roots == RefsOf(targets)
      requires LevelInv(syntax, roots, State(), depth, RefsOf(targets), {}, {})
      requires forall t :: t in targets ==> syntax.parse(t.rawUrl) == t && Due(State(), roots, t.refStr, depth)
      requires Logged() && AllOk(log)
      modifies `loaded, `edges, `level, `asked, `log, cache`tags, cache`contents
      ensures Logged()
      ensures Extends(old(State()), State())
      ensures match err
              case Some(e) => Justified(syntax, roots, State(), log, e)
              case None =>
                && LevelInv(syntax, roots, State(), depth, {}, RefsOf(w.queue), {})
                && WorkInv(syntax, roots, State(), depth, w)
                && roots <= loaded.Keys
                && AllAnswered(targets, w.result)
                && NewAnswered(syntax, old(loaded), loaded, w)
                && AllOk(log)
    {
      hide LogInv, AllOk, LevelInv, WorkInv, Due, Justified, NewAnswered, Extends, OrderOf, GroupsOf, RefsOf;
      hide InLevel, AllAnswered, Answered, Grows, ScansParsed;
      var groups, order := Group(targets);
      w, err := Work(map[], []), None;
      LevelStart(syntax, roots, State(), depth, targets, groups, order);
      ghost var rest := RefsOf(targets);
      var i := 0;
      while i < |order|
        invariant 0 <= i <= |order| && err.None?
        invariant InLevel(syntax, roots, old(State()), State(), depth, targets, groups, order, i, rest, w)
        invariant Logged() && AllOk(log)
      {
        w, err := ProcessNext(targets, groups, order, i, w, depth, rest, old(State()));
        if err.Some? {
          return;
        }
        rest := rest - {order[i]};
        i := i + 1;
      }
      LevelEnd(syntax, roots, old(State()), State(), depth, targets, groups, order, rest, w);
    }

    /** One turn of that loop. */
    method ProcessNext(ghost targets: seq<Target>, groups: map<string, seq<Target>>, order: seq<string>, i: nat, v: Work,
                       ghost depth: nat, ghost rest: set<string>, ghost start: Progress)
      returns (w: Work, err: Option<ResolveError>)
      requires ScansParsed(syntax) && i < |order| && OrderOf(targets, order) && GroupsOf(targets, groups)
      requires forall t :: t in targets ==> syntax.parse(t.rawUrl) == t && Due(start, roots, t.refStr, depth)
      requires InLevel(syntax, roots, start, State(), depth, targets, groups, order, i, rest, v)
      requires Logged() && AllOk(log)
      modifies `loaded, `edges, `level, `asked, `log, cache`tags, cache`contents
      ensures Logged()
      ensures Extends(start, State())
      ensures match err
              case Some(e) => Justified(syntax, roots, State(), log, e)
              case None =>
                && InLevel(syntax, roots, start, State(), depth, targets, groups, order, i + 1, rest - {order[i]}, w)
                && AllOk(log)
    {
      hide LogInv, AllOk, LevelInv, WorkInv, Due, Justified, Extends, OrderOf, GroupsOf, RefsOf;
      hide InLevel, AllAnswered, Answered, Grows, ScansParsed;
      var ref := order[i];
      LevelNext(syntax, roots, start, State(), depth, targets, groups, order, i, rest, v);
      w, err := ProcessRef(ref, groups[ref], v, depth, rest);
      ExtendsTransitive(start, old(State()), State());
      if err.None? {
        LevelStep(syntax, roots, start, old(State()), State(), depth, targets, groups, order, i, rest, v, w);
      }
    }

    /** Resolves the targets and everything they load. Successful or not, no reference is asked for
        twice, the artifacts loaded are exactly those fetched, and every fetch is the one that the cache
        makes with the world's answers; so a fetch error is the answer to the last one. */
    method Resolve(targets: seq<Target>) returns (r: Result<map<string, string>, ResolveError>)
      requires ScansParsed(syntax) && forall t :: t in targets ==> syntax.parse(t.rawUrl) == t
      modifies `loaded, `edges, `level, `roots, `asked, `log, `began, `first, cache`tags, cache`contents
      ensures roots == RefsOf(targets)
      ensures NoRefTwice(log) && FetchedExactly(log, loaded) && asked == old(asked) + |log|
      ensures Genuine(old(cache.State()), old(asked), answers, log)
      ensures cache.State() == Run(old(cache.State()), CallsOf(log))
      ensures match r
              case Err(e) => Justified(syntax, roots, State(), log, e)
              case Ok(result) => IsClosure(syntax, targets, State(), result) && AllOk(log) && asked == old(asked) + |loaded|
    {
      hide LevelInv, Due, Justified, NewAnswered, Sound, Complete, Near, Mapped, IsClosure, Genuine, NoRefTwice, LoadedBy, Run;
      loaded, edges := map[], {};
      level, roots := map[], RefsOf(targets);
      log, began, first := [], cache.State(), asked;
      LogStart(answers, cache.State(), asked);
      EmptyStart(syntax, targets);
      r := ResolveLevel(targets, 0);
      LoadedExactly(log);
      if r.Ok? {
        OneFetchEach(log);
        ClosureAtEnd(syntax, targets, State(), r.value);
      }
    }
  }
}
