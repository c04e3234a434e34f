/**
 Loading of Starlark modules: the mutual recursion of load, star-import expansion and export scans,
 guarded by nil sentinels in the cache and by the set of modules being expanded (runtime/loader.go).
 */
module ModuleLoader {
  import opened Wrappers
  import Graphs

  /** The identity under which a module is cached: its name, its URL or its absolute path. */
  type Key = string

  /** A top-level statement that matters for loading; the language has load statements at the top level
      only. A crash is where the module's own code fails or exceeds its own step limit. A load names the key under which its target is
      scanned for exports and the key under which it is loaded, None where the target is rejected;
      `relative` marks a file path read before the cache is consulted; `explicit` are the names
      imported one by one, `star` says that there is a star import as well. */
  datatype Stmt =
    | Crash
    | Load(scanKey: Option<Key>, loadKey: Option<Key>, relative: bool, explicit: set<string>, star: bool)

  /** A module: its statements, the public names it defines when it runs to its end, whether it
      parses, and whether it compiles as written and with its star imports expanded. */
  datatype Module = Module(body: seq<Stmt>, exports: set<string>, parses: bool, plainCompiles: bool, expandedCompiles: bool)

  type Sources = map<Key, Module>

  datatype Entry = Loaded(exports: set<string>) | Failed

  // ---------------------------------------------------------------- programs

  /** A load as it is executed; a star that was not expanded fails once its module is loaded. */
  datatype Step = CrashStep | Import(key: Option<Key>, relative: bool, names: set<string>, rawStar: bool)

  datatype Program = Program(steps: seq<Step>, expanded: bool)

  function ExportsOf(src: Sources, k: Option<Key>): set<string> {
    if k.Some? && k.value in src then src[k.value].exports else {}
  }

  predicate HasStar(body: seq<Stmt>) {
    exists s :: s in body && s.Load? && s.star
  }

  /** An expanded load that imports nothing is removed. */
  predicate Kept(src: Sources, s: Stmt)
    requires s.Load?
  {
    s.star ==> s.explicit != {} || ExportsOf(src, s.scanKey) != {}
  }

  function ImportedNames(src: Sources, s: Stmt): set<string>
    requires s.Load?
  {
    s.explicit + if s.star then ExportsOf(src, s.scanKey) else {}
  }

  function ExpandedStep(src: Sources, s: Stmt): Step {
    if s.Crash? then CrashStep else Import(s.loadKey, s.relative, ImportedNames(src, s), false)
  }

  function RawStep(s: Stmt): Step {
    if s.Crash? then CrashStep else Import(s.loadKey, s.relative, s.explicit, s.star)
  }

  function RawSteps(body: seq<Stmt>): seq<Step> {
    seq(|body|, i requires 0 <= i < |body| => RawStep(body[i]))
  }

  function ExpandedSteps(src: Sources, body: seq<Stmt>): seq<Step> {
    if body == [] then []
    else
      var before, s := ExpandedSteps(src, body[..|body| - 1]), body[|body| - 1];
      if s.Load? && !Kept(src, s) then before else before + [ExpandedStep(src, s)]
  }

  lemma {:induction false} ExpandedMembers(src: Sources, body: seq<Stmt>)
    ensures forall st :: st in ExpandedSteps(src, body) <==>
              exists s :: s in body && (s.Load? ==> Kept(src, s)) && st == ExpandedStep(src, s)
  {
    if body != [] {
      var n := |body| - 1;
      ExpandedMembers(src, body[..n]);
      assert body == body[..n] + [body[n]];
    }
  }

  predicate Compiles(m: Module, p: Program) {
    m.parses && if p.expanded then m.expandedCompiles else m.plainCompiles
  }

  // ---------------------------------------------------------------- loadable modules

  /** The module `k` comes before number `n` and has all these names. */
  ghost predicate GoodImport(src: Sources, rank: map<Key, nat>, n: nat, k: Option<Key>, names: set<string>) {
    k.Some? && k.value in rank && rank[k.value] < n && k.value in src && names <= src[k.value].exports
  }

  ghost predicate GoodStmt(src: Sources, rank: map<Key, nat>, n: nat, s: Stmt) {
    && s.Load?
    && (s.star ==> GoodImport(src, rank, n, s.scanKey, {}))
    && (Kept(src, s) ==> GoodImport(src, rank, n, s.loadKey, ImportedNames(src, s)))
  }

  ghost predicate GoodModule(src: Sources, rank: map<Key, nat>, n: nat, k: Key) {
    && k in src && src[k].parses
    && (if HasStar(src[k].body) then src[k].expandedCompiles else src[k].plainCompiles)
    && forall s :: s in src[k].body ==> GoodStmt(src, rank, n, s)
  }

  /** A numbered set of modules, each of which exists, compiles, does not fail on its own, and loads
      only modules of the set with smaller numbers, and only names that they export. */
  ghost predicate Good(src: Sources, rank: map<Key, nat>) {
    forall k :: k in rank ==> GoodModule(src, rank, rank[k], k)
  }

  lemma GoodExtends(src: Sources, rank: map<Key, nat>, k: Key)
    requires Good(src, rank) && k !in rank && GoodModule(src, rank, Graphs.Above(rank), k)
    ensures Good(src, rank[k := Graphs.Above(rank)])
  {
    var more := rank[k := Graphs.Above(rank)];
    forall j | j in more
      ensures GoodModule(src, more, more[j], j)
    {
      forall s | s in src[j].body
        ensures GoodStmt(src, more, more[j], s)
      {
        assert GoodStmt(src, rank, more[j], s);
      }
    }
  }

  /** This step runs: its module is among `done` and has the names. */
  ghost predicate StepDone(src: Sources, done: map<Key, nat>, st: Step) {
    st.Import? && !st.rawStar && GoodImport(src, done, Graphs.Above(done), st.key, st.names)
  }

  ghost predicate StarsDone(src: Sources, done: map<Key, nat>, body: seq<Stmt>) {
    forall s :: s in body && s.Load? && s.star ==> GoodImport(src, done, Graphs.Above(done), s.scanKey, {})
  }

  /** The program that expansion makes of the module `k`. */
  ghost predicate IsProgramOf(src: Sources, done: map<Key, nat>, k: Key, p: Program)
    requires k in src
  {
    if p.expanded then p.steps == ExpandedSteps(src, src[k].body) && StarsDone(src, done, src[k].body) && HasStar(src[k].body)
    else p.steps == RawSteps(src[k].body)
  }

  /** A module whose program compiled and ran to its end is a good module. */
  lemma RanIsGood(src: Sources, done: map<Key, nat>, k: Key, p: Program)
    requires k in src && IsProgramOf(src, done, k, p) && Compiles(src[k], p)
    requires forall st :: st in p.steps ==> StepDone(src, done, st)
    ensures GoodModule(src, done, Graphs.Above(done), k)
  {
    hide GoodImport;
    var body := src[k].body;
    forall s | s in body
      ensures GoodStmt(src, done, Graphs.Above(done), s) && (s.Load? && s.star ==> p.expanded)
    {
      if p.expanded {
        ExpandedMembers(src, body);
        if s.Crash? || Kept(src, s) {
          assert ExpandedStep(src, s) in p.steps;
        }
      } else {
        var i :| 0 <= i < |body| && body[i] == s;
        assert p.steps[i] == RawStep(s) && p.steps[i] in p.steps;
        assert ImportedNames(src, s) == s.explicit;
      }
    }
  }

  /** Every step of a good module's program is a good import. */
  lemma GoodSteps(src: Sources, rank: map<Key, nat>, done: map<Key, nat>, k: Key, p: Program)
    requires Good(src, rank) && k in rank && k in src
    requires IsProgramOf(src, done, k, p) && (p.expanded <==> HasStar(src[k].body))
    ensures Compiles(src[k], p)
    ensures forall st :: st in p.steps ==> st.Import? && !st.rawStar && GoodImport(src, rank, rank[k], st.key, st.names)
  {
    hide GoodImport;
    assert GoodModule(src, rank, rank[k], k);
    var body := src[k].body;
    forall st | st in p.steps
      ensures st.Import? && !st.rawStar && GoodImport(src, rank, rank[k], st.key, st.names)
    {
      if p.expanded {
        ExpandedMembers(src, body);
        var s :| s in body && (s.Load? ==> Kept(src, s)) && st == ExpandedStep(src, s);
        assert GoodStmt(src, rank, rank[k], s);
      } else {
        var i :| 0 <= i < |body| && p.steps[i] == st;
        assert body[i] in body && GoodStmt(src, rank, rank[k], body[i]);
        assert ImportedNames(src, body[i]) == body[i].explicit;
      }
    }
  }

  // ---------------------------------------------------------------- the state of a loader

  /** The loader's maps with their ghost companions: the loads in progress, the loads begun
      so far, and the modules that ran to their end, in order. */
  datatype View = View(
    cache: map<Key, Option<Entry>>, expanding: set<Key>, active: set<Key>, begun: multiset<Key>, done: map<Key, nat>)

  /** Sentinels mark exactly the loads in progress, no module is loaded twice, and whatever is
      cached as loaded is part of a good set. */
  ghost predicate Inv(src: Sources, universe: set<Key>, v: View) {
    && (forall k :: k in v.cache && v.cache[k].None? <==> k in v.active)
    && (forall k :: v.begun[k] <= 1 && (k in v.begun ==> k in v.cache))
    && v.cache.Keys <= universe && v.expanding <= universe
    && (forall k :: k in v.cache && v.cache[k].Some? && v.cache[k].value.Loaded? ==>
          k in v.done && k in src && v.cache[k].value.exports == src[k].exports)
    && Good(src, v.done)
  }

  /** What a call leaves as it was: finished entries, the loads in progress, the modules being
      expanded, and what has run. */
  ghost predicate Grows(v: View, w: View) {
    && (forall k :: k in v.cache ==> k in w.cache && w.cache[k] == v.cache[k])
    && w.expanding == v.expanding && w.active == v.active
    && (forall k :: k in v.done ==> k in w.done && w.done[k] == v.done[k])
  }

  /** Cached modules of the good set `rank` are loaded, not failed. */
  ghost predicate Clean(rank: map<Key, nat>, v: View) {
    forall k :: k in rank && k in v.cache && v.cache[k].Some? ==> v.cache[k].value.Loaded?
  }

  /** If a module of `rank` is being loaded or expanded, then `k` is of `rank` as well and below it. */
  ghost predicate Clear(rank: map<Key, nat>, v: View, k: Key) {
    forall s :: s in v.active + v.expanding && s in rank ==> k in rank && rank[k] < rank[s]
  }

  /** The same for the module `k` that is itself being processed. */
  ghost predicate Under(rank: map<Key, nat>, v: View, k: Key) {
    forall s :: s in v.active + v.expanding && s in rank ==> k in rank && rank[k] <= rank[s]
  }

  function Begin(v: View, k: Key): View {
    v.(cache := v.cache[k := None], active := v.active + {k}, begun := v.begun + multiset{k})
  }

  ghost function End(v: View, k: Key, e: Entry): View {
    v.(cache := v.cache[k := Some(e)], active := v.active - {k},
       done := if e.Loaded? && k !in v.done then v.done[k := Graphs.Above(v.done)] else v.done)
  }

  ghost function EndScan(v: View, k: Key): View {
    v.(done := if k !in v.done then v.done[k := Graphs.Above(v.done)] else v.done)
  }

  lemma GrowsTransitive(u: View, v: View, w: View)
    requires Grows(u, v) && Grows(v, w)
    ensures Grows(u, w)
  {
  }

  lemma BeginKeeps(src: Sources, universe: set<Key>, v: View, k: Key, rank: map<Key, nat>)
    requires Inv(src, universe, v) && Clean(rank, v) && Clear(rank, v, k) && k in universe && k !in v.cache
    ensures var w := Begin(v, k);
            && Inv(src, universe, w) && Clean(rank, w) && Under(rank, w, k)
            && (k in rank ==> k !in w.expanding)
  {
    hide Good;
  }

  lemma EndInv(src: Sources, universe: set<Key>, v: View, k: Key, e: Entry)
    requires Inv(src, universe, v) && k in v.active
    requires e.Loaded? ==> k in src && e.exports == src[k].exports && GoodModule(src, v.done, Graphs.Above(v.done), k)
    ensures Inv(src, universe, End(v, k, e))
  {
    hide Good, GoodModule;
    if e.Loaded? && k !in v.done {
      GoodExtends(src, v.done, k);
    }
    var w := End(v, k, e);
    forall j
      ensures j in w.cache && w.cache[j].None? <==> j in w.active
    {
      assert j in v.cache && v.cache[j].None? <==> j in v.active;
    }
  }

  lemma EndGrows(v0: View, v: View, k: Key, e: Entry)
    requires k !in v0.cache && k !in v0.active && Grows(Begin(v0, k), v)
    ensures k in v.active && Grows(v0, End(v, k, e))
  {
    var w := End(v, k, e);
    forall j | j in v0.cache
      ensures j in w.cache && w.cache[j] == v0.cache[j]
    {
      assert j in Begin(v0, k).cache;
    }
    assert k in Begin(v0, k).active;
    assert w.active == v0.active;
  }

  /** The end of a load that began in `v0`, whatever happened in between. */
  lemma EndKeeps(src: Sources, universe: set<Key>, v0: View, v: View, k: Key, e: Entry, rank: map<Key, nat>)
    requires Inv(src, universe, v0) && k !in v0.cache && Inv(src, universe, v) && Grows(Begin(v0, k), v)
    requires Clean(rank, v) && (k in rank ==> e.Loaded?)
    requires e.Loaded? ==> k in src && e.exports == src[k].exports && GoodModule(src, v.done, Graphs.Above(v.done), k)
    ensures var w := End(v, k, e); Inv(src, universe, w) && Clean(rank, w) && Grows(v0, w)
  {
    hide Good, GoodModule, Grows;
    assert k !in v0.active;
    EndGrows(v0, v, k, e);
    hide Inv;
    EndInv(src, universe, v, k, e);
  }

  lemma EndScanKeeps(src: Sources, universe: set<Key>, v: View, k: Key, rank: map<Key, nat>)
    requires Inv(src, universe, v) && Clean(rank, v) && GoodModule(src, v.done, Graphs.Above(v.done), k)
    ensures var w := EndScan(v, k); Inv(src, universe, w) && Clean(rank, w) && Grows(v, w) && k in w.done
  {
    hide Good, GoodModule;
    if k !in v.done {
      GoodExtends(src, v.done, k);
    }
  }

  /** All keys that a load can meet belong to the finite universe. */
  ghost predicate ClosedUniverse(src: Sources, universe: set<Key>) {
    src.Keys <= universe && forall k, s :: k in src && s in src[k].body ==> KeysOf(s) <= universe
  }

  ghost function KeysOf(s: Stmt): set<Key> {
    if s.Crash? then {}
    else (if s.scanKey.Some? then {s.scanKey.value} else {}) + (if s.loadKey.Some? then {s.loadKey.value} else {})
  }

  /** A child of the module `k` may be loaded or scanned while `k` is processed. */
  lemma ChildClear(src: Sources, rank: map<Key, nat>, v: View, k: Key, child: Key)
    requires Under(rank, v, k)
    requires k in rank ==> child in rank && rank[child] < rank[k]
    ensures Clear(rank, v, child)
  {
  }

  lemma DoneMonotone(src: Sources, d: map<Key, nat>, e: map<Key, nat>, st: Step)
    requires StepDone(src, d, st) && forall k :: k in d ==> k in e && e[k] == d[k]
    ensures StepDone(src, e, st)
  {
  }

  lemma StarDoneMonotone(src: Sources, d: map<Key, nat>, e: map<Key, nat>, s: Stmt)
    requires s.Load? && GoodImport(src, d, Graphs.Above(d), s.scanKey, {}) && forall k :: k in d ==> k in e && e[k] == d[k]
    ensures GoodImport(src, e, Graphs.Above(e), s.scanKey, {})
  {
  }

  lemma RankedExists(src: Sources, rank: map<Key, nat>, k: Key)
    requires Good(src, rank)
    ensures k in rank ==> k in src && src[k].parses
  {
  }

  /** What a cached entry says: a module of a good set is neither failed nor in progress. */
  lemma CachedFacts(src: Sources, universe: set<Key>, rank: map<Key, nat>, v: View, k: Key)
    requires Inv(src, universe, v) && Clean(rank, v) && Clear(rank, v, k) && k in v.cache
    ensures match v.cache[k]
            case Some(Loaded(names)) => k in v.done && k in src && names == src[k].exports
            case Some(Failed) => k !in rank
            case None => k !in rank
  {
    hide Good;
  }

  lemma GrowsReflexive(v: View)
    ensures Grows(v, v)
  {
  }

  lemma MeasureShrinks(universe: set<Key>, v: View, w: View)
    requires Grows(v, w)
    ensures |universe - w.cache.Keys| <= |universe - v.cache.Keys| && w.expanding == v.expanding
  {
    if universe - w.cache.Keys != universe - v.cache.Keys {
      Graphs.SubsetSmaller(universe - w.cache.Keys, universe - v.cache.Keys);
    }
  }

  lemma NewKeySmaller(universe: set<Key>, v: View, k: Key)
    requires k in universe && k !in v.cache
    ensures |universe - Begin(v, k).cache.Keys| < |universe - v.cache.Keys|
  {
    assert k in universe - v.cache.Keys && k !in universe - Begin(v, k).cache.Keys;
    Graphs.SubsetSmaller(universe - Begin(v, k).cache.Keys, universe - v.cache.Keys);
  }

  lemma NewExpandingSmaller(universe: set<Key>, v: View, k: Key)
    requires k in universe && k !in v.expanding
    ensures |universe - (v.expanding + {k})| < |universe - v.expanding|
  {
    assert k in universe - v.expanding && k !in universe - (v.expanding + {k});
    Graphs.SubsetSmaller(universe - (v.expanding + {k}), universe - v.expanding);
  }

  lemma UnderGrows(rank: map<Key, nat>, v: View, w: View, k: Key)
    requires Under(rank, v, k) && Grows(v, w)
    ensures Under(rank, w, k)
  {
  }

  lemma ClearIsUnder(rank: map<Key, nat>, v: View, k: Key)
    requires Clear(rank, v, k)
    ensures Under(rank, v, k) && (k in rank ==> k !in v.expanding)
  {
  }

  lemma ExpandKeeps(src: Sources, universe: set<Key>, v: View, k: Key, rank: map<Key, nat>)
    requires ClosedUniverse(src, universe) && k in src
    requires Inv(src, universe, v) && Clean(rank, v) && Under(rank, v, k)
    ensures var w := v.(expanding := v.expanding + {k});
            k in universe && Inv(src, universe, w) && Clean(rank, w) && Under(rank, w, k)
  {
    hide Good;
  }

  lemma EndExpandKeeps(src: Sources, universe: set<Key>, v0: View, v: View, k: Key, rank: map<Key, nat>)
    requires k !in v0.expanding && Grows(v0.(expanding := v0.expanding + {k}), v)
    requires Inv(src, universe, v) && Clean(rank, v)
    ensures var w := v.(expanding := v.expanding - {k}); Inv(src, universe, w) && Clean(rank, w) && Grows(v0, w)
  {
    hide Good;
  }

  /** What is known about a step of the program of module `k` before it runs. */
  ghost predicate RunnableStep(src: Sources, universe: set<Key>, rank: map<Key, nat>, k: Key, st: Step) {
    && (st.Import? && st.key.Some? ==> st.key.value in universe)
    && (k in rank ==> st.Import? && !st.rawStar && GoodImport(src, rank, rank[k], st.key, st.names))
  }

  lemma StepsOfProgram(src: Sources, universe: set<Key>, rank: map<Key, nat>, done: map<Key, nat>, k: Key, p: Program)
    requires ClosedUniverse(src, universe) && k in src && Good(src, rank) && IsProgramOf(src, done, k, p)
    requires k in rank ==> (p.expanded <==> HasStar(src[k].body))
    ensures forall st :: st in p.steps ==> RunnableStep(src, universe, rank, k, st)
    ensures k in rank ==> Compiles(src[k], p)
  {
    hide Good, GoodImport, StarsDone;
    if k in rank {
      GoodSteps(src, rank, done, k, p);
    }
    var body := src[k].body;
    forall st | st in p.steps && st.Import? && st.key.Some?
      ensures st.key.value in universe
    {
      if p.expanded {
        ExpandedMembers(src, body);
        var s :| s in body && (s.Load? ==> Kept(src, s)) && st == ExpandedStep(src, s);
        assert st.key.value in KeysOf(s);
      } else {
        var i :| 0 <= i < |body| && p.steps[i] == st;
        assert body[i] in body && st.key.value in KeysOf(body[i]);
      }
    }
  }

  lemma ProgramMonotone(src: Sources, v: View, w: View, k: Key, p: Program)
    requires k in src && IsProgramOf(src, v.done, k, p) && Grows(v, w)
    ensures IsProgramOf(src, w.done, k, p)
  {
    hide ExpandedSteps, RawSteps;
    if p.expanded {
      forall s | s in src[k].body && s.Load? && s.star
        ensures GoodImport(src, w.done, Graphs.Above(w.done), s.scanKey, {})
      {
        StarDoneMonotone(src, v.done, w.done, s);
      }
    }
  }

  lemma StmtFacts(src: Sources, universe: set<Key>, rank: map<Key, nat>, k: Key, s: Stmt)
    requires ClosedUniverse(src, universe) && Good(src, rank) && k in src && s in src[k].body
    ensures s.Load? && s.scanKey.Some? ==> s.scanKey.value in universe
    ensures k in rank && s.Load? && s.star ==> s.scanKey.Some? && s.scanKey.value in rank && rank[s.scanKey.value] < rank[k]
  {
    assert s.Load? && s.scanKey.Some? ==> s.scanKey.value in KeysOf(s);
    if k in rank {
      assert GoodModule(src, rank, rank[k], k) && GoodStmt(src, rank, rank[k], s);
    }
  }

  lemma StarsDoneNil(src: Sources, done: map<Key, nat>, body: seq<Stmt>)
    ensures StarsDone(src, done, body[|body|..])
  {
  }

  lemma StarsDoneCons(src: Sources, v: View, w: View, body: seq<Stmt>, n: nat)
    requires 0 < n <= |body| && StarsDone(src, v.done, body[n..]) && Grows(v, w)
    requires var s := body[n - 1]; s.Load? && s.star ==> s.scanKey.Some? && s.scanKey.value in w.done && s.scanKey.value in src
    ensures StarsDone(src, w.done, body[n - 1..])
  {
    forall s | s in body[n - 1..] && s.Load? && s.star
      ensures GoodImport(src, w.done, Graphs.Above(w.done), s.scanKey, {})
    {
      if s in body[n..] {
        StarDoneMonotone(src, v.done, w.done, s);
      } else {
        assert body[n - 1..] == [body[n - 1]] + body[n..];
      }
    }
  }

  ghost predicate AllDone(src: Sources, done: map<Key, nat>, steps: seq<Step>) {
    forall st :: st in steps ==> StepDone(src, done, st)
  }

  lemma AllDoneSnoc(src: Sources, v: View, w: View, steps: seq<Step>, i: nat)
    requires i < |steps| && AllDone(src, v.done, steps[..i]) && Grows(v, w) && StepDone(src, w.done, steps[i])
    ensures AllDone(src, w.done, steps[..i + 1])
  {
    assert steps[..i + 1] == steps[..i] + [steps[i]];
    forall st | st in steps[..i]
      ensures StepDone(src, w.done, st)
    {
      DoneMonotone(src, v.done, w.done, st);
    }
  }

  // ---------------------------------------------------------------- the loader

  class Loader {
    const src: Sources
    ghost const universe: set<Key>
    var cache: map<Key, Option<Entry>>
    var expanding: set<Key>
    ghost var active: set<Key>
    ghost var begun: multiset<Key>
    ghost var done: map<Key, nat>

    constructor (src: Sources, ghost universe: set<Key>)
      requires ClosedUniverse(src, universe)
      ensures this.src == src && this.universe == universe && V() == View(map[], {}, {}, multiset{}, map[])
    {
      this.src := src;
      this.universe := universe;
      cache, expanding := map[], {};
      active, begun, done := {}, multiset{}, map[];
    }

    ghost function V(): View
      reads this
    {
      View(cache, expanding, active, begun, done)
    }

    /** The load callback: cached results, the sentinel of a load in progress, or a new load. */
    method Load(key: Key, relative: bool, ghost rank: map<Key, nat>) returns (r: Result<set<string>, ()>)
      requires ClosedUniverse(src, universe) && key in universe && Good(src, rank)
      requires Inv(src, universe, V()) && Clean(rank, V()) && Clear(rank, V(), key)
      modifies this
      ensures Inv(src, universe, V()) && Clean(rank, V()) && Grows(old(V()), V())
      ensures r.Ok? ==> key in done && key in src && r.value == src[key].exports
      ensures key in rank ==> r.Ok?
      decreases |universe - cache.Keys|, |universe - expanding|, 1
    {
      hide Inv, Clean, Clear, Good, Grows, ClosedUniverse;
      RankedExists(src, rank, key);
      GrowsReflexive(V());
      if relative && key !in src {
        return Err(());
      }
      if key in cache {
        CachedFacts(src, universe, rank, V(), key);
        match cache[key] {
          case Some(Loaded(names)) => return Ok(names);
          case Some(Failed) => return Err(());
          case None => return Err(());
        }
      }
      r := LoadNew(key, rank);
    }

    /** A load that is not in the cache yet: from the sentinel to the final entry. */
    method LoadNew(key: Key, ghost rank: map<Key, nat>) returns (r: Result<set<string>, ()>)
      requires ClosedUniverse(src, universe) && key in universe && key !in cache && Good(src, rank)
      requires Inv(src, universe, V()) && Clean(rank, V()) && Clear(rank, V(), key)
      modifies this
      ensures Inv(src, universe, V()) && Clean(rank, V()) && Grows(old(V()), V())
      ensures r.Ok? ==> key in done && key in src && r.value == src[key].exports
      ensures key in rank ==> r.Ok?
      decreases |universe - cache.Keys|, |universe - expanding|, 0
    {
      hide Inv, Clean, Clear, Under, Good, GoodModule, Grows, ClosedUniverse;
      ghost var v0 := V();
      BeginKeeps(src, universe, v0, key, rank);
      RankedExists(src, rank, key);
      cache := cache[key := None];
      active, begun := active + {key}, begun + multiset{key};
      assert V() == Begin(v0, key);
      NewKeySmaller(universe, v0, key);
      GrowsReflexive(V());
      if key !in src {
        Finish(key, Failed, v0, rank);
        return Err(());
      }
      var ran := RunModule(key, rank);
      if !ran {
        Finish(key, Failed, v0, rank);
        return Err(());
      }
      Finish(key, Loaded(src[key].exports), v0, rank);
      r := Ok(src[key].exports);
    }

    /** Replaces the sentinel of a load that began in `v0` by its entry. */
    method Finish(key: Key, e: Entry, ghost v0: View, ghost rank: map<Key, nat>)
      requires Inv(src, universe, v0) && key !in v0.cache && Inv(src, universe, V()) && Grows(Begin(v0, key), V())
      requires Clean(rank, V()) && (key in rank ==> e.Loaded?)
      requires e.Loaded? ==> key in src && e.exports == src[key].exports && GoodModule(src, done, Graphs.Above(done), key)
      modifies `cache, `active, `done
      ensures Inv(src, universe, V()) && Clean(rank, V()) && Grows(v0, V())
      ensures e.Loaded? ==> key in done
    {
      hide Inv, Clean, GoodModule, Grows;
      EndKeeps(src, universe, v0, V(), key, e, rank);
      cache := cache[key := Some(e)];
      active := active - {key};
      done := if e.Loaded? && key !in done then done[key := Graphs.Above(done)] else done;
    }

    /** Expands, compiles and executes the module `key`. */
    method RunModule(key: Key, ghost rank: map<Key, nat>) returns (ran: bool)
      requires ClosedUniverse(src, universe) && key in src && Good(src, rank)
      requires Inv(src, universe, V()) && Clean(rank, V()) && Under(rank, V(), key)
      requires key in rank ==> key !in expanding
      modifies this
      ensures Inv(src, universe, V()) && Clean(rank, V()) && Grows(old(V()), V())
      ensures ran ==> GoodModule(src, done, Graphs.Above(done), key)
      ensures key in rank ==> ran
      decreases |universe - cache.Keys|, |universe - expanding|, 4
    {
      hide Inv, Clean, Clear, Under, Good, GoodModule, Grows, ClosedUniverse;
      var p := ResolveStar(key, rank);
      if p.Err? {
        return false;
      }
      StepsOfProgram(src, universe, rank, done, key, p.value);
      if !Compiles(src[key], p.value) {
        return false;
      }
      ghost var mid := V();
      MeasureShrinks(universe, old(V()), mid);
      UnderGrows(rank, old(V()), mid, key);
      ran := Execute(p.value.steps, key, rank);
      GrowsTransitive(old(V()), mid, V());
      if ran {
        ProgramMonotone(src, mid, V(), key, p.value);
        RanIsGood(src, done, key, p.value);
      }
    }

    /** Expands the star imports of `key`, unless that is already under way. */
    method ResolveStar(key: Key, ghost rank: map<Key, nat>) returns (r: Result<Program, ()>)
      requires ClosedUniverse(src, universe) && key in src && Good(src, rank)
      requires Inv(src, universe, V()) && Clean(rank, V()) && Under(rank, V(), key)
      requires key in rank ==> key !in expanding
      modifies this
      ensures Inv(src, universe, V()) && Clean(rank, V()) && Grows(old(V()), V())
      ensures r.Ok? ==> IsProgramOf(src, done, key, r.value)
      ensures key in rank ==> r.Ok? && (r.value.expanded <==> HasStar(src[key].body))
      decreases |universe - cache.Keys|, |universe - expanding|, 3
    {
      hide Inv, Clean, Under, Good, GoodModule, Grows, ClosedUniverse, ExpandedSteps, RawSteps, StarsDone;
      var m := src[key];
      RankedExists(src, rank, key);
      if key in expanding || !m.parses || !HasStar(m.body) {
        GrowsReflexive(V());
        return Ok(Program(RawSteps(m.body), false));
      }
      ghost var v0 := V();
      ExpandKeeps(src, universe, v0, key, rank);
      expanding := expanding + {key};
      NewExpandingSmaller(universe, v0, key);
      var ok := ScanStars(key, rank);
      EndExpandKeeps(src, universe, v0, V(), key, rank);
      expanding := expanding - {key};
      r := if ok then Ok(Program(ExpandedSteps(src, m.body), true)) else Err(());
    }

    /** Scans the targets of the star imports, from the last statement to the first. */
    method ScanStars(key: Key, ghost rank: map<Key, nat>) returns (ok: bool)
      requires ClosedUniverse(src, universe) && key in src && Good(src, rank)
      requires Inv(src, universe, V()) && Clean(rank, V()) && Under(rank, V(), key)
      modifies this
      ensures Inv(src, universe, V()) && Clean(rank, V()) && Grows(old(V()), V())
      ensures ok ==> StarsDone(src, done, src[key].body)
      ensures key in rank ==> ok
      decreases |universe - cache.Keys|, |universe - expanding|, 8
    {
      hide Inv, Clean, Under, Good, GoodModule, Grows, ClosedUniverse, StarsDone;
      var body := src[key].body;
      var i := |body|;
      GrowsReflexive(V());
      StarsDoneNil(src, done, body);
      while i > 0
        invariant 0 <= i <= |body|
        invariant Inv(src, universe, V()) && Clean(rank, V()) && Grows(old(V()), V())
        invariant StarsDone(src, done, body[i..])
      {
        MeasureShrinks(universe, old(V()), V());
        ok := ScanNext(key, i, rank, old(V()));
        if !ok {
          return;
        }
        i := i - 1;
      }
      assert body[0..] == body;
      ok := true;
    }

    /** One turn of that loop, in a scan that started in `start`. */
    method ScanNext(key: Key, i: nat, ghost rank: map<Key, nat>, ghost start: View) returns (ok: bool)
      requires ClosedUniverse(src, universe) && key in src && Good(src, rank) && 0 < i <= |src[key].body|
      requires Inv(src, universe, V()) && Clean(rank, V()) && Under(rank, start, key) && Grows(start, V())
      requires StarsDone(src, done, src[key].body[i..])
      modifies this
      ensures Inv(src, universe, V()) && Clean(rank, V()) && Grows(start, V())
      ensures ok ==> StarsDone(src, done, src[key].body[i - 1..])
      ensures key in rank ==> ok
      decreases |universe - cache.Keys|, |universe - expanding|, 7
    {
      hide Inv, Clean, Under, Good, GoodModule, Grows, ClosedUniverse, StarsDone;
      ghost var v := V();
      UnderGrows(rank, start, v, key);
      ok := ScanStar(key, src[key].body[i - 1], rank);
      GrowsTransitive(start, v, V());
      if ok {
        StarsDoneCons(src, v, V(), src[key].body, i);
      }
    }

    method ScanStar(key: Key, s: Stmt, ghost rank: map<Key, nat>) returns (ok: bool)
      requires ClosedUniverse(src, universe) && key in src && s in src[key].body && Good(src, rank)
      requires Inv(src, universe, V()) && Clean(rank, V()) && Under(rank, V(), key)
      modifies this
      ensures Inv(src, universe, V()) && Clean(rank, V()) && Grows(old(V()), V())
      ensures ok && s.Load? && s.star ==> s.scanKey.Some? && s.scanKey.value in done && s.scanKey.value in src
      ensures key in rank ==> ok
      decreases |universe - cache.Keys|, |universe - expanding|, 6
    {
      hide Inv, Clean, Under, Clear, Good, GoodModule, Grows, ClosedUniverse;
      GrowsReflexive(V());
      StmtFacts(src, universe, rank, key, s);
      if s.Crash? || !s.star {
        return true;
      }
      if s.scanKey.None? {
        return false;
      }
      ChildClear(src, rank, V(), key, s.scanKey.value);
      var exports := ScanExports(s.scanKey.value, rank);
      ok := exports.Ok?;
    }

    /** The public names of a module, found by running it without caching it. */
    method ScanExports(key: Key, ghost rank: map<Key, nat>) returns (r: Result<set<string>, ()>)
      requires ClosedUniverse(src, universe) && key in universe && Good(src, rank)
      requires Inv(src, universe, V()) && Clean(rank, V()) && Clear(rank, V(), key)
      modifies this
      ensures Inv(src, universe, V()) && Clean(rank, V()) && Grows(old(V()), V())
      ensures r.Ok? ==> key in done && key in src && r.value == src[key].exports
      ensures key in rank ==> r.Ok?
      decreases |universe - cache.Keys|, |universe - expanding|, 5
    {
      hide Inv, Clean, Clear, Under, Good, GoodModule, Grows, ClosedUniverse;
      RankedExists(src, rank, key);
      GrowsReflexive(V());
      if key !in src {
        return Err(());
      }
      ClearIsUnder(rank, V(), key);
      var ran := RunModule(key, rank);
      if !ran {
        return Err(());
      }
      ghost var mid := V();
      EndScanKeeps(src, universe, mid, key, rank);
      done := if key !in done then done[key := Graphs.Above(done)] else done;
      GrowsTransitive(old(V()), mid, V());
      r := Ok(src[key].exports);
    }

    /** Runs the steps of the program of module `key` until one fails. */
    method Execute(steps: seq<Step>, ghost key: Key, ghost rank: map<Key, nat>) returns (ok: bool)
      requires ClosedUniverse(src, universe) && Good(src, rank)
      requires Inv(src, universe, V()) && Clean(rank, V()) && Under(rank, V(), key)
      requires forall st :: st in steps ==> RunnableStep(src, universe, rank, key, st)
      modifies this
      ensures Inv(src, universe, V()) && Clean(rank, V()) && Grows(old(V()), V())
      ensures ok ==> forall st :: st in steps ==> StepDone(src, done, st)
      ensures key in rank ==> ok
      decreases |universe - cache.Keys|, |universe - expanding|, 3
    {
      hide Inv, Clean, Under, Good, Grows, ClosedUniverse, StepDone, RunnableStep;
      var i := 0;
      GrowsReflexive(V());
      while i < |steps|
        invariant 0 <= i <= |steps|
        invariant Inv(src, universe, V()) && Clean(rank, V()) && Grows(old(V()), V())
        invariant AllDone(src, done, steps[..i])
      {
        ghost var v := V();
        MeasureShrinks(universe, old(V()), v);
        UnderGrows(rank, old(V()), v, key);
        ok := ExecuteStep(steps[i], key, rank);
        GrowsTransitive(old(V()), v, V());
        if !ok {
          return;
        }
        AllDoneSnoc(src, v, V(), steps, i);
        i := i + 1;
      }
      assert steps[..i] == steps;
      ok := true;
    }

    method ExecuteStep(st: Step, ghost key: Key, ghost rank: map<Key, nat>) returns (ok: bool)
      requires ClosedUniverse(src, universe) && Good(src, rank)
      requires Inv(src, universe, V()) && Clean(rank, V()) && Under(rank, V(), key)
      requires RunnableStep(src, universe, rank, key, st)
      modifies this
      ensures Inv(src, universe, V()) && Clean(rank, V()) && Grows(old(V()), V())
      ensures ok ==> StepDone(src, done, st)
      ensures key in rank ==> ok
      decreases |universe - cache.Keys|, |universe - expanding|, 2
    {
      hide Inv, Clean, Under, Clear, Good, Grows, ClosedUniverse;
      GrowsReflexive(V());
      if st.CrashStep? || st.key.None? {
        return false;
      }
      ChildClear(src, rank, V(), key, st.key.value);
      var r := Load(st.key.value, st.relative, rank);
      ok := r.Ok? && !st.rawStar && st.names <= r.value;
    }
  }

  // ---------------------------------------------------------------- when a load succeeds

  ghost predicate SaneImport(src: Sources, ks: set<Key>, k: Option<Key>, names: set<string>) {
    k.Some? && k.value in ks && k.value in src && names <= src[k.value].exports
  }

  /** A load imports names that its target exports; a star import scans a module of the set, and unless
      there is nothing to import, its target exports the names asked for and all that were found. */
  ghost predicate SaneStmt(src: Sources, ks: set<Key>, s: Stmt) {
    && s.Load?
    && if !s.star then SaneImport(src, ks, s.loadKey, s.explicit)
       else
         && SaneImport(src, ks, s.scanKey, {})
         && var names := s.explicit + src[s.scanKey.value].exports;
         names != {} ==> SaneImport(src, ks, s.loadKey, names)
  }

  /** A set of modules each of which exists, compiles and does not fail on its own, and loads only
      modules of the set and names that they export. */
  ghost predicate Sane(src: Sources, ks: set<Key>) {
    forall k :: k in ks ==>
                  && k in src && src[k].parses
                  && (if HasStar(src[k].body) then src[k].expandedCompiles else src[k].plainCompiles)
                  && forall s :: s in src[k].body ==> SaneStmt(src, ks, s)
  }

  /** The modules that one statement scans or loads. */
  function TargetsOf(src: Sources, s: Stmt): set<Key> {
    if s.Crash? then {}
    else
      var found := s.scanKey.Some? && s.scanKey.value in src && src[s.scanKey.value].exports != {};
      (if s.star && s.scanKey.Some? then {s.scanKey.value} else {})
      + (if s.loadKey.Some? && (!s.star || s.explicit != {} || found) then {s.loadKey.value} else {})
  }

  ghost function LoadGraph(src: Sources, ks: set<Key>): Graphs.Graph {
    set k, s, t | k in ks && k in src && s in src[k].body && t in TargetsOf(src, s) :: (k, t)
  }

  lemma GoodIsSane(src: Sources, rank: map<Key, nat>)
    requires Good(src, rank)
    ensures Sane(src, rank.Keys) && Graphs.Acyclic(LoadGraph(src, rank.Keys))
  {
    forall k, s | k in rank && s in src[k].body
      ensures SaneStmt(src, rank.Keys, s) && forall t :: t in TargetsOf(src, s) ==> t in rank && rank[t] < rank[k]
    {
      assert GoodModule(src, rank, rank[k], k) && GoodStmt(src, rank, rank[k], s);
    }
    Graphs.NumberedIsAcyclic(LoadGraph(src, rank.Keys), rank);
  }

  lemma SaneIsGood(src: Sources, ks: set<Key>) returns (rank: map<Key, nat>)
    requires Sane(src, ks) && Graphs.Acyclic(LoadGraph(src, ks))
    ensures Good(src, rank) && rank.Keys == ks
  {
    hide Graphs.Rank, Graphs.Acyclic;
    var g := LoadGraph(src, ks);
    rank := map k | k in ks :: Graphs.Rank(g, k);
    forall k, s | k in ks && s in src[k].body
      ensures GoodStmt(src, rank, rank[k], s)
    {
      assert SaneStmt(src, ks, s);
      forall t | t in TargetsOf(src, s)
        ensures t in ks ==> rank[t] < rank[k]
      {
        assert (k, t) in g;
        Graphs.RankStep(g, k, t);
      }
    }
  }

  ghost function UniverseOf(src: Sources, key: Key): set<Key> {
    {key} + src.Keys + set k, s, t | k in src && s in src[k].body && t in KeysOf(s) :: t
  }

  /** `key` lies in a sane set of modules without a load cycle. */
  ghost predicate Loadable(src: Sources, key: Key) {
    exists ks :: key in ks && Sane(src, ks) && Graphs.Acyclic(LoadGraph(src, ks))
  }

  /** A load by a fresh loader always ends, and it succeeds exactly when the module and everything it
      loads exist, compile, do not fail and export what is imported, without a cycle of loads; the
      result is then the module's public names. */
  method LoadFresh(src: Sources, key: Key, relative: bool) returns (r: Result<set<string>, ()>)
    ensures r.Ok? <==> Loadable(src, key)
    ensures r.Ok? ==> key in src && r.value == src[key].exports
  {
    hide Sane, LoadGraph, Good, Graphs.Acyclic, GoodModule, GoodStmt;
    ghost var universe := UniverseOf(src, key);
    ghost var rank: map<Key, nat> := map[];
    EmptyIsGood(src);
    if Loadable(src, key) {
      ghost var ks :| key in ks && Sane(src, ks) && Graphs.Acyclic(LoadGraph(src, ks));
      rank := SaneIsGood(src, ks);
    }
    UniverseCloses(src, key);
    var loader := new Loader(src, universe);
    FreshInv(src, universe, rank, key);
    r := loader.Load(key, relative, rank);
    if r.Ok? {
      GoodIsSane(src, loader.done);
      assert key in loader.done.Keys;
    }
  }

  lemma EmptyIsGood(src: Sources)
    ensures Good(src, map[])
  {
  }

  lemma UniverseCloses(src: Sources, key: Key)
    ensures ClosedUniverse(src, UniverseOf(src, key)) && key in UniverseOf(src, key)
  {
    forall k, s | k in src && s in src[k].body
      ensures KeysOf(s) <= UniverseOf(src, key)
    {
      assert forall t :: t in KeysOf(s) ==> t in UniverseOf(src, key);
    }
  }

  lemma FreshInv(src: Sources, universe: set<Key>, rank: map<Key, nat>, key: Key)
    ensures var v := View(map[], {}, {}, multiset{}, map[]);
            Inv(src, universe, v) && Clean(rank, v) && Clear(rank, v, key)
  {
  }
}
