/**
 What holds over every run of reconciles, with Crossplane as the environment between them: it may
 create only what was desired, change any status and delete anything.
 */
module Runs {
  import opened Wrappers
  import opened Proto
  import opened Graphs
  import opened Dependencies
  import opened Sequencer
  import opened Usages
  import opened Collector
  import opened Reconcile
  import Names

  /** One reconcile of a run: its request and what its script collected. */
  datatype Round = Round(req: Request, script: State)

  ghost function Rsp(h: Hashes, r: Round): Response {
    Respond(h, r.req, r.script)
  }

  /** Only what a reconcile desired can be new at the next one. */
  ghost predicate IsRun(h: Hashes, run: seq<Round>) {
    forall i, j :: 0 <= i && j == i + 1 < |run| ==> NextRound(h, run[i], run[j])
  }

  ghost predicate NextRound(h: Hashes, r: Round, next: Round) {
    next.req.observed.Keys <= r.req.observed.Keys + Rsp(h, r).desired.Keys
  }

  /** The round came to the point where the collected resources are applied. */
  ghost predicate Applied(h: Hashes, r: Round) {
    Rsp(h, r).fatal !in {Some(InvalidDependencies), Some(InvalidSequencingTtl)}
  }

  /** The resources that the script of this round puts into the desired state. */
  ghost function EmittedBy(h: Hashes, r: Round): set<string> {
    if !Applied(h, r) then {}
    else (r.script.resources - Withheld(r.script.deps, r.req.observed)).Keys
  }

  /** Which rounds fail: a declared handle without its resource or a circle of dependencies, a sequencing
      TTL that does not parse where there are dependencies, and a dxr or context that does not convert. */
  lemma FatalExactly(h: Hashes, r: Round)
    ensures var deps, resources := r.script.deps, r.script.resources;
            var invalid := (exists d :: d in deps && d.isRef && d.dependency !in resources) || exists p :: IsCircle(deps, p);
            Rsp(h, r).fatal ==
              if invalid then Some(InvalidDependencies)
              else if deps != [] && r.req.sequencingTtl.None? then Some(InvalidSequencingTtl)
              else if !r.req.dxrConverts then Some(UnusableDxr)
              else if !r.req.contextConverts then Some(UnusableContext)
              else None
  {
    hide AllUsages, Withheld, CompositeReady, Reported, TtlOf, DefersOf;
    forall p
      ensures IsCircle(r.script.deps, p) <==> IsCycle(EdgesOf(r.script.deps), p)
    {
      CircleIff(r.script.deps, p);
    }
    hide IsCycle;
    if r.script.deps == [] {
      NoCircle();
    }
  }

  lemma NoCircle()
    ensures forall p :: !IsCircle([], p)
  {
    forall p
      ensures !IsCircle([], p)
    {
      assert |p| > 1 ==> !DependsOn([], p[0], p[1]);
    }
  }

  /** A resource of the script is emitted unless it is unobserved and waits for a dependency. */
  lemma EmittedExactly(h: Hashes, r: Round, n: string)
    ensures n in EmittedBy(h, r) <==>
      Applied(h, r) && n in r.script.resources && (n in r.req.observed || !Waits(r.script.deps, r.req.observed, n))
  {
    hide Respond, Waits, Withheld;
    WithheldExactly(r.script.deps, r.req.observed, n);
  }

  /** What is desired: every emitted resource with the body, readiness and connection details that the
      script gave it; everything else that is no Usage as earlier pipeline steps desire it; and nothing
      that they desire is dropped. */
  lemma DesiredContents(h: Hashes, r: Round, n: string)
    ensures var desired := Rsp(h, r).desired;
            && (n in EmittedBy(h, r) ==>
                  && n in r.script.resources && n in desired
                  && desired[n].body == r.script.resources[n].body
                  && desired[n].ready == r.script.resources[n].ready
                  && desired[n].connection == r.script.resources[n].connection)
            && (n in desired && n !in EmittedBy(h, r) && n !in UsagesOf(h, r.req, r.script) ==>
                  n in r.req.prior && desired[n] == r.req.prior[n])
            && (n in r.req.prior ==> n in desired)
  {
    hide AllUsages, Withheld, CompositeReady, Reported, TtlOf, DefersOf, Accepted;
  }

  /** The TTL of a round that applies its resources: what the user set, zero clearing it; otherwise the
      sequencing TTL while something is withheld, none once nothing is, and the default if the script
      declares no dependencies. */
  lemma TtlExactly(h: Hashes, r: Round)
    requires Applied(h, r)
    ensures var waiting := exists n :: n !in r.req.observed && Waits(r.script.deps, r.req.observed, n);
            Rsp(h, r).ttl ==
              if r.req.userTtl == Some(0) then None
              else if r.req.userTtl.Some? then r.req.userTtl
              else if waiting then r.req.sequencingTtl
              else if r.script.deps != [] then None
              else r.req.defaultTtl
  {
    hide AllUsages, CompositeReady, Reported, DefersOf, Accepted, Waits, Withheld;
    forall n
      ensures n in Withheld(r.script.deps, r.req.observed) <==> n !in r.req.observed && Waits(r.script.deps, r.req.observed, n)
    {
      WithheldExactly(r.script.deps, r.req.observed, n);
    }
    if Withheld(r.script.deps, r.req.observed) != {} {
      var n :| n in Withheld(r.script.deps, r.req.observed);
    }
    if r.script.deps == [] {
      NothingDeclared(h, r.req, r.script);
    }
  }

  /** `n` can only get into the desired state of this round through its script: no earlier pipeline
      step desires it, and it is not the name of a Usage. */
  ghost predicate OnlyFromScript(h: Hashes, r: Round, n: string) {
    n !in r.req.prior && n !in UsagesOf(h, r.req, r.script)
  }

  lemma DesiredFromScript(h: Hashes, r: Round, n: string)
    requires OnlyFromScript(h, r, n)
    ensures n in Rsp(h, r).desired <==> n in EmittedBy(h, r)
  {
  }

  /** A withheld resource is absent from the desired state exactly when no earlier pipeline step
      desires it and it is not the name of a Usage: deferral hides nothing that others put there. */
  lemma WithheldIsAbsentIff(h: Hashes, r: Round, n: string)
    requires Applied(h, r) && n in Withheld(r.script.deps, r.req.observed)
    ensures n !in Rsp(h, r).desired <==> OnlyFromScript(h, r, n)
  {
    hide AllUsages, Met;
  }

  lemma NothingUsed(h: Hashes, r: Round, d: Pair)
    requires r.script.deps == [d] && r.req.observed == map[]
    ensures UsagesOf(h, r.req, r.script) == map[]
  {
    hide BuildUsage, ScopeOf, InfoOf;
    assert [d][..0] == [];
    assert AllUsages(h, r.req.api, [], Bodies(r.script.resources), map[]) == map[];
    assert !PairReady(d, map[]);
  }

  /** A round in which deferral hides nothing: the resource "app" waits for "db", and is desired all the
      same because an earlier pipeline step desires that name. */
  lemma WithheldStaysDesired(h: Hashes)
    ensures var earlier := Desired(map[], Unspecified, map[]);
            var c := EMPTY.(resources := map["app" := Collected(map[], Unspecified, map[]),
                                             "db" := Collected(map[], Unspecified, map[])],
                            deps := [Pair("app", "db", true, "")]);
            var r := Round(RoundOn(c, map[]).req.(prior := map["app" := earlier]), c);
            && Rsp(h, r).fatal.None? && "app" in Withheld(c.deps, map[])
            && "app" in Rsp(h, r).desired && Rsp(h, r).desired["app"] == earlier
  {
    hide AllUsages, CompositeReady, Reported, TtlOf, DefersOf, UsageOf, UnmetReady;
    var d := Pair("app", "db", true, "");
    var c := EMPTY.(resources := map["app" := Collected(map[], Unspecified, map[]),
                                     "db" := Collected(map[], Unspecified, map[])],
                    deps := [d]);
    var earlier := Desired(map[], Unspecified, map[]);
    var r := Round(RoundOn(c, map[]).req.(prior := map["app" := earlier]), c);
    assert d in c.deps && !Met(d, map[]);
    assert "app" in Withheld(c.deps, map[]);
    NumberedIsAcyclic(EdgesOf(c.deps), map["app" := 1, "db" := 0]);
    assert Accepted(c);
    NothingUsed(h, r, d);
  }

  /** A resource is released only when every dependency that its script declares for it is met, unless
      it is already observed. */
  lemma ReleasedWhenMet(h: Hashes, r: Round, n: string, d: Pair)
    requires n in EmittedBy(h, r) && n !in r.req.observed
    requires d in r.script.deps && d.dependent == n
    ensures Satisfied(d, r.req.observed)
  {
    hide Respond, Met, Satisfied;
    MetExactlyWhen(d, r.req.observed);
  }

  // ---------------------------------------------------------------- creation order

  /** The first round, up to `n`, in which `x` is observed. */
  ghost function FirstSeen(run: seq<Round>, x: string, n: nat): (k: nat)
    requires n < |run| && x in run[n].req.observed
    ensures k <= n && x in run[k].req.observed
    ensures forall i :: 0 <= i < k ==> x !in run[i].req.observed
  {
    if i: nat :| i < n && x in run[i].req.observed then FirstSeen(run, x, i) else n
  }

  /** Round `k - 1` released `x`, with every declared dependency of `x` met and first observed before
      round `k`. */
  ghost predicate ReleasedAfterDependencies(h: Hashes, run: seq<Round>, k: nat, x: string)
    requires 0 < k <= |run|
  {
    var r := run[k - 1];
    && x in EmittedBy(h, r)
    && forall d :: d in r.script.deps && d.dependent == x ==> Satisfied(d, r.req.observed) && SeenBefore(run, d.dependency, k)
  }

  ghost predicate SeenBefore(run: seq<Round>, x: string, k: nat)
    requires 0 < k <= |run|
  {
    x in run[k - 1].req.observed && FirstSeen(run, x, k - 1) < k
  }

  /** In every run that starts with nothing observed, a resource that only its script can desire is
      first observed right after a reconcile that released it with all its dependencies met, hence
      strictly after each of those dependencies was first observed. */
  lemma DependenciesComeFirst(h: Hashes, run: seq<Round>, n: nat, x: string)
    requires IsRun(h, run) && n < |run| && run[0].req.observed == map[]
    requires x in run[n].req.observed
    requires forall i :: 0 <= i < n ==> OnlyFromScript(h, run[i], x)
    ensures FirstSeen(run, x, n) > 0 && ReleasedAfterDependencies(h, run, FirstSeen(run, x, n), x)
  {
    hide Respond;
    var k := FirstSeen(run, x, n);
    assert k > 0;
    var r := run[k - 1];
    assert NextRound(h, r, run[k]);
    DesiredFromScript(h, r, x);
    forall d | d in r.script.deps && d.dependent == x
      ensures Satisfied(d, r.req.observed) && SeenBefore(run, d.dependency, k)
    {
      ReleasedWhenMet(h, r, x, d);
    }
  }

  // ---------------------------------------------------------------- convergence

  /** The dependencies between resources of the script itself. */
  ghost function ScriptGraph(c: State): Graph {
    set d | d in c.deps && d.dependency in c.resources :: (d.dependent, d.dependency)
  }

  /** A steady run of one script whose validation passes: the same script each time, its names its
      own, and dependencies on anything outside the script always met. */
  ghost predicate IsSteadyRun(h: Hashes, run: seq<Round>, c: State) {
    && IsRun(h, run)
    && Coherent(c, {})
    && Accepted(c)
    && forall i :: 0 <= i < |run| ==> SteadyRound(h, run[i], c)
  }

  ghost predicate SteadyRound(h: Hashes, r: Round, c: State) {
    && r.script == c
    && r.req.sequencingTtl.Some? && r.req.dxrConverts && r.req.contextConverts
    && (forall x :: x in c.resources ==> OnlyFromScript(h, r, x))
    && (forall d :: d in c.deps && d.dependency !in c.resources ==> Met(d, r.req.observed))
  }

  /** Every resource that a reconcile emitted is observed, and meets all dependencies on it, by the
      next one. */
  ghost predicate IsPrompt(h: Hashes, run: seq<Round>, c: State) {
    forall i, j :: 0 <= i && j == i + 1 < |run| ==> AllSettled(h, run[i], run[j], c)
  }

  ghost predicate AllSettled(h: Hashes, r: Round, next: Round, c: State) {
    forall x :: x in c.resources && x in EmittedBy(h, r) ==> Settled(next, c, x)
  }

  ghost predicate Settled(r: Round, c: State, x: string) {
    && x in r.req.observed
    && forall d :: d in c.deps && d.dependency == x ==> Met(d, r.req.observed)
  }

  lemma ScriptGraphAcyclic(c: State)
    requires Accepted(c)
    ensures Acyclic(ScriptGraph(c))
  {
    SubgraphAcyclic(ScriptGraph(c), EdgesOf(c.deps));
  }

  lemma SteadyEmits(h: Hashes, r: Round, c: State, x: string)
    requires SteadyRound(h, r, c) && Accepted(c) && x in c.resources
    ensures x in EmittedBy(h, r) <==> x in r.req.observed || forall d :: d in c.deps && d.dependent == x ==> Met(d, r.req.observed)
  {
    hide Met, AllUsages, Acyclic, CompositeReady, Reported, TtlOf;
  }

  /** In a steady, prompt run every resource is desired from reconcile number rank on, the rank being
      the length of its longest chain of dependencies. */
  lemma {:induction false} DesiredFromRankOn(h: Hashes, run: seq<Round>, c: State, i: nat, x: string)
    requires IsSteadyRun(h, run, c) && IsPrompt(h, run, c) && i < |run| && x in c.resources
    requires Acyclic(ScriptGraph(c)) && i >= Rank(ScriptGraph(c), x)
    ensures x in EmittedBy(h, run[i])
    decreases i
  {
    hide EmittedBy, Met, Rank, SteadyRound, OnlyFromScript, Acyclic, ScriptGraph;
    SteadyFacts(h, run, c, i);
    SteadyEmits(h, run[i], c, x);
    forall d | d in c.deps && d.dependent == x
      ensures Met(d, run[i].req.observed)
    {
      if d.dependency in c.resources {
        ScriptEdge(c, d);
        RankStep(ScriptGraph(c), x, d.dependency);
        DesiredFromRankOn(h, run, c, i - 1, d.dependency);
        assert AllSettled(h, run[i - 1], run[i], c);
      }
    }
  }

  lemma SteadyFacts(h: Hashes, run: seq<Round>, c: State, i: nat)
    requires IsSteadyRun(h, run, c) && i < |run|
    ensures SteadyRound(h, run[i], c) && Accepted(c)
    ensures forall d :: d in c.deps && d.dependency !in c.resources ==> Met(d, run[i].req.observed)
    ensures forall x :: x in c.resources ==> OnlyFromScript(h, run[i], x)
  {
  }

  lemma ScriptEdge(c: State, d: Pair)
    requires d in c.deps && d.dependency in c.resources
    ensures (d.dependent, d.dependency) in ScriptGraph(c)
  {
  }

  /** Before that reconcile the resource is neither desired nor observed, if the run starts with none of
      the script's resources observed. */
  lemma {:induction false} NotBeforeRank(h: Hashes, run: seq<Round>, c: State, i: nat, x: string)
    requires IsSteadyRun(h, run, c) && i < |run| && x in c.resources
    requires run[0].req.observed.Keys !! c.resources.Keys
    requires Acyclic(ScriptGraph(c)) && i < Rank(ScriptGraph(c), x)
    ensures x !in EmittedBy(h, run[i]) && x !in run[i].req.observed
    decreases i, 1
  {
    hide EmittedBy, Met, Rank, SteadyRound, OnlyFromScript, Acyclic, ScriptGraph;
    NotObservedBeforeRank(h, run, c, i, x);
    SteadyFacts(h, run, c, i);
    SteadyEmits(h, run[i], c, x);
    var d := LongestDependency(c, x);
    NotObservedBeforeRank(h, run, c, i, d.dependency);
    UnobservedIsUnmet(d, run[i].req.observed);
  }

  lemma {:induction false} NotObservedBeforeRank(h: Hashes, run: seq<Round>, c: State, i: nat, x: string)
    requires IsSteadyRun(h, run, c) && i < |run| && x in c.resources
    requires run[0].req.observed.Keys !! c.resources.Keys
    requires Acyclic(ScriptGraph(c)) && i <= Rank(ScriptGraph(c), x)
    ensures x !in run[i].req.observed
    decreases i, 0
  {
    hide EmittedBy, Met, Rank, SteadyRound, OnlyFromScript, Acyclic, ScriptGraph, Rsp;
    if i > 0 {
      NotBeforeRank(h, run, c, i - 1, x);
      SteadyFacts(h, run, c, i - 1);
      DesiredFromScript(h, run[i - 1], x);
      assert NextRound(h, run[i - 1], run[i]);
    }
  }

  lemma UnobservedIsUnmet(d: Pair, observed: Observed)
    requires d.dependency !in observed
    ensures !Met(d, observed)
  {
  }

  /** The dependency that starts the longest chain of `x`. */
  lemma LongestDependency(c: State, x: string) returns (d: Pair)
    requires Acyclic(ScriptGraph(c)) && Rank(ScriptGraph(c), x) > 0
    ensures d in c.deps && d.dependent == x && d.dependency in c.resources
    ensures Rank(ScriptGraph(c), d.dependency) + 1 == Rank(ScriptGraph(c), x)
  {
    var g, n := ScriptGraph(c), Rank(ScriptGraph(c), x);
    assert HasChain(g, x, n);
    var p :| IsWalk(g, p) && |p| == n + 1 && p[0] == x;
    assert (p[0], p[1]) in g;
    d :| d in c.deps && d.dependency in c.resources && d.dependent == p[0] && d.dependency == p[1];
    RankStep(g, x, p[1]);
    assert IsWalk(g, p[1..]) && |p[1..]| == n - 1 + 1 && p[1..][0] == p[1];
    assert HasChain(g, p[1], n - 1);
  }

  /** The exact schedule: in every steady, prompt run that starts with none of the script's resources
      observed, a resource is in the desired state of reconcile `i` if and only if `i` has reached
      the length of its longest dependency chain. */
  lemma ConvergesExactlyAtRank(h: Hashes, run: seq<Round>, c: State, i: nat, x: string)
    requires IsSteadyRun(h, run, c) && IsPrompt(h, run, c) && i < |run| && x in c.resources
    requires run[0].req.observed.Keys !! c.resources.Keys
    ensures Acyclic(ScriptGraph(c))
    ensures x in Rsp(h, run[i]).desired <==> i >= Rank(ScriptGraph(c), x)
  {
    hide EmittedBy, Rank, SteadyRound, OnlyFromScript, Acyclic, ScriptGraph, Rsp;
    ScriptGraphAcyclic(c);
    SteadyFacts(h, run, c, i);
    DesiredFromScript(h, run[i], x);
    if i >= Rank(ScriptGraph(c), x) {
      DesiredFromRankOn(h, run, c, i, x);
    } else {
      NotBeforeRank(h, run, c, i, x);
    }
  }

  lemma RankBound(c: State, x: string)
    requires Coherent(c, {}) && Acyclic(ScriptGraph(c)) && x in c.resources
    ensures Rank(ScriptGraph(c), x) <= |c.resources|
  {
    var g := ScriptGraph(c);
    ChainBound(g, x, Rank(g, x));
    assert Nodes(g) <= c.resources.Keys;
    Fits(Nodes(g), c.resources.Keys);
  }

  lemma Fits(a: set<string>, b: set<string>)
    requires a <= b
    ensures |a| <= |b|
  {
    assert a + (b - a) == b;
  }

  /** After as many reconciles as the script has resources, everything is desired, and unless a skip
      gates it the composite is reported as having all its resources ready. */
  lemma ConvergesInTheEnd(h: Hashes, run: seq<Round>, c: State, i: nat)
    requires IsSteadyRun(h, run, c) && IsPrompt(h, run, c) && |c.resources| <= i < |run|
    ensures Withheld(c.deps, run[i].req.observed) == {}
    ensures c.resources.Keys <= Rsp(h, run[i]).desired.Keys
    ensures c.deps != [] && c.gatingSkips == [] && c.override.None? ==>
              AllReadyCondition(true) in Rsp(h, run[i]).conditions
  {
    hide Rank, OnlyFromScript, Acyclic, ScriptGraph, AllUsages, Met;
    ScriptGraphAcyclic(c);
    SteadyFacts(h, run, c, i);
    forall x | x in c.resources
      ensures x in EmittedBy(h, run[i])
    {
      RankBound(c, x);
      DesiredFromRankOn(h, run, c, i, x);
    }
    NothingWithheld(h, run[i], c);
  }

  lemma NothingWithheld(h: Hashes, r: Round, c: State)
    requires SteadyRound(h, r, c) && Coherent(c, {}) && Accepted(c) && c.resources.Keys <= EmittedBy(h, r)
    ensures Withheld(c.deps, r.req.observed) == {}
    ensures c.resources.Keys <= Rsp(h, r).desired.Keys
    ensures c.deps != [] && c.gatingSkips == [] && c.override.None? ==>
              AllReadyCondition(true) in Rsp(h, r).conditions
  {
    hide Acyclic, AllUsages, Met, OnlyFromScript;
    var withheld := Withheld(c.deps, r.req.observed);
    assert withheld <= c.resources.Keys;
    if c.deps != [] && c.gatingSkips == [] && c.override.None? {
      assert withheld == {};
      var conds := c.conditions + [AllReadyCondition(true)];
      assert Rsp(h, r).conditions == Reported(conds);
      assert Reported(conds)[|conds| - 1] == conds[|conds| - 1];
    }
  }

  // ---------------------------------------------------------------- such runs exist

  function ConditionValue(condType: string): Value {
    Struct(map["type" := Str(condType), "status" := Str("True")])
  }

  /** A body that is ready and synced. */
  function ReadyBody(): Fields {
    map["status" := Struct(map["conditions" := List([ConditionValue("Ready"), ConditionValue("Synced")])])]
  }

  ghost predicate AllReady(observed: Observed) {
    forall x :: x in observed ==> observed[x] == Some(ReadyBody())
  }

  lemma ReadyBodyIsReady()
    ensures IsObservedReady(Some(ReadyBody()))
  {
    var f, ready, synced := ReadyBody(), ConditionValue("Ready"), ConditionValue("Synced");
    assert Field(f, "apiVersion") == Nil && !IsKubernetesObject(f);
    assert Conditions(f) == [ready, synced];
    assert ready in Conditions(f) && synced in Conditions(f);
    assert TypeOf(ready) == "Ready" && StatusOf(ready) == "True";
    assert TypeOf(synced) == "Synced" && StatusOf(synced) == "True";
    assert HasCondition(f, "Ready", "True") && HasCondition(f, "Synced", "True");
  }

  function RoundOn(c: State, observed: Observed): Round {
    Round(Request(map[], Unspecified, observed, V2, None, Some(10), None, false, true, true), c)
  }

  /** An environment that creates everything emitted, ready, before the next reconcile. */
  ghost function PromptRun(h: Hashes, c: State, n: nat): (run: seq<Round>)
    ensures |run| == n + 1
  {
    if n == 0 then [RoundOn(c, map[])]
    else
      var before := PromptRun(h, c, n - 1);
      before + [RoundOn(c, AfterRound(h, before[n - 1]))]
  }

  ghost function AfterRound(h: Hashes, r: Round): Observed {
    r.req.observed + map x | x in EmittedBy(h, r) :: Some(ReadyBody())
  }

  /** The script depends on its own resources only, as wholes, and has no resource under the name of one of
      its Usages. */
  ghost predicate SelfContained(h: Hashes, c: State) {
    && Coherent(c, {}) && Accepted(c)
    && (forall d :: d in c.deps ==> d.dependency in c.resources && d.fieldPath == "")
    && (forall d :: d in c.deps ==> NameOf(h, d) !in c.resources)
  }

  lemma RoundOnIsSteady(h: Hashes, c: State, observed: Observed)
    requires SelfContained(h, c)
    ensures SteadyRound(h, RoundOn(c, observed), c)
  {
    hide Coherent, Accepted, UsageOf, AllUsages;
    var r := RoundOn(c, observed);
    forall x | x in c.resources
      ensures OnlyFromScript(h, r, x)
    {
      UsageComesFromPair(h, r.req.api, c.deps, Bodies(c.resources), observed, x);
    }
  }

  lemma PromptStep(h: Hashes, c: State, observed: Observed)
    requires SelfContained(h, c) && AllReady(observed)
    ensures var r := RoundOn(c, observed);
            var next := RoundOn(c, AfterRound(h, r));
            AllReady(next.req.observed) && NextRound(h, r, next) && AllSettled(h, r, next, c)
  {
    hide Coherent, Accepted, ReadyBody, EmittedBy, Respond, UnmetReady, OnlyFromScript;
    var r := RoundOn(c, observed);
    var next := RoundOn(c, AfterRound(h, r));
    RoundOnIsSteady(h, c, observed);
    ReadyBodyIsReady();
    forall x | x in EmittedBy(h, r)
      ensures x in Rsp(h, r).desired && Settled(next, c, x)
    {
      EmittedIsCollected(h, r, x);
      DesiredFromScript(h, r, x);
    }
  }

  lemma EmittedIsCollected(h: Hashes, r: Round, x: string)
    requires x in EmittedBy(h, r)
    ensures x in r.script.resources
  {
  }

  /** The premises of the schedule can be met: every self-contained script has steady, prompt runs of
      every length that start with nothing observed. */
  lemma {:induction false} PromptRunsExist(h: Hashes, c: State, n: nat)
    requires SelfContained(h, c)
    ensures var run := PromptRun(h, c, n);
            && IsSteadyRun(h, run, c) && IsPrompt(h, run, c)
            && run[0].req.observed == map[] && AllReady(run[n].req.observed)
            && run[n] == RoundOn(c, run[n].req.observed)
  {
    hide Coherent, Accepted, SteadyRound, NextRound, AllSettled, EmittedBy, ReadyBody;
    if n == 0 {
      RoundOnIsSteady(h, c, map[]);
    } else {
      PromptRunsExist(h, c, n - 1);
      var before := PromptRun(h, c, n - 1);
      var observed := before[n - 1].req.observed;
      PromptStep(h, c, observed);
      RoundOnIsSteady(h, c, AfterRound(h, before[n - 1]));
      var run := PromptRun(h, c, n);
      assert forall k :: 0 <= k < n ==> run[k] == before[k];
    }
  }

  // ---------------------------------------------------------------- starvation

  /** A round of sequencing on its own: what is observed, collected and declared, and what else may
      appear. */
  datatype Sequenced = Sequenced(observed: Observed, collected: set<string>, deps: seq<Pair>, others: set<string>)

  function Released(r: Sequenced): set<string> {
    r.collected - Withheld(r.deps, r.observed)
  }

  ghost predicate IsSequencedRun(run: seq<Sequenced>) {
    forall i :: 0 < i < |run| ==> run[i].observed.Keys <= run[i - 1].observed.Keys + Released(run[i - 1]) + run[i - 1].others
  }

  /** Without validation, a set of unobserved resources each of which depends on another in the set is
      never released, on any run. By `Graphs.CyclicIffStarvingSet` such a set exists exactly when the
      dependency graph has a cycle, which is exactly what validation rejects. */
  lemma {:induction false} StarvingSetIsNeverReleased(run: seq<Sequenced>, s: set<string>, i: nat)
    requires IsSequencedRun(run) && i < |run| && s !! run[0].observed.Keys
    requires forall j :: 0 <= j < |run| ==> s !! run[j].others && EachHasSuccessorIn(EdgesOf(run[j].deps), s)
    ensures s !! run[i].observed.Keys && s !! Released(run[i])
  {
    hide Met;
    if i > 0 {
      StarvingSetIsNeverReleased(run, s, i - 1);
    }
    var r := run[i];
    forall x | x in s
      ensures x !in Released(r)
    {
      assert HasSuccessorIn(EdgesOf(r.deps), s, x);
      var y :| (x, y) in EdgesOf(r.deps) && y in s;
      var d :| d in r.deps && d.dependent == x && d.dependency == y;
      UnobservedIsUnmet(d, r.observed);
      assert x in Withheld(r.deps, r.observed);
    }
  }

  // ---------------------------------------------------------------- the gating condition

  function CountGating(conds: seq<Condition>): nat {
    if conds == [] then 0
    else CountGating(conds[..|conds| - 1]) + if conds[|conds| - 1].condType == COMPOSITE_READY then 1 else 0
  }

  lemma {:induction false} CountNone(conds: seq<Condition>)
    requires forall k :: k in conds ==> k.condType != COMPOSITE_READY
    ensures CountGating(Reported(conds)) == 0
  {
    if conds != [] {
      var n := |conds| - 1;
      CountNone(conds[..n]);
      assert Reported(conds)[..n] == Reported(conds[..n]);
      assert conds[n] in conds;
    }
  }

  /** Every response carries at most one gating condition. */
  lemma AtMostOneGatingCondition(h: Hashes, r: Round)
    requires Coherent(r.script, {})
    ensures CountGating(Rsp(h, r).conditions) <= 1
  {
    hide AllUsages, Withheld, Acyclic, AllTargetsExist;
    var c := r.script;
    if Rsp(h, r).fatal.None? {
      CountNone(c.conditions);
      var gating := CompositeReady(r.req, c.override, BlockersOf(r.req, c)).1;
      if gating.Some? {
        assert Reported(c.conditions + [gating.value])[..|c.conditions|] == Reported(c.conditions);
      }
    }
  }

  /** A completed round reports the conditions of the script in order, any status other than True and False
      as Unknown and any other target as the composite, followed by at most one gating condition. */
  lemma ReportsScriptConditions(h: Hashes, r: Round)
    requires Rsp(h, r).fatal.None?
    ensures var given, reported := r.script.conditions, Rsp(h, r).conditions;
            && |given| <= |reported| <= |given| + 1
            && forall i :: 0 <= i < |given| ==>
                 && reported[i].condType == given[i].condType && reported[i].reason == given[i].reason
                 && reported[i].message == given[i].message
                 && reported[i].status == (if given[i].status in {"True", "False"} then given[i].status else "Unknown")
                 && reported[i].target == (if given[i].target == "CompositeAndClaim" then "CompositeAndClaim" else "Composite")
  {
    hide AllUsages, Withheld, DefersOf, Acyclic, AllTargetsExist, CompositeReady, TtlOf;
    var c := r.script;
    var gating := CompositeReady(r.req, c.override, BlockersOf(r.req, c)).1;
    var conds := if gating.Some? then c.conditions + [gating.value] else c.conditions;
    assert Rsp(h, r).conditions == Reported(conds);
  }

  /** The gating condition that a completed round reports, by what the script said and what blocks it. */
  ghost function GatingDue(r: Round): Option<Condition> {
    var skips, waiting := r.script.gatingSkips, Withheld(r.script.deps, r.req.observed) != {};
    match r.script.override
    case Some(o) =>
      if o.reason == "" then None
      else Some(Condition("ComposedResourcesReady", if o.ready then "True" else "False", o.reason, Words(o.message), "CompositeAndClaim"))
    case None =>
      if skips != [] || waiting then
        var reason :=
          if skips == [] then "WaitingForDependencies" else if waiting then "CompositeNotReady" else "PendingConditionalResources";
        Some(Condition("ComposedResourcesReady", "False", reason, Blocked(skips, DefersOf(r.script.deps, r.req.observed)), "CompositeAndClaim"))
      else if r.script.deps != [] then
        Some(Condition("ComposedResourcesReady", "True", "AllReady", Words("All sequenced dependencies are ready"), "CompositeAndClaim"))
      else if r.req.hasGating then
        Some(Condition("ComposedResourcesReady", "True", "AllReady", Words("No composition readiness blockers remain"), "CompositeAndClaim"))
      else None
  }

  /** A failed round reports no conditions, and readiness only if it failed on the context alone; before the
      sequencing TTL is known it desires what it got, with the Usages if they were built, and has the
      default TTL. */
  lemma FailedExactly(h: Hashes, r: Round)
    requires Rsp(h, r).fatal.Some?
    ensures Rsp(h, r).conditions == []
    ensures Rsp(h, r).fatal != Some(UnusableContext) ==> Rsp(h, r).compositeReady == r.req.priorReady
    ensures !Applied(h, r) ==> Rsp(h, r).ttl == r.req.defaultTtl
    ensures Rsp(h, r).fatal == Some(InvalidDependencies) ==> Rsp(h, r).desired == r.req.prior
  {
  }

  /** That condition is reported last, and the composite is as ready as the script says or the blockers
      allow, also when the context cannot be converted. */
  lemma GatingExactly(h: Hashes, r: Round)
    requires Rsp(h, r).fatal.None? || Rsp(h, r).fatal == Some(UnusableContext)
    ensures Rsp(h, r).fatal.None? ==>
            var n, reported := |r.script.conditions|, Rsp(h, r).conditions;
            match GatingDue(r)
            case None => |reported| == n
            case Some(due) => |reported| == n + 1 && reported[n] == due
    ensures Rsp(h, r).compositeReady ==
              match r.script.override
              case Some(o) => if o.ready then ReadyTrue else ReadyFalse
              case None => if IsBlocked(r) then ReadyFalse else r.req.priorReady
  {
    hide AllUsages, Withheld, DefersOf, Acyclic, AllTargetsExist, TtlOf;
    var c := r.script;
    NothingDeferred(c.deps, r.req.observed);
    var gating := CompositeReady(r.req, c.override, BlockersOf(r.req, c)).1;
    var conds := if gating.Some? then c.conditions + [gating.value] else c.conditions;
    assert gating == GatingDue(r);
    assert Rsp(h, r).fatal.None? ==> Rsp(h, r).conditions == Reported(conds);
    if gating.Some? {
      assert Reported(conds)[|c.conditions|] == ReportedCondition(gating.value);
    }
  }

  /** The status of the gating condition that a response reports, if it reports one. */
  ghost function GatingStatus(h: Hashes, r: Round): Option<string> {
    var conds := Rsp(h, r).conditions;
    if conds != [] && conds[|conds| - 1].condType == COMPOSITE_READY then Some(conds[|conds| - 1].status) else None
  }

  /** Completed reconciles of one composite without set_composite_ready: the persisted status of the
      gating condition is the last one reported, and the next request shows whether there is one. */
  ghost predicate IsCompositeRun(h: Hashes, run: seq<Round>, status: seq<Option<string>>) {
    && |status| == |run| + 1
    && (forall i :: 0 <= i < |run| ==> CompletedRound(h, run[i], status[i]))
    && (forall i :: 0 <= i < |run| ==>
          status[i + 1] == if GatingStatus(h, run[i]).Some? then GatingStatus(h, run[i]) else status[i])
  }

  ghost predicate CompletedRound(h: Hashes, r: Round, status: Option<string>) {
    && Coherent(r.script, {})
    && r.script.override.None?
    && Rsp(h, r).fatal.None?
    && r.req.hasGating == status.Some?
  }

  ghost predicate IsBlocked(r: Round) {
    r.script.gatingSkips != [] || Withheld(r.script.deps, r.req.observed) != {}
  }

  lemma GatingFollowsBlockers(h: Hashes, r: Round, status: Option<string>)
    requires CompletedRound(h, r, status)
    ensures IsBlocked(r) ==> GatingStatus(h, r) == Some("False")
    ensures !IsBlocked(r) ==> GatingStatus(h, r) in {None, Some("True")} && (status.Some? ==> GatingStatus(h, r).Some?)
    ensures Rsp(h, r).compositeReady == if IsBlocked(r) then ReadyFalse else r.req.priorReady
  {
    hide AllUsages, Withheld, DefersOf, Acyclic, AllTargetsExist;
    var c := r.script;
    NothingDeferred(c.deps, r.req.observed);
    var gating := CompositeReady(r.req, c.override, BlockersOf(r.req, c)).1;
    var conds := if gating.Some? then c.conditions + [gating.value] else c.conditions;
    assert Rsp(h, r).conditions == Reported(conds);
    if gating.None? && conds != [] {
      assert conds[|conds| - 1] in c.conditions;
    }
  }

  /** The list names exactly the withheld resources, each with exactly its unmet dependencies and why
      they are unmet. */
  ghost predicate Explains(defers: seq<GatingDefer>, r: Round) {
    && (forall n :: n in Withheld(r.script.deps, r.req.observed) <==> exists g :: g in defers && g.name == n)
    && (forall g, w :: g in defers ==> (w in g.waits <==> IsUnmetFor(r, g.name, w)))
  }

  ghost predicate IsUnmetFor(r: Round, name: string, w: Wait) {
    exists d :: d in r.script.deps && d.dependent == name && d.dependency == w.dependency
                && UnmetReason(d, r.req.observed) == Some(w.why)
  }

  lemma DefersExplain(r: Round)
    ensures Explains(DefersOf(r.script.deps, r.req.observed), r)
  {
    hide Withheld, WaitsOf, UnmetReason;
    var withheld, defers := Withheld(r.script.deps, r.req.observed), DefersOf(r.script.deps, r.req.observed);
    var names := Names.Sorted(withheld);
    forall n
      ensures n in withheld <==> exists g :: g in defers && g.name == n
    {
      if n in withheld {
        assert n in names;
        var i :| 0 <= i < |names| && names[i] == n;
        assert defers[i] in defers && defers[i].name == n;
      }
      if g :| g in defers && g.name == n {
        var i :| 0 <= i < |names| && defers[i] == g;
        assert names[i] in names;
      }
    }
    forall g, w | g in defers
      ensures w in g.waits <==> IsUnmetFor(r, g.name, w)
    {
      var i :| 0 <= i < |names| && defers[i] == g;
      WaitsAreUnmet(r.script.deps, r.req.observed, g.name, w);
    }
  }

  /** A blocked reconcile explains itself: its last condition lists the gating skips, every withheld
      resource with each of its unmet dependencies, and nothing else. */
  lemma BlockersAreExplained(h: Hashes, r: Round, status: Option<string>)
    requires CompletedRound(h, r, status) && IsBlocked(r)
    ensures var conds := Rsp(h, r).conditions;
            && conds != [] && conds[|conds| - 1].condType == COMPOSITE_READY
            && conds[|conds| - 1].message.Blocked?
            && conds[|conds| - 1].message.skips == r.script.gatingSkips
            && Explains(conds[|conds| - 1].message.defers, r)
  {
    hide AllUsages, Withheld, DefersOf, Acyclic, AllTargetsExist, Explains;
    NothingDeferred(r.script.deps, r.req.observed);
    DefersExplain(r);
  }

  /** After every completed reconcile, the persisted status, once present, is True exactly when that
      reconcile had no gating skip and no deferral, and False otherwise. */
  lemma PersistedStatusIsCurrent(h: Hashes, run: seq<Round>, status: seq<Option<string>>, i: nat)
    requires IsCompositeRun(h, run, status) && i < |run|
    ensures status[i + 1].Some? ==> status[i + 1].value == if IsBlocked(run[i]) then "False" else "True"
  {
    hide GatingStatus, IsBlocked;
    assert CompletedRound(h, run[i], status[i]);
    GatingFollowsBlockers(h, run[i], status[i]);
  }
}
