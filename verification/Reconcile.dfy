/**
 One reconcile after the script has run: validation, Usages, sequencing, the desired state and the
 composite's readiness (fn.go, builtins/builtins.go).
 */
module Reconcile {
  import opened Wrappers
  import opened Proto
  import opened Graphs
  import opened Dependencies
  import opened Sequencer
  import opened Usages
  import opened Collector
  import Names

  datatype Desired = Desired(body: Fields, ready: Ready, connection: map<string, string>)

  datatype Fatal = InvalidDependencies | InvalidSequencingTtl | UnusableDxr | UnusableContext

  /** The request: what earlier pipeline steps desire, what is observed, and the settings. The
      sequencing TTL is None when it does not parse; `hasGating` says that the composite already
      carries the gating condition; the last two say whether the script left a dxr and a context that
      convert back to protobuf. */
  datatype Request = Request(
    prior: map<string, Desired>, priorReady: Ready, observed: Observed, api: Api,
    defaultTtl: Option<int>, sequencingTtl: Option<int>, userTtl: Option<int>, hasGating: bool,
    dxrConverts: bool, contextConverts: bool)

  datatype Response = Response(
    fatal: Option<Fatal>, desired: map<string, Desired>, compositeReady: Ready,
    conditions: seq<Condition>, ttl: Option<int>)

  // ---------------------------------------------------------------- the parts of a reconcile

  ghost predicate Accepted(c: State) {
    AllTargetsExist(c.deps, c.resources.Keys) && Acyclic(EdgesOf(c.deps))
  }

  function Bodies(resources: map<string, Collected>): map<string, Fields> {
    map n | n in resources :: resources[n].body
  }

  function UsagesOf(h: Hashes, req: Request, c: State): map<string, Fields> {
    AllUsages(h, req.api, c.deps, Bodies(c.resources), req.observed)
  }

  function AsDesired(resources: map<string, Collected>): map<string, Desired> {
    map n | n in resources :: Desired(resources[n].body, resources[n].ready, resources[n].connection)
  }

  function ReadyUsages(usages: map<string, Fields>): map<string, Desired> {
    map n | n in usages :: Desired(usages[n], ReadyTrue, map[])
  }

  /** What blocks the composite from being ready. */
  datatype Blockers = Blockers(skips: seq<GatingSkip>, defers: seq<GatingDefer>, converged: bool)

  ghost function BlockersOf(req: Request, c: State): Blockers {
    Blockers(c.gatingSkips, DefersOf(c.deps, req.observed), c.deps != [] && Withheld(c.deps, req.observed) == {})
  }

  function GatingReason(b: Blockers): string {
    if b.skips != [] && b.defers != [] then "CompositeNotReady"
    else if b.skips != [] then "PendingConditionalResources"
    else "WaitingForDependencies"
  }

  function Gating(status: string, reason: string, message: Message): Condition {
    Condition(COMPOSITE_READY, status, reason, message, COMPOSITE_AND_CLAIM)
  }

  function AllReadyCondition(converged: bool): Condition {
    Gating("True", "AllReady",
           Words(if converged then "All sequenced dependencies are ready" else "No composition readiness blockers remain"))
  }

  /** The composite's readiness and the gating condition, if one is reported. */
  function CompositeReady(req: Request, override: Option<Override>, b: Blockers): (Ready, Option<Condition>) {
    if override.Some? then
      var o := override.value;
      (if o.ready then ReadyTrue else ReadyFalse,
       if o.reason == "" then None
       else Some(Gating(if o.ready then "True" else "False", o.reason, Words(o.message))))
    else if b.skips == [] && b.defers == [] then
      (req.priorReady, if b.converged || req.hasGating then Some(AllReadyCondition(b.converged)) else None)
    else (ReadyFalse, Some(Gating("False", GatingReason(b), Blocked(b.skips, b.defers))))
  }

  /** A condition as reported: any other status is unknown, any other target the composite alone. */
  function ReportedCondition(c: Condition): Condition {
    c.(status := if c.status in {"True", "False"} then c.status else "Unknown",
       target := if c.target == COMPOSITE_AND_CLAIM then c.target else "Composite")
  }

  function Reported(conds: seq<Condition>): seq<Condition> {
    seq(|conds|, i requires 0 <= i < |conds| => ReportedCondition(conds[i]))
  }

  function TtlOf(req: Request, c: State): Option<int> {
    var sequenced :=
      if c.deps == [] then req.defaultTtl
      else if Withheld(c.deps, req.observed) != {} then req.sequencingTtl
      else None;
    if req.userTtl.None? then sequenced
    else if req.userTtl.value == 0 then None
    else req.userTtl
  }

  /** The response to a request whose script collected `c`. */
  ghost function Respond(h: Hashes, req: Request, c: State): Response {
    if c.deps != [] && !Accepted(c) then
      Response(Some(InvalidDependencies), req.prior, req.priorReady, [], req.defaultTtl)
    else
      var withUsages := req.prior + ReadyUsages(UsagesOf(h, req, c));
      if c.deps != [] && req.sequencingTtl.None? then
        Response(Some(InvalidSequencingTtl), withUsages, req.priorReady, [], req.defaultTtl)
      else
        var desired := withUsages + AsDesired(c.resources - Withheld(c.deps, req.observed));
        var (ready, gating) := CompositeReady(req, c.override, BlockersOf(req, c));
        var conds := if gating.Some? then c.conditions + [gating.value] else c.conditions;
        if !req.dxrConverts then Response(Some(UnusableDxr), desired, req.priorReady, [], TtlOf(req, c))
        else if !req.contextConverts then Response(Some(UnusableContext), desired, ready, [], TtlOf(req, c))
        else Response(None, desired, ready, Reported(conds), TtlOf(req, c))
  }

  // ---------------------------------------------------------------- the imperative form

  lemma PutNext(base: map<string, Desired>, all: map<string, Desired>, todo: set<string>, n: string)
    requires n in todo && n in all
    ensures (base + (all - todo))[n := all[n]] == base + (all - (todo - {n}))
  {
  }

  class ResponseBuilder {
    var fatal: Option<Fatal>
    var desired: map<string, Desired>
    var compositeReady: Ready
    var conditions: seq<Condition>
    var ttl: Option<int>

    constructor (req: Request)
      ensures Value() == Response(None, req.prior, req.priorReady, [], req.defaultTtl)
    {
      fatal, desired, compositeReady, conditions, ttl := None, req.prior, req.priorReady, [], req.defaultTtl;
    }

    function Value(): Response
      reads this
    {
      Response(fatal, desired, compositeReady, conditions, ttl)
    }

    /** Puts the collected resources over the desired state, one by one in arbitrary order. */
    method ApplyResources(resources: map<string, Collected>)
      modifies `desired
      ensures desired.Keys == old(desired).Keys + resources.Keys
      ensures forall n :: n in resources ==> && desired[n].body == resources[n].body && desired[n].ready == resources[n].ready
                                             && desired[n].connection == resources[n].connection
      ensures forall n :: n in old(desired) && n !in resources ==> desired[n] == old(desired)[n]
      ensures desired == old(desired) + AsDesired(resources)
    {
      ghost var all := AsDesired(resources);
      var todo := resources.Keys;
      assert old(desired) + (all - todo) == old(desired);
      while todo != {}
        invariant todo <= resources.Keys
        invariant desired == old(desired) + (all - todo)
        decreases todo
      {
        var n :| n in todo;
        PutNext(old(desired), all, todo, n);
        desired := desired[n := Desired(resources[n].body, resources[n].ready, resources[n].connection)];
        todo := todo - {n};
      }
      assert all - {} == all;
    }

    method ApplyUsages(usages: map<string, Fields>)
      modifies `desired
      ensures desired.Keys == old(desired).Keys + usages.Keys
      ensures forall n :: n in usages ==> && desired[n].body == usages[n] && desired[n].ready == ReadyTrue
                                          && desired[n].connection == map[]
      ensures forall n :: n in old(desired) && n !in usages ==> desired[n] == old(desired)[n]
      ensures desired == old(desired) + ReadyUsages(usages)
    {
      ghost var all := ReadyUsages(usages);
      var todo := usages.Keys;
      assert old(desired) + (all - todo) == old(desired);
      while todo != {}
        invariant todo <= usages.Keys
        invariant desired == old(desired) + (all - todo)
        decreases todo
      {
        var n :| n in todo;
        PutNext(old(desired), all, todo, n);
        desired := desired[n := Desired(usages[n], ReadyTrue, map[])];
        todo := todo - {n};
      }
      assert all - {} == all;
    }

    /** Decides the composite's readiness; a gating condition joins the collected ones. */
    method ApplyCompositeReady(req: Request, collector: ScriptCollector)
      requires compositeReady == req.priorReady
      modifies `compositeReady, collector`conditions
      ensures var c := old(collector.Value());
              var b := Blockers(c.gatingSkips, collector.gatingDefers, collector.depsConverged);
              var (ready, gating) := CompositeReady(req, c.override, b);
              && compositeReady == ready
              && collector.conditions == if gating.Some? then c.conditions + [gating.value] else c.conditions
    {
      var skips, defers := collector.gatingSkips, collector.gatingDefers;
      if collector.override.None? && skips == [] && defers == [] {
        if collector.depsConverged || req.hasGating {
          collector.conditions := collector.conditions + [AllReadyCondition(collector.depsConverged)];
        }
        return;
      }
      if collector.override.Some? {
        var o := collector.override.value;
        compositeReady := if o.ready then ReadyTrue else ReadyFalse;
        if o.reason != "" {
          var status := if o.ready then "True" else "False";
          collector.conditions := collector.conditions + [Gating(status, o.reason, Words(o.message))];
        }
        return;
      }
      compositeReady := ReadyFalse;
      var reason := GatingReason(Blockers(skips, defers, collector.depsConverged));
      collector.conditions := collector.conditions + [Gating("False", reason, Blocked(skips, defers))];
    }

    /** Reports one condition. */
    method ApplyCondition(c: Condition)
      modifies `conditions
      ensures conditions == old(conditions) + [ReportedCondition(c)]
    {
      var status := if c.status == "True" || c.status == "False" then c.status else "Unknown";
      var target := if c.target == COMPOSITE_AND_CLAIM then COMPOSITE_AND_CLAIM else "Composite";
      conditions := conditions + [Condition(c.condType, status, c.reason, c.message, target)];
    }

    method ApplyConditions(conds: seq<Condition>)
      modifies `conditions
      ensures conditions == old(conditions) + Reported(conds)
    {
      hide ReportedCondition;
      ghost var all := Reported(conds);
      var i := 0;
      while i < |conds|
        invariant 0 <= i <= |conds|
        invariant conditions == old(conditions) + all[..i]
      {
        assert all[..i + 1] == all[..i] + [ReportedCondition(conds[i])];
        ApplyCondition(conds[i]);
        i := i + 1;
      }
    }
  }

  /** Sequencing: removes the withheld resources, or marks convergence, and sets the TTL. */
  method Sequence(req: Request, collector: ScriptCollector, rsp: ResponseBuilder)
    requires collector.gatingDefers == [] && !collector.depsConverged && collector.dependencies != []
    modifies collector`resources, collector`gatingDefers, collector`depsConverged, rsp`ttl
    ensures var withheld := Withheld(collector.dependencies, req.observed);
            && collector.resources == old(collector.resources) - withheld
            && collector.gatingDefers == DefersOf(collector.dependencies, req.observed)
            && collector.depsConverged == (withheld == {})
            && rsp.ttl == if withheld != {} then req.sequencingTtl else None
  {
    hide Met;
    var result := Evaluate(collector.dependencies, req.observed);
    ghost var withheld := Withheld(collector.dependencies, req.observed);
    assert withheld == set n | n in result.deferred;
    if result.anyDeferred {
      collector.RemoveResources(result.deferred);
      rsp.ttl := req.sequencingTtl;
      collector.gatingDefers := collector.gatingDefers + result.gatingDefers;
    } else {
      NothingDeferred(collector.dependencies, req.observed);
      assert old(collector.resources) - {} == old(collector.resources);
      rsp.ttl := None;
      collector.depsConverged := true;
    }
  }

  lemma NothingDeferred(deps: seq<Pair>, observed: Observed)
    ensures DefersOf(deps, observed) == [] <==> Withheld(deps, observed) == {}
  {
    hide Withheld;
    var withheld := Withheld(deps, observed);
    var names := Names.Sorted(withheld);
    if n :| n in withheld {
      assert n in names;
    }
    if names != [] {
      assert names[0] in names;
    }
  }

  /** The part of RunFunction after the script has run, with its early returns. */
  method RunPostExecution(h: Hashes, req: Request, collector: ScriptCollector) returns (rsp: ResponseBuilder)
    requires collector.gatingDefers == [] && !collector.depsConverged
    modifies collector`resources, collector`gatingDefers, collector`depsConverged, collector`conditions
    ensures fresh(rsp) && rsp.Value() == Respond(h, req, old(collector.Value()))
  {
    hide Withheld, DefersOf, AllUsages, CompositeReady, Reported, AllTargetsExist, Acyclic;
    ghost var c := collector.Value();
    rsp := new ResponseBuilder(req);
    if collector.dependencies != [] {
      var err := ValidateDependencies(collector.dependencies, collector.resources.Keys);
      if err.Some? {
        rsp.fatal := Some(InvalidDependencies);
        return;
      }
      var usages := BuildUsageResources(h, collector.dependencies, req.api, Bodies(collector.resources), req.observed);
      rsp.ApplyUsages(usages);
      if req.sequencingTtl.None? {
        rsp.fatal := Some(InvalidSequencingTtl);
        return;
      }
      Sequence(req, collector, rsp);
    } else {
      NothingDeclared(h, req, c);
    }
    if req.userTtl.Some? {
      rsp.ttl := if req.userTtl.value == 0 then None else req.userTtl;
    }
    Apply(req, collector, rsp);
  }

  /** What is applied to the response at the end, up to the first failure. */
  method Apply(req: Request, collector: ScriptCollector, rsp: ResponseBuilder)
    requires rsp.fatal == None && rsp.conditions == [] && rsp.compositeReady == req.priorReady
    modifies rsp, collector`conditions
    ensures rsp.desired == old(rsp.desired) + AsDesired(collector.resources) && rsp.ttl == old(rsp.ttl)
    ensures var c := old(collector.Value());
            var b := Blockers(c.gatingSkips, collector.gatingDefers, collector.depsConverged);
            var (ready, gating) := CompositeReady(req, c.override, b);
            var conds := if gating.Some? then c.conditions + [gating.value] else c.conditions;
            if !req.dxrConverts then
              rsp.fatal == Some(UnusableDxr) && rsp.compositeReady == req.priorReady && rsp.conditions == []
            else if !req.contextConverts then
              rsp.fatal == Some(UnusableContext) && rsp.compositeReady == ready && rsp.conditions == []
            else rsp.fatal == None && rsp.compositeReady == ready && rsp.conditions == Reported(conds)
  {
    hide CompositeReady, Reported;
    rsp.ApplyResources(collector.resources);
    if !req.dxrConverts {
      rsp.fatal := Some(UnusableDxr);
      return;
    }
    rsp.ApplyCompositeReady(req, collector);
    if !req.contextConverts {
      rsp.fatal := Some(UnusableContext);
      return;
    }
    rsp.ApplyConditions(collector.conditions);
    assert [] + Reported(collector.conditions) == Reported(collector.conditions);
  }

  lemma NothingDeclared(h: Hashes, req: Request, c: State)
    requires c.deps == []
    ensures Withheld(c.deps, req.observed) == {} && UsagesOf(h, req, c) == map[] && DefersOf(c.deps, req.observed) == []
    ensures req.prior + ReadyUsages(UsagesOf(h, req, c)) == req.prior
    ensures c.resources - Withheld(c.deps, req.observed) == c.resources
  {
    NothingDeferred(c.deps, req.observed);
  }
}
