/**
 Usages over runs of reconciles: when they are desired, that an existing one stays desired, and that
 none changes its scope (builtins/usage.go, fn.go).
 */
module UsageRuns {
  import opened Wrappers
  import opened Proto
  import opened Graphs
  import opened Dependencies
  import opened Sequencer
  import opened Usages
  import opened Collector
  import opened Reconcile
  import opened Runs

  // ---------------------------------------------------------------- one reconcile

  /** The round came to the point where Usages are applied. */
  ghost predicate Accepts(h: Hashes, r: Round) {
    Rsp(h, r).fatal != Some(InvalidDependencies)
  }

  /** The pair makes the round emit a Usage: both sides are ready, or there is one already. */
  ghost predicate Warrants(h: Hashes, r: Round, d: Pair) {
    CallsFor(h, d, r.req.observed, h.usageName(d.dependent, d.dependency))
  }

  /** No earlier pipeline step and no resource of the script has this name. */
  ghost predicate IsFree(r: Round, name: string) {
    name !in r.req.prior && name !in r.script.resources
  }

  lemma WarrantedIff(h: Hashes, r: Round, d: Pair)
    ensures Warrants(h, r, d) <==> UsageOf(h, r.req.api, d, Bodies(r.script.resources), r.req.observed).Some?
  {
    hide UsageOf, BothReady, UsageExists, ProtectsPair;
    ContributedExactly(h, r.req.api, d, Bodies(r.script.resources), r.req.observed);
  }

  /** A Usage that protects the dependency of this pair is desired under its name, marked ready. */
  ghost predicate DesiresUsageOf(h: Hashes, r: Round, d: Pair) {
    var name := h.usageName(d.dependent, d.dependency);
    && name in Rsp(h, r).desired
    && Rsp(h, r).desired[name].ready == ReadyTrue && Rsp(h, r).desired[name].connection == map[]
    && ProtectsPair(h, r.req.api, Rsp(h, r).desired[name].body, name, d, Bodies(r.script.resources), r.req.observed)
  }

  /** What the pair contributes is desired under its name. */
  ghost predicate DesiresContribution(h: Hashes, r: Round, d: Pair) {
    var u := UsageOf(h, r.req.api, d, Bodies(r.script.resources), r.req.observed);
    u.Some? && NameOf(h, d) in Rsp(h, r).desired && Rsp(h, r).desired[NameOf(h, d)] == Desired(u.value, ReadyTrue, map[])
  }

  lemma ContributionProtects(h: Hashes, r: Round, d: Pair)
    requires DesiresContribution(h, r, d)
    ensures DesiresUsageOf(h, r, d)
  {
    hide Rsp, UsageOf, ProtectsPair, BothReady, UsageExists;
    ContributedExactly(h, r.req.api, d, Bodies(r.script.resources), r.req.observed);
  }

  /** A name that is free otherwise is desired exactly when a declared pair of that name has both sides
      ready or has a Usage already, and it is then a Usage that protects the dependency of such a pair,
      marked ready. */
  lemma UsageDesiredIff(h: Hashes, r: Round, name: string)
    requires Accepts(h, r) && IsFree(r, name)
    ensures name in Rsp(h, r).desired <==>
      exists d :: d in r.script.deps && h.usageName(d.dependent, d.dependency) == name && Warrants(h, r, d)
    ensures name in Rsp(h, r).desired ==>
      exists d :: d in r.script.deps && h.usageName(d.dependent, d.dependency) == name && DesiresUsageOf(h, r, d)
  {
    hide UsageOf, AllUsages, Warrants, Withheld, Acyclic, CompositeReady, Reported, TtlOf, ProtectsPair, DefersOf;
    UsageComesFromPair(h, r.req.api, r.script.deps, Bodies(r.script.resources), r.req.observed, name);
    forall d
      ensures Warrants(h, r, d) <==> UsageOf(h, r.req.api, d, Bodies(r.script.resources), r.req.observed).Some?
    {
      WarrantedIff(h, r, d);
    }
    if name in Rsp(h, r).desired {
      ContributionDesired(h, r, name);
      var d :| d in r.script.deps && NameOf(h, d) == name && DesiresContribution(h, r, d);
      ContributionProtects(h, r, d);
    }
  }

  lemma ContributionDesired(h: Hashes, r: Round, name: string)
    requires Accepts(h, r) && IsFree(r, name) && name in Rsp(h, r).desired
    ensures exists d :: d in r.script.deps && NameOf(h, d) == name && DesiresContribution(h, r, d)
  {
    hide UsageOf, AllUsages, Withheld, Acyclic, CompositeReady, Reported, TtlOf, DefersOf;
    UsageComesFromPair(h, r.req.api, r.script.deps, Bodies(r.script.resources), r.req.observed, name);
    assert name in UsagesOf(h, r.req, r.script);
  }

  /** Whatever earlier pipeline steps desire under its name, a pair with both sides ready or with a Usage
      already has a Usage of a declared pair of that name desired, unless the script emits a resource
      under it. */
  lemma WarrantedIsDesired(h: Hashes, r: Round, d: Pair)
    requires Accepts(h, r) && d in r.script.deps && Warrants(h, r, d)
    requires h.usageName(d.dependent, d.dependency) !in EmittedBy(h, r)
    ensures exists e :: e in r.script.deps && h.usageName(e.dependent, e.dependency) == h.usageName(d.dependent, d.dependency)
                        && DesiresUsageOf(h, r, e)
  {
    hide UsageOf, AllUsages, Withheld, Acyclic, CompositeReady, Reported, TtlOf, DefersOf, Warrants, ProtectsPair;
    var name := NameOf(h, d);
    UsageComesFromPair(h, r.req.api, r.script.deps, Bodies(r.script.resources), r.req.observed, name);
    WarrantedIff(h, r, d);
    assert Contributes(h, r.req.api, d, Bodies(r.script.resources), r.req.observed, name);
    assert name in UsagesOf(h, r.req, r.script);
    var e :| e in r.script.deps && NameOf(h, e) == name && DesiresContribution(h, r, e);
    ContributionProtects(h, r, e);
  }

  /** A Usage that exists and is still declared stays desired, ready or not, and whatever becomes of its
      two sides; only a resource of the script under the same name takes its place. */
  lemma ExistingUsageStaysDesired(h: Hashes, r: Round, d: Pair)
    requires Accepts(h, r) && d in r.script.deps
    requires UsageExists(r.req.observed, h.usageName(d.dependent, d.dependency))
    ensures var name := h.usageName(d.dependent, d.dependency);
            && name in Rsp(h, r).desired
            && if Applied(h, r) && name in r.script.resources
               then Rsp(h, r).desired[name].body == r.script.resources[name].body
               else exists e :: e in r.script.deps && h.usageName(e.dependent, e.dependency) == name && DesiresUsageOf(h, r, e)
  {
    hide AllUsages, Acyclic, CompositeReady, Reported, TtlOf, Met, DefersOf, BothReady, ProtectsPair, UsageExists;
    var name := h.usageName(d.dependent, d.dependency);
    if Applied(h, r) && name in r.script.resources {
      UsageIsObserved(r.req.observed, name);
      assert name !in Withheld(r.script.deps, r.req.observed);
      DesiredContents(h, r, name);
    } else {
      hide Rsp, Applied;
      assert Warrants(h, r, d);
      WarrantedIsDesired(h, r, d);
    }
  }

  lemma UsageIsObserved(observed: Observed, name: string)
    requires UsageExists(observed, name)
    ensures name in observed
  {
  }

  // ---------------------------------------------------------------- the first time

  lemma {:induction false} NotDesiredNotObserved(h: Hashes, run: seq<Round>, i: nat, name: string)
    requires IsRun(h, run) && i < |run| && name !in run[0].req.observed
    requires forall j :: 0 <= j < i ==> name !in Rsp(h, run[j]).desired
    ensures name !in run[i].req.observed
  {
    hide Rsp;
    if i > 0 {
      NotDesiredNotObserved(h, run, i - 1, name);
      assert NextRound(h, run[i - 1], run[i]);
    }
  }

  /** In every run, the first reconcile that desires a Usage is the first in which the two sides of a
      declared pair of that name are ready. */
  lemma FirstDesiredWhenReady(h: Hashes, run: seq<Round>, i: nat, name: string)
    requires IsRun(h, run) && i < |run| && name !in run[0].req.observed
    requires forall j :: 0 <= j < i ==> name !in Rsp(h, run[j]).desired
    requires Accepts(h, run[i]) && IsFree(run[i], name)
    ensures name in Rsp(h, run[i]).desired <==>
      exists d :: d in run[i].script.deps && h.usageName(d.dependent, d.dependency) == name && BothReady(d, run[i].req.observed)
  {
    hide Rsp, BothReady;
    NotDesiredNotObserved(h, run, i, name);
    UsageDesiredIff(h, run[i], name);
  }

  // ---------------------------------------------------------------- scopes

  ghost predicate Declared(run: seq<Round>, d: Pair) {
    exists i :: 0 <= i < |run| && d in run[i].script.deps
  }

  /** Of the pairs that a run declares, those with one Usage name have one scope; so it is in
      particular if distinct declared pairs have distinct names. */
  ghost predicate CollidersAgree(h: Hashes, api: Api, run: seq<Round>, ns: string -> string) {
    forall c, d :: Declared(run, c) && Declared(run, d) && NameOf(h, c) == NameOf(h, d) ==>
                     ScopeFor(api, c, ns) == ScopeFor(api, d, ns)
  }

  /** Between two reconciles the environment may create a desired Usage, keep, update or delete an
      existing one, and fill in other fields, but sets no scope that was not desired or there. */
  ghost predicate ScopeFollows(h: Hashes, r: Round, next: Round, name: string) {
    var before, after := AlreadyCreated(name, r.req.observed), AlreadyCreated(name, next.req.observed);
    after.Some? ==>
      || (before.Some? && ScopeOf(after.value) == ScopeOf(before.value))
      || (name in Rsp(h, r).desired && ScopeOf(after.value) == ScopeOf(Rsp(h, r).desired[name].body))
  }

  /** The name is left to Usages by scripts and pipeline, and its scope to what is desired. */
  ghost predicate LeftToUsages(h: Hashes, run: seq<Round>, name: string) {
    && (forall i :: 0 <= i < |run| ==> IsFree(run[i], name))
    && (forall i, j :: 0 <= i && j == i + 1 < |run| ==> ScopeFollows(h, run[i], run[j], name))
  }

  /** One API version, and the two sides of declared pairs keep their namespace. */
  ghost predicate FixedRound(r: Round, api: Api, ns: string -> string) {
    r.req.api == api && forall d :: d in r.script.deps ==> SidesLiveIn(r.req.observed, d, ns)
  }

  ghost predicate SidesLiveIn(observed: Observed, d: Pair, ns: string -> string) {
    LivesIn(observed, d.dependent, ns) && LivesIn(observed, d.dependency, ns)
  }

  /** Nothing is asked about names other than those of declared pairs. */
  ghost predicate IsUsageRun(h: Hashes, api: Api, run: seq<Round>, ns: string -> string) {
    && (forall i :: 0 <= i < |run| ==> FixedRound(run[i], api, ns))
    && (forall d :: Declared(run, d) ==> LeftToUsages(h, run, NameOf(h, d)))
    && (forall d :: Declared(run, d) && run != [] ==> ExistingFits(h, api, run[0].req.observed, d, ns))
  }

  /** What a round desires under the name of a pair has the scope of that pair, if existing Usages have
      theirs. */
  lemma DesiredScope(h: Hashes, api: Api, r: Round, ns: string -> string, d: Pair)
    requires FixedRound(r, api, ns) && IsFree(r, NameOf(h, d)) && NameOf(h, d) in Rsp(h, r).desired
    requires forall e :: e in r.script.deps && NameOf(h, e) == NameOf(h, d) ==>
                           ExistingFits(h, api, r.req.observed, e, ns) && ScopeFor(api, e, ns) == ScopeFor(api, d, ns)
    ensures ScopeOf(Rsp(h, r).desired[NameOf(h, d)].body) == ScopeFor(api, d, ns)
  {
    hide ScopeOf, UsageOf, ExistingFits, ScopeFor, Warrants, LivesIn;
    RefusedDesiresPrior(h, r);
    hide Rsp;
    ContributionDesired(h, r, NameOf(h, d));
    var e :| e in r.script.deps && NameOf(h, e) == NameOf(h, d) && DesiresContribution(h, r, e);
    assert SidesLiveIn(r.req.observed, e, ns);
    PairScope(h, api, e, Bodies(r.script.resources), r.req.observed, ns);
  }

  lemma RefusedDesiresPrior(h: Hashes, r: Round)
    ensures !Accepts(h, r) ==> Rsp(h, r).desired == r.req.prior
  {
  }

  /** In every run, at every reconcile, existing Usages of declared pairs have the scope of their two
      sides. */
  lemma {:induction false} ScopesStayLive(h: Hashes, api: Api, run: seq<Round>, ns: string -> string, i: nat, d: Pair)
    requires IsUsageRun(h, api, run, ns) && CollidersAgree(h, api, run, ns) && i < |run| && Declared(run, d)
    ensures ExistingFits(h, api, run[i].req.observed, d, ns)
    decreases i, 0
  {
    hide ScopeOf, ScopeFor, AlreadyCreated, Rsp, FixedRound, IsFree;
    if i > 0 {
      ScopesStayLive(h, api, run, ns, i - 1, d);
      assert LeftToUsages(h, run, NameOf(h, d));
      assert ScopeFollows(h, run[i - 1], run[i], NameOf(h, d));
      if NameOf(h, d) in Rsp(h, run[i - 1]).desired {
        ScopeAt(h, api, run, ns, i - 1, d);
      }
    }
  }

  lemma {:induction false} ScopeAt(h: Hashes, api: Api, run: seq<Round>, ns: string -> string, i: nat, d: Pair)
    requires IsUsageRun(h, api, run, ns) && CollidersAgree(h, api, run, ns) && i < |run| && Declared(run, d)
    requires NameOf(h, d) in Rsp(h, run[i]).desired
    ensures ScopeOf(Rsp(h, run[i]).desired[NameOf(h, d)].body) == ScopeFor(api, d, ns)
    decreases i, 1
  {
    hide ScopeOf, ScopeFor, AlreadyCreated, Rsp, FixedRound, IsFree, ExistingFits;
    forall e | e in run[i].script.deps && NameOf(h, e) == NameOf(h, d)
      ensures ExistingFits(h, api, run[i].req.observed, e, ns) && ScopeFor(api, e, ns) == ScopeFor(api, d, ns)
    {
      assert Declared(run, e);
      ScopesStayLive(h, api, run, ns, i, e);
    }
    assert LeftToUsages(h, run, NameOf(h, d));
    DesiredScope(h, api, run[i], ns, d);
  }

  /** In every run with a fixed API version and unchanging namespaces, whose declared pairs of one name
      have one scope, a Usage never changes its kind, its namespace or its of-namespace, whichever sides
      vanish or return: they are those of the sides of any pair of that name. */
  lemma UsageNeverChangesScope(h: Hashes, api: Api, run: seq<Round>, ns: string -> string, i: nat, j: nat, d: Pair)
    requires IsUsageRun(h, api, run, ns) && CollidersAgree(h, api, run, ns) && Declared(run, d)
    requires i < |run| && j < |run|
    requires NameOf(h, d) in Rsp(h, run[i]).desired && NameOf(h, d) in Rsp(h, run[j]).desired
    ensures ScopeOf(Rsp(h, run[i]).desired[NameOf(h, d)].body)
         == ScopeOf(Rsp(h, run[j]).desired[NameOf(h, d)].body) == ScopeFor(api, d, ns)
  {
    hide ScopeOf, ScopeFor, Rsp, IsUsageRun, CollidersAgree;
    ScopeAt(h, api, run, ns, i, d);
    ScopeAt(h, api, run, ns, j, d);
  }

  // ---------------------------------------------------------------- ready rounds

  /** A ready body in the given namespace. */
  function ReadyIn(namespace: string): Fields {
    ReadyBody()["metadata" := Struct(map["namespace" := Str(namespace)])]
  }

  lemma ReadyInIsReady(namespace: string)
    ensures IsObservedReady(Some(ReadyIn(namespace))) && TypeInfoOf(Some(ReadyIn(namespace))).namespace == namespace
  {
    var f, ready, synced := ReadyIn(namespace), ConditionValue("Ready"), ConditionValue("Synced");
    assert Field(f, "apiVersion") == Nil && !IsKubernetesObject(f);
    assert Conditions(f) == [ready, synced];
    assert ready in Conditions(f) && synced in Conditions(f);
    assert TypeOf(ready) == "Ready" && StatusOf(ready) == "True";
    assert TypeOf(synced) == "Synced" && StatusOf(synced) == "True";
    assert HasCondition(f, "Ready", "True") && HasCondition(f, "Synced", "True");
  }

  /** A reconcile of a script that declares the pair, with these resources observed and ready. */
  function ReadyRound(api: Api, d: Pair, names: set<string>, ns: string -> string): Round {
    var c := EMPTY.(resources := map n | n in names :: Collected(map[], Unspecified, map[]), deps := [d]);
    var r := RoundOn(c, map n | n in names :: Some(ReadyIn(ns(n))));
    r.(req := r.req.(api := api))
  }

  lemma ReadyRoundIsReady(h: Hashes, api: Api, d: Pair, names: set<string>, ns: string -> string)
    requires d.dependent in names && d.dependency in names && d.fieldPath == "" && NameOf(h, d) !in names
    ensures var r := ReadyRound(api, d, names, ns);
            FixedRound(r, api, ns) && IsFree(r, NameOf(h, d)) && NameOf(h, d) !in r.req.observed && Warrants(h, r, d)
  {
    hide ReadyIn, UnmetReady, TypeInfoOf, CountsAsReady, UsageExists, LeadsToSomething;
    ReadyInIsReady(ns(d.dependent));
    ReadyInIsReady(ns(d.dependency));
    ReadyExactlyWhen(Some(ReadyIn(ns(d.dependent))));
    ReadyExactlyWhen(Some(ReadyIn(ns(d.dependency))));
    assert BothReady(d, ReadyRound(api, d, names, ns).req.observed);
  }

  lemma ReadyRoundIsAccepted(h: Hashes, api: Api, d: Pair, names: set<string>, ns: string -> string)
    requires d.dependent in names && d.dependency in names && d.dependent != d.dependency
    ensures Accepts(h, ReadyRound(api, d, names, ns))
  {
    hide ReadyIn, AllUsages, Withheld, CompositeReady, Reported, TtlOf, DefersOf;
    NumberedIsAcyclic(EdgesOf([d]), map[d.dependent := 1, d.dependency := 0]);
  }

  /** It desires the Usage of the pair, with the scope of its two sides. */
  lemma ReadyRoundDesires(h: Hashes, api: Api, d: Pair, names: set<string>, ns: string -> string)
    requires d.dependent in names && d.dependency in names && d.dependent != d.dependency && d.fieldPath == ""
    requires NameOf(h, d) !in names
    ensures var r := ReadyRound(api, d, names, ns);
            && FixedRound(r, api, ns) && IsFree(r, NameOf(h, d)) && NameOf(h, d) !in r.req.observed
            && NameOf(h, d) in Rsp(h, r).desired
            && ScopeOf(Rsp(h, r).desired[NameOf(h, d)].body) == ScopeFor(api, d, ns)
  {
    hide ScopeOf, ScopeFor, ReadyIn, Warrants, UsageOf, FixedRound, IsFree, Rsp, DesiresUsageOf;
    var r := ReadyRound(api, d, names, ns);
    ReadyRoundIsReady(h, api, d, names, ns);
    ReadyRoundIsAccepted(h, api, d, names, ns);
    UsageDesiredIff(h, r, NameOf(h, d));
    assert d in r.script.deps;
    DesiredScope(h, api, r, ns, d);
  }

  // ---------------------------------------------------------------- such runs exist

  /** The next reconcile observes the Usage that was desired, and the dependency no more. */
  ghost function VanishedRound(h: Hashes, r: Round, d: Pair): Round
    requires NameOf(h, d) in Rsp(h, r).desired
  {
    var usage := Rsp(h, r).desired[NameOf(h, d)].body;
    r.(req := r.req.(observed := (r.req.observed - {d.dependency})[NameOf(h, d) := Some(usage)]))
  }

  lemma StillLivesIn(observed: Observed, d: Pair, name: string, usage: Fields, ns: string -> string)
    requires name !in {d.dependent, d.dependency} && SidesLiveIn(observed, d, ns)
    ensures SidesLiveIn((observed - {d.dependency})[name := Some(usage)], d, ns)
  {
  }

  lemma VanishedIsRegular(h: Hashes, api: Api, r: Round, d: Pair, ns: string -> string)
    requires r.script.deps == [d] && FixedRound(r, api, ns) && IsFree(r, NameOf(h, d))
    requires NameOf(h, d) !in {d.dependent, d.dependency} && NameOf(h, d) !in r.req.observed
    requires NameOf(h, d) in Rsp(h, r).desired
    requires ScopeOf(Rsp(h, r).desired[NameOf(h, d)].body) == ScopeFor(api, d, ns)
    ensures var next := VanishedRound(h, r, d);
            && IsRun(h, [r, next]) && IsUsageRun(h, api, [r, next], ns) && CollidersAgree(h, api, [r, next], ns)
            && UsageExists(next.req.observed, NameOf(h, d))
  {
    hide Rsp, LivesIn, UsageExists;
    CreatedIff(VanishedRound(h, r, d).req.observed, NameOf(h, d));
    var next, name := VanishedRound(h, r, d), NameOf(h, d);
    var usage := Rsp(h, r).desired[name].body;
    assert StringOf(Field(usage, "kind")) == ScopeFor(api, d, ns).kind;
    hide ScopeOf, ScopeFor;
    var run := [r, next];
    assert NextRound(h, r, next) && ScopeFollows(h, r, next, name) && IsFree(next, name);
    assert LeftToUsages(h, run, name);
    StillLivesIn(r.req.observed, d, name, usage, ns);
    assert forall e :: Declared(run, e) ==> e == d;
  }

  /** The premises can be met in the case they are about: every pair of distinct resources has a run in
      which its Usage is created, its dependency vanishes, and the Usage stays with its scope. */
  lemma RetainedWhenSideVanishes(h: Hashes, api: Api, ns: string -> string, d: Pair)
    requires d.dependent != d.dependency && d.fieldPath == "" && NameOf(h, d) !in {d.dependent, d.dependency}
    ensures exists run :: IsRun(h, run) && IsUsageRun(h, api, run, ns) && CollidersAgree(h, api, run, ns)
                          && RetainsUsage(h, run, d)
  {
    hide ScopeOf, ScopeFor, FixedRound, IsUsageRun, CollidersAgree, IsRun, ReadyIn;
    hide Rsp, Accepts, Applied, IsFree, UsageExists, DesiresUsageOf;
    var names := {d.dependent, d.dependency};
    var r := ReadyRound(api, d, names, ns);
    ReadyRoundDesires(h, api, d, names, ns);
    ReadyRoundIsAccepted(h, api, d, names, ns);
    VanishedIsRegular(h, api, r, d, ns);
    var next := VanishedRound(h, r, d);
    SameScriptAccepted(h, r, next);
    ExistingUsageStaysDesired(h, next, d);
    assert d in [r, next][0].script.deps;
    assert RetainsUsage(h, [r, next], d);
  }

  lemma SameScriptAccepted(h: Hashes, r: Round, next: Round)
    requires Accepts(h, r) && next.script == r.script
    ensures Accepts(h, next)
  {
    hide AllUsages, Withheld, CompositeReady, Reported, TtlOf, DefersOf, Accepted;
  }

  /** The second reconcile desires the Usage without observing the dependency. */
  ghost predicate RetainsUsage(h: Hashes, run: seq<Round>, d: Pair) {
    && |run| >= 2 && Declared(run, d) && d.dependency !in run[1].req.observed
    && NameOf(h, d) in Rsp(h, run[0]).desired && NameOf(h, d) in Rsp(h, run[1]).desired
  }

  // ---------------------------------------------------------------- colliding names

  /** Two reconciles that observe the same, each declaring one of the pairs. */
  lemma TwoRounds(h: Hashes, api: Api, ns: string -> string, first: Round, second: Round, c: Pair, d: Pair)
    requires first.script.deps == [c] && second.script.deps == [d] && NameOf(h, c) == NameOf(h, d)
    requires FixedRound(first, api, ns) && FixedRound(second, api, ns) && first.req.observed == second.req.observed
    requires IsFree(first, NameOf(h, c)) && IsFree(second, NameOf(h, c)) && NameOf(h, c) !in first.req.observed
    ensures IsRun(h, [first, second]) && IsUsageRun(h, api, [first, second], ns)
  {
    hide Rsp, FixedRound, IsFree, ScopeOf, ScopeFor;
    var run, name := [first, second], NameOf(h, c);
    assert NextRound(h, first, second);
    assert AlreadyCreated(name, first.req.observed).None? && AlreadyCreated(name, second.req.observed).None?;
    assert ScopeFollows(h, first, second, name);
    assert LeftToUsages(h, run, name);
    forall e | Declared(run, e)
      ensures NameOf(h, e) == name && ExistingFits(h, api, first.req.observed, e, ns)
    {
      var i :| 0 <= i < |run| && e in run[i].script.deps;
      assert e == c || e == d;
    }
  }

  /** The condition is needed: for any two pairs with one Usage name and different scopes there is a run
      with everything else that a run needs, in which that Usage changes its scope. */
  lemma CollisionChangesScope(h: Hashes, api: Api, ns: string -> string, c: Pair, d: Pair)
    requires NameOf(h, c) == NameOf(h, d) && ScopeFor(api, c, ns) != ScopeFor(api, d, ns)
    requires c.dependent != c.dependency && d.dependent != d.dependency && c.fieldPath == d.fieldPath == ""
    requires NameOf(h, c) !in {c.dependent, c.dependency, d.dependent, d.dependency}
    ensures exists run :: IsRun(h, run) && IsUsageRun(h, api, run, ns) && ChangesScope(h, run, NameOf(h, c))
  {
    hide ScopeOf, ScopeFor, Rsp, FixedRound, ReadyIn, IsUsageRun, IsRun;
    var names, name := {c.dependent, c.dependency, d.dependent, d.dependency}, NameOf(h, c);
    var first, second := ReadyRound(api, c, names, ns), ReadyRound(api, d, names, ns);
    ReadyRoundDesires(h, api, c, names, ns);
    ReadyRoundDesires(h, api, d, names, ns);
    TwoRounds(h, api, ns, first, second, c, d);
    assert ChangesScope(h, [first, second], name);
  }

  /** The first two reconciles desire the name with different scopes. */
  ghost predicate ChangesScope(h: Hashes, run: seq<Round>, name: string) {
    && |run| >= 2 && name in Rsp(h, run[0]).desired && name in Rsp(h, run[1]).desired
    && ScopeOf(Rsp(h, run[0]).desired[name].body) != ScopeOf(Rsp(h, run[1]).desired[name].body)
  }

  /** Two such pairs: "app" on "db", both namespaced, and "web" on "cache", both cluster-scoped. */
  lemma CollisionExample()
    ensures var h := Hashes((a, b) => "usage-00000000", n => n);
            var ns := n => if n in {"app", "db"} then "prod" else "";
            var name := "usage-00000000";
            exists run :: IsRun(h, run) && IsUsageRun(h, V2, run, ns) && ChangesScope(h, run, name)
  {
    var h := Hashes((a, b) => "usage-00000000", n => n);
    var ns := n => if n in {"app", "db"} then "prod" else "";
    var c, d := Pair("app", "db", true, ""), Pair("web", "cache", true, "");
    assert ScopeFor(V2, c, ns) == Scope("Usage", "prod", "") && ScopeFor(V2, d, ns) == Scope("ClusterUsage", "", "");
    CollisionChangesScope(h, V2, ns, c, d);
  }
}
