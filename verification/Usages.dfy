/**
 Usage objects that protect dependencies from deletion: how they are built, when they appear, and
 how an existing one keeps its scope (builtins/usage.go).
 */
module Usages {
  import opened Wrappers
  import opened Proto
  import opened Dependencies
  import opened Sequencer

  /** The Usage API of Crossplane 1.x or 2.x. */
  datatype Api = V1 | V2

  function ApiVersionOf(api: Api): string {
    match api
    case V1 => "apiextensions.crossplane.io/v1beta1"
    case V2 => "protection.crossplane.io/v1beta1"
  }

  /** The two digests of resource names: the Usage name of a pair and the label value of a name. */
  datatype Hashes = Hashes(usageName: (string, string) -> string, labelOf: string -> string)

  const RESOURCE_NAME_LABEL := "function-starlark.crossplane.io/resource-name"

  datatype TypeInfo = TypeInfo(apiVersion: string, kind: string, namespace: string)

  /** The scope of a Usage: its kind, its own namespace, and the namespace override of spec.of. */
  datatype Scope = Scope(kind: string, namespace: string, ofSelectorNs: string)

  function TypeInfoOf(b: Body): TypeInfo {
    var f := BodyFields(b);
    TypeInfo(StringOf(Field(f, "apiVersion")), StringOf(Field(f, "kind")),
             StringOf(Field(FieldsOf(Field(f, "metadata")), "namespace")))
  }

  function MergeTypeInfo(primary: TypeInfo, fallback: TypeInfo): TypeInfo {
    TypeInfo(if primary.apiVersion == "" then fallback.apiVersion else primary.apiVersion,
             if primary.kind == "" then fallback.kind else primary.kind,
             primary.namespace)
  }

  function UsageKind(api: Api, namespaced: bool): string {
    if api == V2 && !namespaced then "ClusterUsage" else "Usage"
  }

  function UsageNamespace(byNs: string, ofNs: string): string {
    if byNs != "" then byNs else ofNs
  }

  /** The scope derived from the namespaces of the live dependent and dependency. */
  function LiveScope(api: Api, byNs: string, ofNs: string): Scope {
    var kind := UsageKind(api, byNs != "" || ofNs != "");
    if api == V2 && kind == "Usage" then
      var namespace := UsageNamespace(byNs, ofNs);
      Scope(kind, namespace, if ofNs != "" && ofNs != namespace then ofNs else "")
    else Scope(kind, "", "")
  }

  function SelectorOf(h: Hashes, name: string, selectorNs: string, infos: map<string, TypeInfo>): Value {
    var labels := Struct(map[RESOURCE_NAME_LABEL := Str(h.labelOf(name))]);
    var selector: Fields := map["matchControllerRef" := Bool(true), "matchLabels" := labels];
    var scoped := if selectorNs != "" then selector["namespace" := Str(selectorNs)] else selector;
    var fields: Fields := map["resourceSelector" := Struct(scoped)];
    if name in infos
    then Struct(fields["apiVersion" := Str(infos[name].apiVersion)]["kind" := Str(infos[name].kind)])
    else Struct(fields)
  }

  function BuildUsage(h: Hashes, user: string, used: string, api: Api, scope: Scope, infos: map<string, TypeInfo>): Fields {
    var spec: Fields := map[
      "replayDeletion" := Bool(true),
      "of" := SelectorOf(h, used, scope.ofSelectorNs, infos),
      "by" := SelectorOf(h, user, "", infos)];
    var fields: Fields := map[
      "apiVersion" := Str(ApiVersionOf(api)), "kind" := Str(scope.kind), "spec" := Struct(spec)];
    if scope.namespace != ""
    then fields["metadata" := Struct(map["namespace" := Str(scope.namespace)])]
    else fields
  }

  /** The scope read back from an existing Usage. */
  function ScopeOf(f: Fields): Scope {
    var used := FieldsOf(Field(FieldsOf(Field(f, "spec")), "of"));
    Scope(StringOf(Field(f, "kind")),
          StringOf(Field(FieldsOf(Field(f, "metadata")), "namespace")),
          StringOf(Field(FieldsOf(Field(used, "resourceSelector")), "namespace")))
  }

  /** Reading the scope of a built Usage gives back the scope it was built with. */
  lemma RetainedScopeRoundTrip(h: Hashes, user: string, used: string, api: Api, scope: Scope, infos: map<string, TypeInfo>)
    ensures ScopeOf(BuildUsage(h, user, used, api, scope, infos)) == scope
  {
    var f := BuildUsage(h, user, used, api, scope, infos);
    var spec := FieldsOf(Field(f, "spec"));
    assert Field(spec, "of") == SelectorOf(h, used, scope.ofSelectorNs, infos);
  }

  /** The namespace in which the Usage controller looks up spec.by and spec.of. */
  function ByNamespace(s: Scope): string {
    s.namespace
  }

  function OfNamespace(s: Scope): string {
    if s.ofSelectorNs != "" then s.ofSelectorNs else s.namespace
  }

  /** On the v2 API every namespaced side is looked up in the namespace where it lives, the Usage is
      cluster-scoped exactly when neither side is namespaced, and spec.of overrides the namespace exactly
      when the two sides live in different ones. On the v1 API a Usage has no scope. */
  lemma LiveScopeResolves(byNs: string, ofNs: string)
    ensures LiveScope(V1, byNs, ofNs) == Scope("Usage", "", "")
    ensures var s := LiveScope(V2, byNs, ofNs);
            && (byNs != "" ==> ByNamespace(s) == byNs)
            && (ofNs != "" ==> OfNamespace(s) == ofNs)
            && (s.kind == "ClusterUsage" <==> byNs == "" && ofNs == "")
            && (s.kind == "Usage" <==> s.namespace != "")
            && s.kind in {"Usage", "ClusterUsage"}
            && (s.ofSelectorNs != "" <==> byNs != "" && ofNs != "" && byNs != ofNs)
  {
  }

  // ---------------------------------------------------------------- one reconcile

  predicate Live(observed: Observed, name: string) {
    name in observed && observed[name].Some?
  }

  function BodyOf(observed: Observed, name: string): Body {
    if name in observed then observed[name] else None
  }

  /** Both sides observed and ready, and the field path, if any, truthy. */
  predicate PairReady(d: Pair, observed: Observed) {
    && IsObservedReady(BodyOf(observed, d.dependent))
    && IsObservedReady(BodyOf(observed, d.dependency))
    && (d.fieldPath != "" ==> FieldReady(BodyOf(observed, d.dependency), d.fieldPath))
  }

  /** The observed Usage or ClusterUsage under this name. */
  function AlreadyCreated(name: string, observed: Observed): Option<Fields> {
    if Live(observed, name) && StringOf(Field(observed[name].value, "kind")) in {"Usage", "ClusterUsage"}
    then observed[name] else None
  }

  function NameOf(h: Hashes, d: Pair): string {
    h.usageName(d.dependent, d.dependency)
  }

  function InfoOf(name: string, bodies: map<string, Fields>, observed: Observed): TypeInfo {
    var fallback := if name in bodies then TypeInfoOf(Some(bodies[name])) else TypeInfo("", "", "");
    MergeTypeInfo(TypeInfoOf(BodyOf(observed, name)), fallback)
  }

  /** The Usage that one pair contributes, if any. `bodies` are the collected resource bodies. */
  function UsageOf(h: Hashes, api: Api, d: Pair, bodies: map<string, Fields>, observed: Observed): Option<Fields> {
    var existing := AlreadyCreated(NameOf(h, d), observed);
    if !PairReady(d, observed) && existing.None? then None
    else
      var byInfo, ofInfo := InfoOf(d.dependent, bodies, observed), InfoOf(d.dependency, bodies, observed);
      var infos := map[d.dependent := byInfo][d.dependency := ofInfo];
      var scope :=
        if existing.None? || (Live(observed, d.dependent) && Live(observed, d.dependency))
        then LiveScope(api, byInfo.namespace, ofInfo.namespace)
        else ScopeOf(existing.value);
      Some(BuildUsage(h, d.dependent, d.dependency, api, scope, infos))
  }

  /** All Usages of a reconcile; of two pairs with one Usage name the later wins. */
  function AllUsages(h: Hashes, api: Api, deps: seq<Pair>, bodies: map<string, Fields>, observed: Observed): map<string, Fields> {
    if deps == [] then map[]
    else
      var before, d := AllUsages(h, api, deps[..|deps| - 1], bodies, observed), deps[|deps| - 1];
      var u := UsageOf(h, api, d, bodies, observed);
      if u.Some? then before[NameOf(h, d) := u.value] else before
  }

  method BuildUsageResources(h: Hashes, deps: seq<Pair>, api: Api, bodies: map<string, Fields>, observed: Observed)
    returns (result: map<string, Fields>)
    ensures forall name :: ProtectsAsCalledFor(h, api, deps, bodies, observed, name, result)
    ensures result == AllUsages(h, api, deps, bodies, observed)
  {
    hide UsageOf, ProtectsAsCalledFor;
    result := map[];
    var i := 0;
    while i < |deps|
      invariant 0 <= i <= |deps|
      invariant result == AllUsages(h, api, deps[..i], bodies, observed)
    {
      var u := UsageOf(h, api, deps[i], bodies, observed);
      if u.Some? {
        result := result[NameOf(h, deps[i]) := u.value];
      }
      assert deps[..i + 1][..i] == deps[..i];
      i := i + 1;
    }
    assert deps[..i] == deps;
    forall name
      ensures ProtectsAsCalledFor(h, api, deps, bodies, observed, name, result)
    {
      UsagesProtect(h, api, deps, bodies, observed, name);
    }
  }

  ghost predicate Contributes(h: Hashes, api: Api, d: Pair, bodies: map<string, Fields>, observed: Observed, name: string) {
    NameOf(h, d) == name && UsageOf(h, api, d, bodies, observed).Some?
  }

  /** A Usage is emitted under a name exactly when some pair of that name contributes one, and it is
      the one that the last such pair contributes. */
  lemma {:induction false} UsageComesFromPair(
    h: Hashes, api: Api, deps: seq<Pair>, bodies: map<string, Fields>, observed: Observed, name: string)
    ensures var all := AllUsages(h, api, deps, bodies, observed);
            && (name in all <==> exists d :: d in deps && Contributes(h, api, d, bodies, observed, name))
            && (name in all ==> exists i :: 0 <= i < |deps| && IsLastOf(h, api, deps, bodies, observed, name, i)
                                            && UsageOf(h, api, deps[i], bodies, observed) == Some(all[name]))
  {
    hide UsageOf;
    if deps != [] {
      var n := |deps| - 1;
      var before, d := deps[..n], deps[n];
      assert deps == before + [d];
      UsageComesFromPair(h, api, before, bodies, observed, name);
      var all := AllUsages(h, api, deps, bodies, observed);
      if Contributes(h, api, d, bodies, observed, name) {
        assert IsLastOf(h, api, deps, bodies, observed, name, n);
      } else if name in all {
        var i :| 0 <= i < n && IsLastOf(h, api, before, bodies, observed, name, i)
                 && UsageOf(h, api, before[i], bodies, observed) == Some(all[name]);
        assert IsLastOf(h, api, deps, bodies, observed, name, i);
      }
    }
  }

  ghost predicate IsLastOf(h: Hashes, api: Api, deps: seq<Pair>, bodies: map<string, Fields>, observed: Observed,
                           name: string, i: nat)
    requires i < |deps|
  {
    && Contributes(h, api, deps[i], bodies, observed, name)
    && forall j :: i < j < |deps| ==> !Contributes(h, api, deps[j], bodies, observed, name)
  }

  // ---------------------------------------------------------------- what a contributed Usage is

  ghost predicate SideReady(observed: Observed, name: string) {
    name in observed && observed[name].Some? && CountsAsReady(observed[name].value)
  }

  /** Both sides are observed and count as ready, and the field path, if any, leads to something. */
  ghost predicate BothReady(d: Pair, observed: Observed) {
    && SideReady(observed, d.dependent) && SideReady(observed, d.dependency)
    && (d.fieldPath != "" ==> LeadsToSomething(observed[d.dependency].value, d.fieldPath))
  }

  lemma PairReadyIff(d: Pair, observed: Observed)
    ensures PairReady(d, observed) <==> BothReady(d, observed)
  {
    hide UnmetReady, CountsAsReady, FieldReady, LeadsToSomething;
    ReadyExactlyWhen(BodyOf(observed, d.dependent));
    ReadyExactlyWhen(BodyOf(observed, d.dependency));
    if SideReady(observed, d.dependency) {
      FieldReadyIff(observed[d.dependency].value, d.fieldPath);
    }
  }

  /** A Usage or ClusterUsage is observed under this name. */
  ghost predicate UsageExists(observed: Observed, name: string) {
    name in observed && observed[name].Some?
    && (Says(Struct(observed[name].value), "kind", "Usage") || Says(Struct(observed[name].value), "kind", "ClusterUsage"))
  }

  lemma CreatedIff(observed: Observed, name: string)
    ensures AlreadyCreated(name, observed).Some? <==> UsageExists(observed, name)
    ensures UsageExists(observed, name) ==> AlreadyCreated(name, observed) == observed[name]
  {
    if name in observed && observed[name].Some? {
      SaysIff(Struct(observed[name].value), "kind", "Usage");
      SaysIff(Struct(observed[name].value), "kind", "ClusterUsage");
    }
  }

  /** The text at a path of a body, empty if there is none. */
  function TextAt(b: Body, path: seq<string>): string
    requires path != []
  {
    if b.Some? then StringOf(Lookup(b.value, path)) else ""
  }

  /** The type information of one side: what the observed body says, or the collected one where that
      says nothing. */
  function TypeText(key: string, name: string, bodies: map<string, Fields>, observed: Observed): string {
    var seen := TextAt(BodyOf(observed, name), [key]);
    if seen != "" then seen else if name in bodies then TextAt(Some(bodies[name]), [key]) else ""
  }

  /** The reference at spec.of or spec.by selects the composed resource `name` by type and label, with this
      namespace override. */
  ghost predicate SelectsSide(h: Hashes, u: Fields, side: string, name: string, selectorNs: string,
                              bodies: map<string, Fields>, observed: Observed) {
    && Lookup(u, ["spec", side, "apiVersion"]) == Str(TypeText("apiVersion", name, bodies, observed))
    && Lookup(u, ["spec", side, "kind"]) == Str(TypeText("kind", name, bodies, observed))
    && Lookup(u, ["spec", side, "resourceSelector", "matchControllerRef"]) == Bool(true)
    && Lookup(u, ["spec", side, "resourceSelector", "matchLabels"])
       == Struct(map["function-starlark.crossplane.io/resource-name" := Str(h.labelOf(name))])
    && Lookup(u, ["spec", side, "resourceSelector", "namespace"]) == if selectorNs == "" then Nil else Str(selectorNs)
  }

  /** The scope that the Usage of a pair must have: that of the live sides, or that of the existing Usage
      if there is one and a side is missing. */
  ghost function DueScope(api: Api, name: string, d: Pair, observed: Observed): Scope {
    if UsageExists(observed, name)
       && !(d.dependent in observed && observed[d.dependent].Some? && d.dependency in observed && observed[d.dependency].Some?)
    then
      Scope(TextAt(observed[name], ["kind"]), TextAt(observed[name], ["metadata", "namespace"]),
            TextAt(observed[name], ["spec", "of", "resourceSelector", "namespace"]))
    else LiveScope(api, TextAt(BodyOf(observed, d.dependent), ["metadata", "namespace"]),
                   TextAt(BodyOf(observed, d.dependency), ["metadata", "namespace"]))
  }

  /** A Usage that protects the dependency of the pair from deletion before the dependent: spec.of selects
      the dependency and spec.by the dependent, and the scope is the due one. */
  ghost predicate ProtectsPair(h: Hashes, api: Api, u: Fields, name: string, d: Pair,
                               bodies: map<string, Fields>, observed: Observed) {
    var scope := DueScope(api, name, d, observed);
    && Lookup(u, ["apiVersion"])
       == Str(if api == V1 then "apiextensions.crossplane.io/v1beta1" else "protection.crossplane.io/v1beta1")
    && Lookup(u, ["kind"]) == Str(scope.kind)
    && Lookup(u, ["metadata", "namespace"]) == (if scope.namespace == "" then Nil else Str(scope.namespace))
    && Lookup(u, ["spec", "replayDeletion"]) == Bool(true)
    && SelectsSide(h, u, "of", d.dependency, scope.ofSelectorNs, bodies, observed)
    && SelectsSide(h, u, "by", d.dependent, "", bodies, observed)
  }

  lemma TypeInfoTexts(b: Body)
    ensures TypeInfoOf(b) == TypeInfo(TextAt(b, ["apiVersion"]), TextAt(b, ["kind"]), TextAt(b, ["metadata", "namespace"]))
  {
    if b.Some? {
      LookupStep(b.value, "metadata", ["namespace"]);
      assert ["metadata"] + ["namespace"] == ["metadata", "namespace"];
    }
  }

  lemma InfoTexts(name: string, bodies: map<string, Fields>, observed: Observed)
    ensures InfoOf(name, bodies, observed)
         == TypeInfo(TypeText("apiVersion", name, bodies, observed), TypeText("kind", name, bodies, observed),
                     TextAt(BodyOf(observed, name), ["metadata", "namespace"]))
  {
    hide TypeInfoOf, TextAt;
    TypeInfoTexts(BodyOf(observed, name));
    if name in bodies {
      TypeInfoTexts(Some(bodies[name]));
    }
  }

  lemma ScopeTexts(f: Fields)
    ensures ScopeOf(f) == Scope(TextAt(Some(f), ["kind"]), TextAt(Some(f), ["metadata", "namespace"]),
                                TextAt(Some(f), ["spec", "of", "resourceSelector", "namespace"]))
  {
    LookupStep(f, "metadata", ["namespace"]);
    LookupStep(f, "spec", ["of", "resourceSelector", "namespace"]);
    var spec := FieldsOf(Field(f, "spec"));
    LookupStep(spec, "of", ["resourceSelector", "namespace"]);
    LookupStep(FieldsOf(Field(spec, "of")), "resourceSelector", ["namespace"]);
    assert ["metadata"] + ["namespace"] == ["metadata", "namespace"];
    assert ["spec"] + ["of", "resourceSelector", "namespace"] == ["spec", "of", "resourceSelector", "namespace"];
    assert ["of"] + ["resourceSelector", "namespace"] == ["of", "resourceSelector", "namespace"];
    assert ["resourceSelector"] + ["namespace"] == ["resourceSelector", "namespace"];
  }

  /** What the reference to one side holds. */
  lemma SelectorHolds(h: Hashes, name: string, selectorNs: string, infos: map<string, TypeInfo>)
    requires name in infos
    ensures var ref := FieldsOf(SelectorOf(h, name, selectorNs, infos));
            && Field(ref, "apiVersion") == Str(infos[name].apiVersion) && Field(ref, "kind") == Str(infos[name].kind)
            && var selector := FieldsOf(Field(ref, "resourceSelector"));
            && Field(selector, "matchControllerRef") == Bool(true)
            && Field(selector, "matchLabels")
               == Struct(map["function-starlark.crossplane.io/resource-name" := Str(h.labelOf(name))])
            && Field(selector, "namespace") == if selectorNs == "" then Nil else Str(selectorNs)
  {
    assert RESOURCE_NAME_LABEL == "function-starlark.crossplane.io/resource-name";
  }

  /** What a built Usage holds. */
  lemma UsageHolds(h: Hashes, user: string, used: string, api: Api, scope: Scope, infos: map<string, TypeInfo>)
    ensures var u := BuildUsage(h, user, used, api, scope, infos);
            && Lookup(u, ["apiVersion"])
               == Str(if api == V1 then "apiextensions.crossplane.io/v1beta1" else "protection.crossplane.io/v1beta1")
            && Lookup(u, ["kind"]) == Str(scope.kind)
            && Lookup(u, ["metadata", "namespace"]) == (if scope.namespace == "" then Nil else Str(scope.namespace))
            && Lookup(u, ["spec", "replayDeletion"]) == Bool(true)
            && var spec := FieldsOf(Field(u, "spec"));
            && Field(spec, "of") == SelectorOf(h, used, scope.ofSelectorNs, infos)
            && Field(spec, "by") == SelectorOf(h, user, "", infos)
  {
    hide SelectorOf;
    var u := BuildUsage(h, user, used, api, scope, infos);
    LookupStep(u, "metadata", ["namespace"]);
    LookupStep(u, "spec", ["replayDeletion"]);
    assert ["metadata"] + ["namespace"] == ["metadata", "namespace"];
    assert ["spec"] + ["replayDeletion"] == ["spec", "replayDeletion"];
  }

  lemma SideLookups(u: Fields, side: string)
    ensures var ref := FieldsOf(Field(FieldsOf(Field(u, "spec")), side));
            && Lookup(u, ["spec", side, "apiVersion"]) == Field(ref, "apiVersion")
            && Lookup(u, ["spec", side, "kind"]) == Field(ref, "kind")
            && var selector := FieldsOf(Field(ref, "resourceSelector"));
            && Lookup(u, ["spec", side, "resourceSelector", "matchControllerRef"]) == Field(selector, "matchControllerRef")
            && Lookup(u, ["spec", side, "resourceSelector", "matchLabels"]) == Field(selector, "matchLabels")
            && Lookup(u, ["spec", side, "resourceSelector", "namespace"]) == Field(selector, "namespace")
  {
    LookupThree(u, "spec", side, "apiVersion");
    LookupThree(u, "spec", side, "kind");
    LookupFour(u, "spec", side, "resourceSelector", "matchControllerRef");
    LookupFour(u, "spec", side, "resourceSelector", "matchLabels");
    LookupFour(u, "spec", side, "resourceSelector", "namespace");
  }

  lemma LookupThree(f: Fields, a: string, b: string, c: string)
    ensures Lookup(f, [a, b, c]) == Field(FieldsOf(Field(FieldsOf(Field(f, a)), b)), c)
  {
    var g := FieldsOf(Field(f, a));
    LookupStep(f, a, [b, c]);
    LookupStep(g, b, [c]);
    assert [a] + [b, c] == [a, b, c] && [b] + [c] == [b, c];
    assert Lookup(FieldsOf(Field(g, b)), [c]) == Field(FieldsOf(Field(g, b)), c);
  }

  lemma LookupFour(f: Fields, a: string, b: string, c: string, d: string)
    ensures Lookup(f, [a, b, c, d]) == Field(FieldsOf(Field(FieldsOf(Field(FieldsOf(Field(f, a)), b)), c)), d)
  {
    LookupStep(f, a, [b, c, d]);
    LookupThree(FieldsOf(Field(f, a)), b, c, d);
    assert [a] + [b, c, d] == [a, b, c, d];
  }

  lemma BuiltSelects(h: Hashes, u: Fields, side: string, name: string, selectorNs: string, infos: map<string, TypeInfo>,
                     bodies: map<string, Fields>, observed: Observed)
    requires Field(FieldsOf(Field(u, "spec")), side) == SelectorOf(h, name, selectorNs, infos)
    requires name in infos && infos[name] == InfoOf(name, bodies, observed)
    ensures SelectsSide(h, u, side, name, selectorNs, bodies, observed)
  {
    hide SelectorOf, InfoOf, TypeText, Lookup;
    SideLookups(u, side);
    SelectorHolds(h, name, selectorNs, infos);
    InfoTexts(name, bodies, observed);
  }

  /** A pair contributes a Usage exactly when both its sides are ready or there is one already, and the
      Usage protects the dependency. */
  lemma ContributedExactly(h: Hashes, api: Api, d: Pair, bodies: map<string, Fields>, observed: Observed)
    ensures var u, name := UsageOf(h, api, d, bodies, observed), h.usageName(d.dependent, d.dependency);
            && (u.Some? <==> BothReady(d, observed) || UsageExists(observed, name))
            && (u.Some? ==> ProtectsPair(h, api, u.value, name, d, bodies, observed))
  {
    hide PairReady, BothReady, AlreadyCreated, UsageExists, BuildUsage, LiveScope, ScopeOf, InfoOf, SelectorOf, Lookup;
    PairReadyIff(d, observed);
    CreatedIff(observed, NameOf(h, d));
    if UsageOf(h, api, d, bodies, observed).Some? {
      ContributedProtects(h, api, d, bodies, observed);
    }
  }

  lemma ContributedProtects(h: Hashes, api: Api, d: Pair, bodies: map<string, Fields>, observed: Observed)
    requires UsageOf(h, api, d, bodies, observed).Some?
    ensures ProtectsPair(h, api, UsageOf(h, api, d, bodies, observed).value, h.usageName(d.dependent, d.dependency), d, bodies, observed)
  {
    hide PairReady, AlreadyCreated, UsageExists, BuildUsage, LiveScope, ScopeOf, InfoOf, SelectorOf, Lookup, TextAt, SelectsSide;
    var name := NameOf(h, d);
    var existing := AlreadyCreated(name, observed);
    var byInfo, ofInfo := InfoOf(d.dependent, bodies, observed), InfoOf(d.dependency, bodies, observed);
    var infos := map[d.dependent := byInfo][d.dependency := ofInfo];
    var scope := DueScope(api, name, d, observed);
    InfoTexts(d.dependent, bodies, observed);
    InfoTexts(d.dependency, bodies, observed);
    CreatedIff(observed, name);
    if existing.Some? {
      ScopeTexts(existing.value);
    }
    var u := BuildUsage(h, d.dependent, d.dependency, api, scope, infos);
    assert UsageOf(h, api, d, bodies, observed) == Some(u);
    UsageHolds(h, d.dependent, d.dependency, api, scope, infos);
    BuiltSelects(h, u, "of", d.dependency, scope.ofSelectorNs, infos, bodies, observed);
    BuiltSelects(h, u, "by", d.dependent, "", infos, bodies, observed);
  }

  /** The pair calls for a Usage under this name. */
  ghost predicate CallsFor(h: Hashes, d: Pair, observed: Observed, name: string) {
    h.usageName(d.dependent, d.dependency) == name && (BothReady(d, observed) || UsageExists(observed, name))
  }

  /** The name has a Usage exactly when a declared pair calls for one, and it protects the dependency of
      the last pair that does. */
  ghost predicate ProtectsAsCalledFor(h: Hashes, api: Api, deps: seq<Pair>, bodies: map<string, Fields>, observed: Observed,
                                      name: string, usages: map<string, Fields>) {
    && (name in usages <==> exists d :: d in deps && CallsFor(h, d, observed, name))
    && (name in usages ==> exists i :: 0 <= i < |deps| && CallsFor(h, deps[i], observed, name)
                                       && (forall j :: i < j < |deps| ==> !CallsFor(h, deps[j], observed, name))
                                       && ProtectsPair(h, api, usages[name], name, deps[i], bodies, observed))
  }

  lemma UsagesProtect(h: Hashes, api: Api, deps: seq<Pair>, bodies: map<string, Fields>, observed: Observed, name: string)
    ensures ProtectsAsCalledFor(h, api, deps, bodies, observed, name, AllUsages(h, api, deps, bodies, observed))
  {
    hide UsageOf, BothReady, UsageExists, ProtectsPair, AllUsages;
    UsageComesFromPair(h, api, deps, bodies, observed, name);
    forall d
      ensures Contributes(h, api, d, bodies, observed, name) <==> CallsFor(h, d, observed, name)
      ensures Contributes(h, api, d, bodies, observed, name) ==>
                ProtectsPair(h, api, UsageOf(h, api, d, bodies, observed).value, name, d, bodies, observed)
    {
      ContributedExactly(h, api, d, bodies, observed);
    }
  }

  // ---------------------------------------------------------------- the scope of a Usage

  /** Whenever `n` is observed, it lives in its namespace. */
  ghost predicate LivesIn(observed: Observed, n: string, ns: string -> string) {
    Live(observed, n) ==> TypeInfoOf(observed[n]).namespace == ns(n)
  }

  /** The scope of the namespaces of the two sides. */
  function ScopeFor(api: Api, d: Pair, ns: string -> string): Scope {
    LiveScope(api, ns(d.dependent), ns(d.dependency))
  }

  /** The Usage of the pair, if it exists already, has the scope of the two sides. */
  ghost predicate ExistingFits(h: Hashes, api: Api, observed: Observed, d: Pair, ns: string -> string) {
    var existing := AlreadyCreated(NameOf(h, d), observed);
    existing.Some? ==> ScopeOf(existing.value) == ScopeFor(api, d, ns)
  }

  /** Then the Usage that the pair contributes has that scope, whichever sides are observed. */
  lemma PairScope(h: Hashes, api: Api, d: Pair, bodies: map<string, Fields>, observed: Observed, ns: string -> string)
    requires LivesIn(observed, d.dependent, ns) && LivesIn(observed, d.dependency, ns)
    requires ExistingFits(h, api, observed, d, ns) && UsageOf(h, api, d, bodies, observed).Some?
    ensures ScopeOf(UsageOf(h, api, d, bodies, observed).value) == ScopeFor(api, d, ns)
  {
    hide BuildUsage, ScopeOf, UnmetReady, FieldReady, LiveScope;
    var existing := AlreadyCreated(NameOf(h, d), observed);
    var byInfo, ofInfo := InfoOf(d.dependent, bodies, observed), InfoOf(d.dependency, bodies, observed);
    var infos := map[d.dependent := byInfo][d.dependency := ofInfo];
    var scope :=
      if existing.None? || (Live(observed, d.dependent) && Live(observed, d.dependency))
      then LiveScope(api, byInfo.namespace, ofInfo.namespace)
      else ScopeOf(existing.value);
    RetainedScopeRoundTrip(h, d.dependent, d.dependency, api, scope, infos);
    if existing.None? {
      ReadyIsLive(d, observed);
    }
  }

  lemma ReadyIsLive(d: Pair, observed: Observed)
    requires PairReady(d, observed)
    ensures Live(observed, d.dependent) && Live(observed, d.dependency)
  {
  }
}
