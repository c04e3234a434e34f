/**
 Creation sequencing: when a dependency is met, and which resources of a reconcile are withheld
 (builtins/sequencer.go).
 */
module Sequencer {
  import opened Wrappers
  import opened Proto
  import opened Dependencies
  import Names

  /** Observed composed resources by composition resource name. */
  type Observed = map<string, Body>

  /** Why a dependency is unmet. */
  datatype Unmet =
    | NotObserved
    | FieldFalsy(path: string)
    | NotReady
    | NotSynced
    | NestedNotReady
    | NestedNotSynced
    | NestedNotAllTrue

  // ---------------------------------------------------------------- readiness of a resource

  /** The condition list at status.conditions. */
  function Conditions(f: Fields): seq<Value> {
    ValuesOf(Field(FieldsOf(Field(f, "status")), "conditions"))
  }

  /** The condition list at status.atProvider.manifest.status.conditions. */
  function NestedConditions(f: Fields): seq<Value> {
    Conditions(FieldsOf(Field(FieldsOf(Field(FieldsOf(Field(f, "status")), "atProvider")), "manifest")))
  }

  function TypeOf(cond: Value): string {
    StringOf(Field(FieldsOf(cond), "type"))
  }

  function StatusOf(cond: Value): string {
    StringOf(Field(FieldsOf(cond), "status"))
  }

  /** Some condition of the resource has this type and status. */
  predicate HasCondition(f: Fields, condType: string, status: string) {
    exists c :: c in Conditions(f) && TypeOf(c) == condType && StatusOf(c) == status
  }

  /** The status of the first condition of this type. */
  function FirstStatus(conds: seq<Value>, condType: string): Option<string> {
    if conds == [] then None
    else if TypeOf(conds[0]) == condType then Some(StatusOf(conds[0]))
    else FirstStatus(conds[1..], condType)
  }

  predicate Contains(s: string, part: string) {
    part <= s || (s != "" && Contains(s[1..], part))
  }

  predicate IsKubernetesObject(f: Fields) {
    var apiVersion := StringOf(Field(f, "apiVersion"));
    && (Contains(apiVersion, "kubernetes.crossplane.io/") || Contains(apiVersion, "kubernetes.m.crossplane.io/"))
    && StringOf(Field(f, "kind")) == "Object"
  }

  function NestedUnmet(conds: seq<Value>): Option<Unmet> {
    match FirstStatus(conds, "Ready")
    case Some(ready) =>
      if ready != "True" then Some(NestedNotReady)
      else
        var synced := FirstStatus(conds, "Synced");
        if synced.Some? && synced.value != "True" then Some(NestedNotSynced) else None
    case None =>
      if exists c :: c in conds && StatusOf(c) != "True" then Some(NestedNotAllTrue) else None
  }

  function UnmetReady(b: Body): Option<Unmet> {
    if b.None? then Some(NotObserved)
    else if IsKubernetesObject(b.value) && NestedConditions(b.value) != [] then
      NestedUnmet(NestedConditions(b.value))
    else if !HasCondition(b.value, "Ready", "True") then Some(NotReady)
    else if !HasCondition(b.value, "Synced", "True") then Some(NotSynced)
    else None
  }

  // ---------------------------------------------------------------- what readiness means

  /** `part` occurs in `s`. */
  ghost predicate Occurs(part: string, s: string) {
    exists i :: OccursAt(part, s, i)
  }

  ghost predicate OccursAt(part: string, s: string, i: int) {
    0 <= i <= |s| - |part| && s[i..i + |part|] == part
  }

  lemma TailOccurs(part: string, s: string, i: nat)
    requires s != ""
    ensures OccursAt(part, s, i + 1) <==> OccursAt(part, s[1..], i)
  {
    if i + 1 + |part| <= |s| {
      var a, b := s[i + 1..i + 1 + |part|], s[1..][i..i + |part|];
      assert forall k :: 0 <= k < |part| ==> a[k] == s[i + 1 + k] && b[k] == s[1..][i + k];
      assert a == b;
    }
  }

  lemma {:induction false} ContainsIff(s: string, part: string)
    ensures Contains(s, part) <==> Occurs(part, s)
  {
    assert part <= s <==> OccursAt(part, s, 0);
    if s != "" {
      ContainsIff(s[1..], part);
      if i :| OccursAt(part, s[1..], i) {
        TailOccurs(part, s, i);
      }
      if i :| OccursAt(part, s, i) && i > 0 {
        TailOccurs(part, s, i - 1);
      }
    }
  }

  /** An Object of one of the two API groups of provider-kubernetes. */
  ghost predicate IsObject(f: Fields) {
    && Says(Struct(f), "kind", "Object")
    && exists api :: Says(Struct(f), "apiVersion", api)
                     && (Occurs("kubernetes.crossplane.io/", api) || Occurs("kubernetes.m.crossplane.io/", api))
  }

  lemma ObjectIff(f: Fields)
    ensures IsKubernetesObject(f) <==> IsObject(f)
  {
    hide Contains, Occurs;
    var api := StringOf(Field(f, "apiVersion"));
    ContainsIff(api, "kubernetes.crossplane.io/");
    ContainsIff(api, "kubernetes.m.crossplane.io/");
    NotInEmpty();
    if IsKubernetesObject(f) {
      assert Says(Struct(f), "apiVersion", api);
    }
  }

  lemma NotInEmpty()
    ensures !Occurs("kubernetes.crossplane.io/", "") && !Occurs("kubernetes.m.crossplane.io/", "")
  {
    assert forall i :: !OccursAt("kubernetes.crossplane.io/", "", i) && !OccursAt("kubernetes.m.crossplane.io/", "", i);
  }

  /** The first condition of this type has status True. */
  ghost predicate FirstIsTrue(conds: seq<Value>, condType: string) {
    exists i :: 0 <= i < |conds| && Says(conds[i], "type", condType) && Says(conds[i], "status", "True")
                && forall j :: 0 <= j < i ==> !Says(conds[j], "type", condType)
  }

  ghost predicate Reports(conds: seq<Value>, condType: string) {
    exists c :: c in conds && Says(c, "type", condType)
  }

  ghost predicate ReportsTrue(conds: seq<Value>, condType: string) {
    exists c :: c in conds && Says(c, "type", condType) && Says(c, "status", "True")
  }

  lemma {:induction false} FirstStatusSpec(conds: seq<Value>, condType: string)
    requires condType != ""
    ensures FirstStatus(conds, condType).Some? <==> Reports(conds, condType)
    ensures FirstStatus(conds, condType) == Some("True") <==> FirstIsTrue(conds, condType)
  {
    hide Says, TypeOf, StatusOf;
    if conds != [] {
      var first, rest := conds[0], conds[1..];
      FirstStatusSpec(rest, condType);
      TypeSays(first, condType);
      StatusSays(first);
      assert conds == [first] + rest;
      if Says(first, "type", condType) {
        assert first in conds;
      } else {
        FirstOfRest(conds, condType);
      }
    }
  }

  lemma TypeSays(c: Value, condType: string)
    requires condType != ""
    ensures TypeOf(c) == condType <==> Says(c, "type", condType)
  {
    SaysIff(c, "type", condType);
  }

  lemma StatusSays(c: Value)
    ensures StatusOf(c) == "True" <==> Says(c, "status", "True")
  {
    SaysIff(c, "status", "True");
  }

  lemma FirstOfRest(conds: seq<Value>, condType: string)
    requires conds != [] && !Says(conds[0], "type", condType)
    ensures FirstIsTrue(conds, condType) <==> FirstIsTrue(conds[1..], condType)
  {
    hide Says;
    var rest := conds[1..];
    if FirstIsTrue(conds, condType) {
      var i :| 0 <= i < |conds| && Says(conds[i], "type", condType) && Says(conds[i], "status", "True")
               && forall j :: 0 <= j < i ==> !Says(conds[j], "type", condType);
      assert rest[i - 1] == conds[i] && forall j :: 0 <= j < i - 1 ==> rest[j] == conds[j + 1];
    }
    if FirstIsTrue(rest, condType) {
      var i :| 0 <= i < |rest| && Says(rest[i], "type", condType) && Says(rest[i], "status", "True")
               && forall j :: 0 <= j < i ==> !Says(rest[j], "type", condType);
      assert conds[i + 1] == rest[i] && forall j :: 0 < j < i + 1 ==> conds[j] == rest[j - 1];
    }
  }

  const CONDITIONS: seq<string> := ["status", "conditions"]
  const NESTED_CONDITIONS: seq<string> := ["status", "atProvider", "manifest", "status", "conditions"]

  /** The conditions by which the body is judged are these nested ones. */
  ghost predicate JudgedByNested(f: Fields, nested: seq<Value>) {
    IsObject(f) && nested != [] && LeadsTo(f, NESTED_CONDITIONS, List(nested))
  }

  ghost predicate PlainlyTrue(f: Fields, condType: string) {
    exists conds :: LeadsTo(f, CONDITIONS, List(conds)) && ReportsTrue(conds, condType)
  }

  ghost predicate NestedReady(nested: seq<Value>) {
    if Reports(nested, "Ready")
    then FirstIsTrue(nested, "Ready") && (Reports(nested, "Synced") ==> FirstIsTrue(nested, "Synced"))
    else forall c :: c in nested ==> Says(c, "status", "True")
  }

  /** When a body counts as ready. A Kubernetes Object with nested conditions is judged by them alone: if
      they report Ready, the first Ready must be True and so must the first Synced, if any; otherwise all
      must be True. Anything else needs Ready=True and Synced=True in its own conditions. */
  ghost predicate CountsAsReady(f: Fields) {
    if exists nested :: JudgedByNested(f, nested)
    then forall nested :: JudgedByNested(f, nested) ==> NestedReady(nested)
    else PlainlyTrue(f, "Ready") && PlainlyTrue(f, "Synced")
  }

  lemma ConditionsAt(f: Fields, conds: seq<Value>)
    requires conds != []
    ensures Conditions(f) == conds <==> LeadsTo(f, CONDITIONS, List(conds))
  {
    LookupExactly(f, CONDITIONS, List(conds));
    assert CONDITIONS[1..] == ["conditions"];
    assert Field(FieldsOf(Field(f, "status")), "conditions") == Lookup(f, CONDITIONS);
  }

  lemma NestedAt(f: Fields, conds: seq<Value>)
    requires conds != []
    ensures NestedConditions(f) == conds <==> LeadsTo(f, NESTED_CONDITIONS, List(conds))
  {
    LookupExactly(f, NESTED_CONDITIONS, List(conds));
    var provider := FieldsOf(Field(f, "status"));
    var manifest := FieldsOf(Field(provider, "atProvider"));
    var nested := FieldsOf(Field(manifest, "manifest"));
    var rest := ["atProvider", "manifest", "status", "conditions"];
    LookupStep(f, "status", rest);
    LookupStep(provider, "atProvider", rest[1..]);
    LookupStep(manifest, "manifest", rest[2..]);
    LookupStep(nested, "status", rest[3..]);
    assert ["status"] + rest == NESTED_CONDITIONS && ["atProvider"] + rest[1..] == rest;
    assert ["manifest"] + rest[2..] == rest[1..] && ["status"] + rest[3..] == rest[2..];
    assert Lookup(FieldsOf(Field(nested, "status")), rest[3..]) == Field(FieldsOf(Field(nested, "status")), "conditions");
  }

  lemma JudgedIff(f: Fields, nested: seq<Value>)
    ensures JudgedByNested(f, nested) <==> IsKubernetesObject(f) && nested != [] && NestedConditions(f) == nested
  {
    hide IsKubernetesObject, IsObject, NestedConditions, LeadsTo;
    ObjectIff(f);
    if nested != [] {
      NestedAt(f, nested);
    }
  }

  lemma PlainlyTrueIff(f: Fields, condType: string)
    requires condType != ""
    ensures HasCondition(f, condType, "True") <==> PlainlyTrue(f, condType)
  {
    hide Conditions, LeadsTo, TypeOf, StatusOf, Says;
    forall c
      ensures TypeOf(c) == condType <==> Says(c, "type", condType)
      ensures StatusOf(c) == "True" <==> Says(c, "status", "True")
    {
      TypeSays(c, condType);
      StatusSays(c);
    }
    if Conditions(f) != [] {
      ConditionsAt(f, Conditions(f));
    }
    forall conds | LeadsTo(f, CONDITIONS, List(conds)) && conds != []
      ensures Conditions(f) == conds
    {
      ConditionsAt(f, conds);
    }
  }

  /** Why nested conditions do not make a resource ready. */
  lemma NestedUnmetExactly(nested: seq<Value>)
    ensures match NestedUnmet(nested)
            case None => NestedReady(nested)
            case Some(NestedNotReady) => Reports(nested, "Ready") && !FirstIsTrue(nested, "Ready")
            case Some(NestedNotSynced) =>
              FirstIsTrue(nested, "Ready") && Reports(nested, "Synced") && !FirstIsTrue(nested, "Synced")
            case Some(NestedNotAllTrue) =>
              !Reports(nested, "Ready") && exists c :: c in nested && !Says(c, "status", "True")
            case _ => false
  {
    hide Says, TypeOf, StatusOf, FirstStatus;
    FirstStatusSpec(nested, "Ready");
    FirstStatusSpec(nested, "Synced");
    forall c
      ensures StatusOf(c) == "True" <==> Says(c, "status", "True")
    {
      StatusSays(c);
    }
  }

  lemma ReadyExactlyWhen(b: Body)
    ensures IsObservedReady(b) <==> b.Some? && CountsAsReady(b.value)
  {
    hide IsKubernetesObject, NestedConditions, HasCondition, NestedUnmet, NestedReady, JudgedByNested, PlainlyTrue;
    if b.Some? {
      var f := b.value;
      forall nested
        ensures JudgedByNested(f, nested) <==> IsKubernetesObject(f) && nested != [] && NestedConditions(f) == nested
      {
        JudgedIff(f, nested);
      }
      assert JudgedByNested(f, NestedConditions(f)) <==> IsKubernetesObject(f) && NestedConditions(f) != [];
      NestedReadyIff(NestedConditions(f));
      PlainlyTrueIff(f, "Ready");
      PlainlyTrueIff(f, "Synced");
    }
  }

  lemma NestedReadyIff(nested: seq<Value>)
    ensures NestedUnmet(nested).None? <==> NestedReady(nested)
  {
    hide NestedUnmet, Says;
    NestedUnmetExactly(nested);
  }

  predicate IsObservedReady(b: Body) {
    UnmetReady(b).None?
  }

  // ---------------------------------------------------------------- dependencies

  function UnmetReason(d: Pair, observed: Observed): Option<Unmet> {
    if d.dependency !in observed then Some(NotObserved)
    else if d.fieldPath != "" then
      if FieldReady(observed[d.dependency], d.fieldPath) then None else Some(FieldFalsy(d.fieldPath))
    else UnmetReady(observed[d.dependency])
  }

  predicate Met(d: Pair, observed: Observed) {
    UnmetReason(d, observed).None?
  }

  /** When a dependency is met, written out: the body at its name counts as ready, or, with a field path,
      the path leads to a value other than null, the empty string, zero and false. */
  ghost predicate Satisfied(d: Pair, observed: Observed) {
    && d.dependency in observed && observed[d.dependency].Some?
    && var f := observed[d.dependency].value;
    if d.fieldPath == "" then CountsAsReady(f) else LeadsToSomething(f, d.fieldPath)
  }

  ghost predicate LeadsToSomething(f: Fields, path: string) {
    exists v :: LeadsTo(f, Split(path), v) && v !in {Nil, Null, Str(""), Num(Finite(0.0)), Bool(false)}
  }

  lemma FieldReadyIff(f: Fields, path: string)
    ensures FieldReady(Some(f), path) <==> LeadsToSomething(f, path)
  {
    hide Truthy, Lookup, LeadsTo, Split;
    var v := Lookup(f, Split(path));
    TruthyExactlyWhen(v);
    if v != Nil {
      LookupExactly(f, Split(path), v);
    }
    forall w | LeadsTo(f, Split(path), w) && w != Nil
      ensures w == v
    {
      LookupExactly(f, Split(path), w);
    }
  }

  lemma MetExactlyWhen(d: Pair, observed: Observed)
    ensures Met(d, observed) <==> Satisfied(d, observed)
  {
    hide UnmetReady, CountsAsReady, FieldReady, LeadsToSomething;
    if d.dependency in observed {
      ReadyExactlyWhen(observed[d.dependency]);
      if observed[d.dependency].Some? {
        FieldReadyIff(observed[d.dependency].value, d.fieldPath);
      } else {
        NoBodyIsNotReady(d.fieldPath);
      }
    }
  }

  lemma NoBodyIsNotReady(path: string)
    ensures !FieldReady(None, path) && UnmetReady(None) == Some(NotObserved)
  {
  }

  /** Which reason is given for an unmet dependency; the cases exclude each other. */
  ghost predicate IsReason(d: Pair, observed: Observed, why: Unmet) {
    var body := if d.dependency in observed then observed[d.dependency] else None;
    match why
    case NotObserved => d.dependency !in observed || (d.fieldPath == "" && body.None?)
    case FieldFalsy(path) => d.dependency in observed && path == d.fieldPath != ""
    case NotReady => d.fieldPath == "" && body.Some? && UnmetPlainly(body.value) && !PlainlyTrue(body.value, "Ready")
    case NotSynced => d.fieldPath == "" && body.Some? && UnmetPlainly(body.value) && PlainlyTrue(body.value, "Ready")
    case NestedNotReady =>
      d.fieldPath == "" && body.Some?
      && exists nested :: JudgedByNested(body.value, nested) && Reports(nested, "Ready") && !FirstIsTrue(nested, "Ready")
    case NestedNotSynced =>
      d.fieldPath == "" && body.Some?
      && exists nested :: JudgedByNested(body.value, nested) && FirstIsTrue(nested, "Ready")
    case NestedNotAllTrue =>
      d.fieldPath == "" && body.Some?
      && exists nested :: JudgedByNested(body.value, nested) && !Reports(nested, "Ready")
  }

  /** The body has no nested conditions to be judged by. */
  ghost predicate UnmetPlainly(f: Fields) {
    !exists nested :: JudgedByNested(f, nested)
  }

  lemma UnmetReasonExactly(d: Pair, observed: Observed)
    ensures match UnmetReason(d, observed)
            case None => Satisfied(d, observed)
            case Some(why) => !Satisfied(d, observed) && IsReason(d, observed, why)
  {
    hide UnmetReady, Satisfied, FieldReady, JudgedByNested, PlainlyTrue, Reports, FirstIsTrue;
    MetExactlyWhen(d, observed);
    if d.dependency in observed && d.fieldPath == "" && observed[d.dependency].Some? {
      UnmetReadyExactly(observed[d.dependency].value);
    } else {
      NoBodyIsNotReady(d.fieldPath);
    }
  }

  lemma UnmetReadyExactly(f: Fields)
    ensures match UnmetReady(Some(f))
            case None => true
            case Some(NotReady) => UnmetPlainly(f) && !PlainlyTrue(f, "Ready")
            case Some(NotSynced) => UnmetPlainly(f) && PlainlyTrue(f, "Ready")
            case Some(NestedNotReady) =>
              exists nested :: JudgedByNested(f, nested) && Reports(nested, "Ready") && !FirstIsTrue(nested, "Ready")
            case Some(NestedNotSynced) => exists nested :: JudgedByNested(f, nested) && FirstIsTrue(nested, "Ready")
            case Some(NestedNotAllTrue) => exists nested :: JudgedByNested(f, nested) && !Reports(nested, "Ready")
            case _ => false
  {
    hide IsKubernetesObject, NestedConditions, HasCondition, NestedUnmet, JudgedByNested, PlainlyTrue, Reports, FirstIsTrue, Says;
    forall nested
      ensures JudgedByNested(f, nested) <==> IsKubernetesObject(f) && nested != [] && NestedConditions(f) == nested
    {
      JudgedIff(f, nested);
    }
    NestedUnmetExactly(NestedConditions(f));
    PlainlyTrueIff(f, "Ready");
  }

  /** Some declared dependency of the name is not met. */
  ghost predicate Waits(deps: seq<Pair>, observed: Observed, name: string) {
    exists d :: d in deps && d.dependent == name && !Satisfied(d, observed)
  }

  lemma WithheldExactly(deps: seq<Pair>, observed: Observed, name: string)
    ensures name in Withheld(deps, observed) <==> name !in observed && Waits(deps, observed, name)
  {
    hide Met, Satisfied;
    forall d
      ensures Met(d, observed) <==> Satisfied(d, observed)
    {
      MetExactlyWhen(d, observed);
    }
  }

  /** The names that are withheld: not yet observed, with an unmet dependency. */
  function Withheld(deps: seq<Pair>, observed: Observed): set<string> {
    set d | d in deps && !Met(d, observed) && d.dependent !in observed :: d.dependent
  }

  /** One unmet dependency of a resource. */
  datatype Wait = Wait(dependency: string, why: Unmet)

  datatype GatingDefer = GatingDefer(name: string, waits: seq<Wait>)

  datatype SequencerResult = SequencerResult(deferred: seq<string>, gatingDefers: seq<GatingDefer>, anyDeferred: bool)

  /** The unmet dependencies of `name` in declaration order. */
  function WaitsOf(deps: seq<Pair>, observed: Observed, name: string): seq<Wait> {
    if deps == [] then []
    else
      var before, d := WaitsOf(deps[..|deps| - 1], observed, name), deps[|deps| - 1];
      if d.dependent == name && !Met(d, observed)
      then before + [Wait(d.dependency, UnmetReason(d, observed).value)]
      else before
  }

  /** A name waits for something exactly when one of its dependencies is unmet. */
  lemma {:induction false} WaitsIffUnmet(deps: seq<Pair>, observed: Observed, name: string)
    ensures WaitsOf(deps, observed, name) != [] <==> exists d :: d in deps && d.dependent == name && !Met(d, observed)
  {
    if deps != [] {
      var before, d := deps[..|deps| - 1], deps[|deps| - 1];
      assert deps == before + [d];
      WaitsIffUnmet(before, observed, name);
    }
  }

  /** It lists exactly its unmet dependencies, each with the reason. */
  lemma {:induction false} WaitsAreUnmet(deps: seq<Pair>, observed: Observed, name: string, w: Wait)
    ensures w in WaitsOf(deps, observed, name) <==>
      exists d :: d in deps && d.dependent == name && d.dependency == w.dependency && UnmetReason(d, observed) == Some(w.why)
  {
    hide UnmetReason;
    if deps != [] {
      var before, d := deps[..|deps| - 1], deps[|deps| - 1];
      assert deps == before + [d];
      WaitsAreUnmet(before, observed, name, w);
    }
  }

  ghost predicate IsWaitFor(d: Pair, observed: Observed, name: string, w: Wait) {
    d.dependent == name && d.dependency == w.dependency && UnmetReason(d, observed) == Some(w.why)
  }

  /** They are listed in the order of declaration, one for each unmet dependency. */
  ghost predicate ListsUnmet(deps: seq<Pair>, observed: Observed, name: string, waits: seq<Wait>) {
    Picks(deps, waits, (d: Pair) => d.dependent == name && !Met(d, observed),
          (d: Pair, w: Wait) => IsWaitFor(d, observed, name, w))
  }

  lemma {:induction false} WaitsInOrder(deps: seq<Pair>, observed: Observed, name: string)
    ensures ListsUnmet(deps, observed, name, WaitsOf(deps, observed, name))
  {
    hide UnmetReason, Picks;
    var wanted := (d: Pair) => d.dependent == name && !Met(d, observed);
    var made := (d: Pair, w: Wait) => IsWaitFor(d, observed, name, w);
    if deps == [] {
      PicksNil(wanted, made);
    } else {
      var before, d := deps[..|deps| - 1], deps[|deps| - 1];
      var waits := WaitsOf(before, observed, name);
      assert deps == before + [d];
      WaitsInOrder(before, observed, name);
      if wanted(d) {
        PicksTake(before, waits, wanted, made, d, Wait(d.dependency, UnmetReason(d, observed).value));
      } else {
        PicksSkip(before, waits, wanted, made, d);
      }
    }
  }

  /** The withheld resources in sorted order, each with all its unmet dependencies. */
  ghost function DefersOf(deps: seq<Pair>, observed: Observed): seq<GatingDefer> {
    var names := Names.Sorted(Withheld(deps, observed));
    seq(|names|, i requires 0 <= i < |names| => GatingDefer(names[i], WaitsOf(deps, observed, names[i])))
  }

  /** The first loop of Evaluate: the unmet dependencies of every dependent. */
  method CollectUnmet(deps: seq<Pair>, observed: Observed) returns (unmet: map<string, seq<Wait>>)
    ensures forall n :: n in unmet <==> WaitsOf(deps, observed, n) != []
    ensures forall n :: n in unmet ==> unmet[n] == WaitsOf(deps, observed, n)
  {
    unmet := map[];
    var i := 0;
    while i < |deps|
      invariant 0 <= i <= |deps|
      invariant forall n :: n in unmet <==> WaitsOf(deps[..i], observed, n) != []
      invariant forall n :: n in unmet ==> unmet[n] == WaitsOf(deps[..i], observed, n)
    {
      var d := deps[i];
      var reason := UnmetReason(d, observed);
      assert deps[..i + 1][..i] == deps[..i];
      if reason.Some? {
        var before := if d.dependent in unmet then unmet[d.dependent] else [];
        unmet := unmet[d.dependent := before + [Wait(d.dependency, reason.value)]];
      }
      i := i + 1;
    }
    assert deps[..i] == deps;
  }

  /** Withholds exactly the unobserved resources with an unmet dependency, in sorted order, each
      with all its unmet dependencies; a resource that is observed is never withheld. */
  method Evaluate(deps: seq<Pair>, observed: Observed) returns (r: SequencerResult)
    ensures Names.Ascending(r.deferred)
    ensures forall n :: n in r.deferred <==> n !in observed && Waits(deps, observed, n)
    ensures forall n :: n in r.deferred <==> n in Withheld(deps, observed)
    ensures r.gatingDefers == DefersOf(deps, observed)
    ensures r.anyDeferred <==> Withheld(deps, observed) != {}
  {
    hide Met, UnmetReason, WaitsOf, Withheld, Waits;
    var unmet := CollectUnmet(deps, observed);
    var unobserved := set n | n in unmet && n !in observed;
    WaitingUnobserved(deps, observed, unobserved);
    var deferred := Names.SortNames(unobserved);
    assert |deferred| > 0 ==> deferred[0] in deferred;
    forall n
      ensures n in Withheld(deps, observed) <==> n !in observed && Waits(deps, observed, n)
    {
      WithheldExactly(deps, observed, n);
    }
    var gating := DescribeWaits(deps, observed, unmet, deferred);
    r := SequencerResult(deferred, gating, |deferred| > 0);
  }

  lemma WaitingUnobserved(deps: seq<Pair>, observed: Observed, names: set<string>)
    requires forall n :: n in names <==> WaitsOf(deps, observed, n) != [] && n !in observed
    ensures names == Withheld(deps, observed)
  {
    hide Met, WaitsOf;
    forall n
      ensures n in names <==> n in Withheld(deps, observed)
    {
      WaitsIffUnmet(deps, observed, n);
    }
  }

  /** The second loop of Evaluate: each deferred resource with its unmet dependencies. */
  method DescribeWaits(ghost deps: seq<Pair>, ghost observed: Observed, unmet: map<string, seq<Wait>>, deferred: seq<string>)
    returns (gating: seq<GatingDefer>)
    requires forall n :: n in deferred ==> n in unmet && unmet[n] == WaitsOf(deps, observed, n)
    ensures |gating| == |deferred|
    ensures forall k :: 0 <= k < |gating| ==> gating[k] == GatingDefer(deferred[k], WaitsOf(deps, observed, deferred[k]))
  {
    hide WaitsOf;
    gating := [];
    var i := 0;
    while i < |deferred|
      invariant 0 <= i <= |deferred| && |gating| == i
      invariant forall k :: 0 <= k < i ==> gating[k] == GatingDefer(deferred[k], WaitsOf(deps, observed, deferred[k]))
    {
      gating := gating + [GatingDefer(deferred[i], unmet[deferred[i]])];
      i := i + 1;
    }
  }
}
