/**
 The collector that a script run fills through the Resource(), skip_resource(),
 set_composite_ready() and set_condition() builtins (builtins/collector.go,
 builtins/conditions.go).
 */
module Collector {
  import opened Wrappers
  import opened Proto
  import opened Dependencies
  import opened Sequencer

  datatype Ready = Unspecified | ReadyTrue | ReadyFalse

  datatype Collected = Collected(body: Fields, ready: Ready, connection: map<string, string>)

  datatype GatingSkip = GatingSkip(name: string, reason: string)

  /** A message is a given text, or lists what blocks the composite. */
  datatype Message = Words(text: string) | Blocked(skips: seq<GatingSkip>, defers: seq<GatingDefer>)

  datatype Condition = Condition(condType: string, status: string, reason: string, message: Message, target: string)

  /** An explicit set_composite_ready() call. */
  datatype Override = Override(ready: bool, reason: string, message: string)

  const COMPOSITE_READY := "ComposedResourcesReady"
  const COMPOSITE_AND_CLAIM := "CompositeAndClaim"

  // ---------------------------------------------------------------- what a script may call

  datatype When = When(condition: bool, reason: string, keepIfExists: bool, optional: bool)

  /** The first element of a (reference, field path) tuple. */
  datatype First = RefFirst(name: string) | SkippedFirst(name: string) | TextFirst(name: string) | OtherFirst

  /** An element of depends_on. A tuple path that is not a string is None. */
  datatype Item =
    | NoneItem
    | Ref(name: string)
    | Skipped(name: string)
    | Text(name: string)
    | Tuple(first: First, path: Option<string>)
    | OddTuple
    | OtherItem

  /** The body argument after conversion; `Unusable` stands for every body, label or annotation
      argument that the builtin rejects. */
  datatype BodyArg = NoneBody | Usable(fields: Fields) | Unusable

  /** A builtin call with its arguments; None for `when`, `ready` or connection details of the wrong
      type. */
  datatype Call =
    | Resource(name: string, gate: Option<Option<When>>, body: BodyArg, dependsOn: seq<Item>, ready: Option<Ready>,
               connection: Option<map<string, string>>)
    | SkipResource(name: string, reason: string)
    | SetCompositeReady(override: Override)
    | SetCondition(condition: Condition)

  /** What a call returns to the script. */
  datatype Handle = Created(name: string) | SkippedHandle(name: string) | Nothing

  // ---------------------------------------------------------------- the collected state

  datatype State = State(
    resources: map<string, Collected>,
    skipped: set<string>,
    gatingSkips: seq<GatingSkip>,
    deps: seq<Pair>,
    override: Option<Override>,
    conditions: seq<Condition>)

  const EMPTY := State(map[], {}, [], [], None, [])

  function RecordSkip(c: State, name: string, reason: string, gate: bool): State {
    if name in c.skipped then c
    else c.(skipped := c.skipped + {name},
            gatingSkips := if gate then c.gatingSkips + [GatingSkip(name, reason)] else c.gatingSkips)
  }

  /** The first skipped reference among the items, alone or as the first element of a pair. */
  function SkipTrigger(items: seq<Item>): Option<string> {
    if items == [] then None
    else match items[0]
         case Skipped(n) => Some(n)
         case Tuple(SkippedFirst(n), _) => Some(n)
         case _ => SkipTrigger(items[1..])
  }

  /** The dependency that one item adds: Err when it is malformed, Ok(None) when it adds none. */
  function PairOf(name: string, item: Item): Result<Option<Pair>, ()> {
    match item
    case NoneItem | Skipped(_) => Ok(None)
    case Ref(n) => Ok(Some(Pair(name, n, true, "")))
    case Text(n) => Ok(Some(Pair(name, n, false, "")))
    case OddTuple | OtherItem => Err(())
    case Tuple(first, path) =>
      match first
      case OtherFirst => Err(())
      case SkippedFirst(_) => Ok(None)
      case RefFirst(n) => if path.None? || path.value == "" then Err(()) else Ok(Some(Pair(name, n, true, path.value)))
      case TextFirst(n) => if path.None? || path.value == "" then Err(()) else Ok(Some(Pair(name, n, false, path.value)))
  }

  /** The dependencies that a depends_on list adds, in order. */
  function PairsOf(name: string, items: seq<Item>): Result<seq<Pair>, ()> {
    if items == [] then Ok([])
    else
      var before, last := PairsOf(name, items[..|items| - 1]), PairOf(name, items[|items| - 1]);
      if before.Err? || last.Err? then Err(())
      else if last.value.None? then before
      else Ok(before.value + [last.value.value])
  }

  /** The outcome of one call; a failed call halts the script. */
  datatype Outcome = Halts | Returns(state: State, handle: Handle)

  /** The bodies that keep_if_exists may re-emit: observed resources stripped of read-only fields,
      None where the observed body cannot be converted. */
  type Kept = map<string, Option<Fields>>

  function CallResource(c: State, kept: Kept, call: Call): Outcome
    requires call.Resource?
  {
    var name := call.name;
    match call.gate
    case None => Halts
    case Some(w) =>
      if w.Some? && !w.value.condition then
        var gating := !w.value.optional;
        if w.value.keepIfExists && name in kept then
          if kept[name].None? then Halts
          else Returns(c.(resources := c.resources[name := Collected(kept[name].value, Unspecified, map[])]), Created(name))
        else Returns(RecordSkip(c, name, w.value.reason, gating), SkippedHandle(name))
      else if call.body.NoneBody? then Returns(RecordSkip(c, name, "body is None", true), SkippedHandle(name))
      else if SkipTrigger(call.dependsOn).Some? then
        Returns(RecordSkip(c, name, "depends on skipped " + SkipTrigger(call.dependsOn).value, true), SkippedHandle(name))
      else if call.body.Unusable? then Halts
      else
        var pairs := PairsOf(name, call.dependsOn);
        if call.connection.None? || pairs.Err? || call.ready.None? then Halts
        else
          var collected := Collected(call.body.fields, call.ready.value, call.connection.value);
          Returns(c.(deps := c.deps + pairs.value, resources := c.resources[name := collected]), Created(name))
  }

  function Perform(c: State, kept: Kept, call: Call): Outcome {
    match call
    case Resource(_, _, _, _, _, _) => CallResource(c, kept, call)
    case SkipResource(name, reason) =>
      if name in c.resources then Halts else Returns(RecordSkip(c, name, reason, false), Nothing)
    case SetCompositeReady(o) => Returns(c.(override := Some(o)), Nothing)
    case SetCondition(cond) =>
      if cond.condType == COMPOSITE_READY then Halts else Returns(c.(conditions := c.conditions + [cond]), Nothing)
  }

  // ---------------------------------------------------------------- what gates a resource

  predicate RefersToSkipped(item: Item) {
    item.Skipped? || (item.Tuple? && item.first.SkippedFirst?)
  }

  function SkippedName(item: Item): string
    requires RefersToSkipped(item)
  {
    if item.Skipped? then item.name else item.first.name
  }

  /** The first item that refers to something skipped refers to `n`. */
  ghost predicate FirstSkipped(items: seq<Item>, n: string) {
    exists i :: FirstSkippedAt(items, n, i)
  }

  ghost predicate FirstSkippedAt(items: seq<Item>, n: string, i: int) {
    && 0 <= i < |items| && RefersToSkipped(items[i]) && SkippedName(items[i]) == n
    && forall j :: 0 <= j < i ==> !RefersToSkipped(items[j])
  }

  lemma {:induction false} SkipTriggerIff(items: seq<Item>)
    ensures SkipTrigger(items).Some? <==> exists item :: item in items && RefersToSkipped(item)
    ensures SkipTrigger(items).Some? ==> FirstSkipped(items, SkipTrigger(items).value)
  {
    if items != [] {
      var rest := items[1..];
      SkipTriggerIff(rest);
      assert items == [items[0]] + rest;
      if RefersToSkipped(items[0]) {
        assert items[0] in items && FirstSkippedAt(items, SkippedName(items[0]), 0);
      } else if SkipTrigger(rest).Some? {
        var n := SkipTrigger(rest).value;
        var i :| FirstSkippedAt(rest, n, i);
        assert items[i + 1] == rest[i] && forall j :: 0 < j < i + 1 ==> items[j] == rest[j - 1];
        assert FirstSkippedAt(items, n, i + 1);
      }
    }
  }

  // ---------------------------------------------------------------- what depends_on records

  /** An item that names a dependency. */
  predicate NamesDependency(item: Item) {
    item.Ref? || item.Text? || (item.Tuple? && (item.first.RefFirst? || item.first.TextFirst?))
  }

  /** A tuple of the wrong length, another type, or a tuple without a non-empty field path. */
  predicate Malformed(item: Item) {
    || item.OddTuple? || item.OtherItem?
    || (item.Tuple? && (item.first.OtherFirst? || (!item.first.SkippedFirst? && (item.path.None? || item.path.value == ""))))
  }

  /** The pair that declares the dependency named by the item. */
  predicate Declares(name: string, item: Item, d: Pair) {
    && d.dependent == name
    && (|| (item == Ref(d.dependency) && d.isRef && d.fieldPath == "")
        || (item == Text(d.dependency) && !d.isRef && d.fieldPath == "")
        || (item == Tuple(RefFirst(d.dependency), Some(d.fieldPath)) && d.isRef && d.fieldPath != "")
        || (item == Tuple(TextFirst(d.dependency), Some(d.fieldPath)) && !d.isRef && d.fieldPath != ""))
  }

  /** One pair for each item that names a dependency, in order. */
  ghost predicate DeclaresAll(name: string, items: seq<Item>, pairs: seq<Pair>) {
    Picks(items, pairs, (item: Item) => NamesDependency(item), (item: Item, d: Pair) => Declares(name, item, d))
  }

  /** A list records exactly the dependencies it names, in order, and fails exactly on a malformed item. */
  lemma {:induction false} PairsExactly(name: string, items: seq<Item>)
    ensures PairsOf(name, items).Err? <==> exists item :: item in items && Malformed(item)
    ensures PairsOf(name, items).Ok? ==> DeclaresAll(name, items, PairsOf(name, items).value)
  {
    hide Picks, Malformed, NamesDependency, Declares, PairOf;
    var wanted, made := (item: Item) => NamesDependency(item), (item: Item, d: Pair) => Declares(name, item, d);
    if items == [] {
      PicksNil(wanted, made);
    } else {
      var before, last := items[..|items| - 1], items[|items| - 1];
      assert items == before + [last];
      PairsExactly(name, before);
      PairExactly(name, last);
      if PairsOf(name, items).Ok? {
        if NamesDependency(last) {
          PicksTake(before, PairsOf(name, before).value, wanted, made, last, PairOf(name, last).value.value);
        } else {
          PicksSkip(before, PairsOf(name, before).value, wanted, made, last);
        }
      }
    }
  }

  lemma PairExactly(name: string, item: Item)
    ensures PairOf(name, item).Err? <==> Malformed(item)
    ensures PairOf(name, item).Ok? ==> (PairOf(name, item).value.Some? <==> NamesDependency(item))
    ensures PairOf(name, item).Ok? && NamesDependency(item) ==> Declares(name, item, PairOf(name, item).value.value)
  {
    match item
    case Tuple(first, path) =>
      if PairOf(name, item).Ok? && NamesDependency(item) {
        var d := PairOf(name, item).value.value;
        assert path == Some(d.fieldPath) && (first == RefFirst(d.dependency) || first == TextFirst(d.dependency));
      }
    case _ =>
  }

  lemma DeclaresOnce(name: string, item: Item, d: Pair, e: Pair)
    requires Declares(name, item, d) && Declares(name, item, e)
    ensures d == e
  {
    match item
    case Ref(n) => assert d == Pair(name, n, true, "") && e == d;
    case Text(n) => assert d == Pair(name, n, false, "") && e == d;
    case Tuple(first, path) => assert d.dependency == e.dependency && Some(d.fieldPath) == path == Some(e.fieldPath);
    case _ =>
  }

  lemma DeclaresDependency(name: string, item: Item, d: Pair)
    requires Declares(name, item, d)
    ensures NamesDependency(item)
  {
    if item.Tuple? {
      assert item.first == RefFirst(d.dependency) || item.first == TextFirst(d.dependency);
    }
  }

  /** Hence a pair is recorded exactly when an item declares it. */
  lemma RecordedIff(name: string, items: seq<Item>, pairs: seq<Pair>, d: Pair)
    requires DeclaresAll(name, items, pairs)
    ensures d in pairs <==> exists item :: item in items && Declares(name, item, d)
  {
    hide Picks, Declares, NamesDependency;
    PickedMembers(items, pairs, (item: Item) => NamesDependency(item), (item: Item, d: Pair) => Declares(name, item, d));
    if item :| item in items && Declares(name, item, d) {
      DeclaresDependency(name, item, d);
      var e :| e in pairs && Declares(name, item, e);
      DeclaresOnce(name, item, d, e);
    }
  }

  // ---------------------------------------------------------------- what a call does

  /** The call passes its own gate. */
  predicate Wanted(call: Call)
    requires call.Resource?
  {
    call.gate.Some? && (call.gate.value.None? || call.gate.value.value.condition)
  }

  ghost predicate RefersToAnySkipped(call: Call)
    requires call.Resource?
  {
    exists item :: item in call.dependsOn && RefersToSkipped(item)
  }

  /** The gate is closed with keep_if_exists, and the resource is observed. */
  predicate IsPreserved(call: Call, kept: Kept)
    requires call.Resource? && call.gate.Some?
  {
    !Wanted(call) && call.gate.value.value.keepIfExists && call.name in kept
  }

  /** Why a skipped call is skipped. */
  ghost predicate IsSkipReason(call: Call, reason: string)
    requires call.Resource? && call.gate.Some?
  {
    if !Wanted(call) then reason == call.gate.value.value.reason
    else if call.body.NoneBody? then reason == "body is None"
    else exists n :: FirstSkipped(call.dependsOn, n) && reason == "depends on skipped " + n
  }

  /** What a call that returns does. It emits its body with the dependencies it names exactly when its gate
      is open, it has a body and refers to nothing skipped; it re-emits the observed body exactly when its
      gate is closed with keep_if_exists and there is one; otherwise it emits nothing and is skipped. A skip
      blocks the composite the first time, unless its own closed gate says it is optional. Nothing else
      changes. */
  lemma ResourceCallDecides(c: State, kept: Kept, call: Call)
    requires call.Resource? && Perform(c, kept, call).Returns?
    ensures var Returns(t, h) := Perform(c, kept, call);
            && call.gate.Some? && t.override == c.override && t.conditions == c.conditions
            && if Wanted(call) && !call.body.NoneBody? && !RefersToAnySkipped(call) then
                 && h == Created(call.name) && t.skipped == c.skipped && t.gatingSkips == c.gatingSkips
                 && call.body.Usable? && call.ready.Some? && call.connection.Some?
                 && t.resources
                    == c.resources[call.name := Collected(call.body.fields, call.ready.value, call.connection.value)]
                 && exists added :: t.deps == c.deps + added && DeclaresAll(call.name, call.dependsOn, added)
               else if IsPreserved(call, kept) then
                 && h == Created(call.name) && t.skipped == c.skipped && t.gatingSkips == c.gatingSkips
                 && kept[call.name].Some? && t.deps == c.deps
                 && t.resources == c.resources[call.name := Collected(kept[call.name].value, Unspecified, map[])]
               else
                 && h == SkippedHandle(call.name) && t.resources == c.resources && t.deps == c.deps
                 && t.skipped == c.skipped + {call.name}
                 && if call.name !in c.skipped && (Wanted(call) || !call.gate.value.value.optional)
                    then exists reason :: IsSkipReason(call, reason)
                                          && t.gatingSkips == c.gatingSkips + [GatingSkip(call.name, reason)]
                    else t.gatingSkips == c.gatingSkips
  {
    hide PairsOf, DeclaresAll, FirstSkipped, SkipTrigger;
    SkipTriggerIff(call.dependsOn);
    PairsExactly(call.name, call.dependsOn);
    var Returns(t, h) := Perform(c, kept, call);
    if h.Created? && Wanted(call) {
      assert t.deps == c.deps + PairsOf(call.name, call.dependsOn).value;
    }
    if h.SkippedHandle? && call.name !in c.skipped && (Wanted(call) || !call.gate.value.value.optional) {
      var reason := t.gatingSkips[|c.gatingSkips|].reason;
      assert IsSkipReason(call, reason) && t.gatingSkips == c.gatingSkips + [GatingSkip(call.name, reason)];
    }
  }

  /** When a call fails: on a gate of the wrong type, on an observed body that cannot be kept, and on an
      emission with an unusable body, a malformed dependency, or readiness or connection details of the
      wrong type. */
  lemma ResourceCallHalts(c: State, kept: Kept, call: Call)
    requires call.Resource?
    ensures Perform(c, kept, call).Halts? <==>
      || call.gate.None?
      || (IsPreserved(call, kept) && kept[call.name].None?)
      || (Wanted(call) && !call.body.NoneBody? && !RefersToAnySkipped(call)
          && (call.body.Unusable? || call.ready.None? || call.connection.None?
              || exists item :: item in call.dependsOn && Malformed(item)))
  {
    hide PairsOf, Malformed, SkipTrigger, FirstSkipped, DeclaresAll;
    SkipTriggerIff(call.dependsOn);
    PairsExactly(call.name, call.dependsOn);
  }

  /** The other builtins: a skip of a collected resource and a condition of the reserved type fail; a skip
      is recorded without gating, the last override counts, and conditions are appended. */
  lemma OtherCallsDecide(c: State, kept: Kept, call: Call)
    requires !call.Resource?
    ensures Perform(c, kept, call).Halts? <==>
      || (call.SkipResource? && call.name in c.resources)
      || (call.SetCondition? && call.condition.condType == "ComposedResourcesReady")
    ensures Perform(c, kept, call).Returns? ==>
      var Returns(t, h) := Perform(c, kept, call);
      && h == Nothing && t.resources == c.resources && t.deps == c.deps && t.gatingSkips == c.gatingSkips
      && t.skipped == (if call.SkipResource? then c.skipped + {call.name} else c.skipped)
      && t.override == (if call.SetCompositeReady? then Some(call.override) else c.override)
      && t.conditions == (if call.SetCondition? then c.conditions + [call.condition] else c.conditions)
  {
  }

  // ---------------------------------------------------------------- every script run

  /** The references among the items name resources whose handle the script holds. */
  ghost predicate GenuineItem(item: Item, handles: set<string>) {
    match item
    case Ref(n) => n in handles
    case Tuple(RefFirst(n), _) => n in handles
    case _ => true
  }

  ghost predicate GenuineCall(call: Call, handles: set<string>) {
    call.Resource? ==> forall item :: item in call.dependsOn ==> GenuineItem(item, handles)
  }

  function WithHandle(handles: set<string>, h: Handle): set<string> {
    if h.Created? then handles + {h.name} else handles
  }

  /** A successful run of the calls from `c`: none halts, and handles come from earlier calls. */
  ghost predicate RunsTo(c: State, kept: Kept, handles: set<string>, calls: seq<Call>, end: State)
    decreases |calls|
  {
    if calls == [] then c == end
    else
      && GenuineCall(calls[0], handles)
      && var out := Perform(c, kept, calls[0]);
      && out.Returns?
      && RunsTo(out.state, kept, WithHandle(handles, out.handle), calls[1..], end)
  }

  /** Handles and dependents name collected resources, so do handle dependencies; every gating skip is
      recorded as skipped, once; the reserved condition is not among the collected ones. */
  ghost predicate Coherent(c: State, handles: set<string>) {
    && handles <= c.resources.Keys
    && (forall d :: d in c.deps ==> d.dependent in c.resources && (d.isRef ==> d.dependency in c.resources))
    && (forall i :: 0 <= i < |c.gatingSkips| ==> c.gatingSkips[i].name in c.skipped)
    && (forall i, j :: 0 <= i < j < |c.gatingSkips| ==> c.gatingSkips[i].name != c.gatingSkips[j].name)
    && (forall k :: k in c.conditions ==> k.condType != COMPOSITE_READY)
  }

  lemma {:induction false} PairsAreGenuine(name: string, items: seq<Item>, handles: set<string>)
    requires PairsOf(name, items).Ok?
    requires forall item :: item in items ==> GenuineItem(item, handles)
    ensures forall d :: d in PairsOf(name, items).value ==> d.dependent == name && (d.isRef ==> d.dependency in handles)
  {
    if items != [] {
      PairsAreGenuine(name, items[..|items| - 1], handles);
      assert items[|items| - 1] in items;
    }
  }

  lemma SkipCoherent(c: State, handles: set<string>, name: string, reason: string, gate: bool)
    requires Coherent(c, handles)
    ensures Coherent(RecordSkip(c, name, reason, gate), handles)
  {
  }

  lemma CallCoherent(c: State, kept: Kept, handles: set<string>, call: Call)
    requires Coherent(c, handles) && GenuineCall(call, handles) && Perform(c, kept, call).Returns?
    ensures var Returns(t, h) := Perform(c, kept, call);
            Coherent(t, WithHandle(handles, h))
  {
    hide Coherent, RecordSkip, PairsOf;
    var Returns(t, h) := Perform(c, kept, call);
    match call
    case SkipResource(name, reason) => SkipCoherent(c, handles, name, reason, false);
    case SetCompositeReady(o) => OverrideCoherent(c, handles, o);
    case SetCondition(cond) => ConditionCoherent(c, handles, cond);
    case Resource(name, _, _, items, _, _) =>
      if h.Created? {
        if t.deps == c.deps {
          EmitCoherent(c, handles, name, t.resources[name], []);
          assert c.deps + [] == c.deps;
        } else {
          PairsAreGenuine(name, items, handles);
          EmitCoherent(c, handles, name, t.resources[name], PairsOf(name, items).value);
        }
      } else {
        forall reason, gate
          ensures Coherent(RecordSkip(c, name, reason, gate), handles)
        {
          SkipCoherent(c, handles, name, reason, gate);
        }
      }
  }

  lemma EmitCoherent(c: State, handles: set<string>, name: string, r: Collected, pairs: seq<Pair>)
    requires Coherent(c, handles)
    requires forall d :: d in pairs ==> d.dependent == name && (d.isRef ==> d.dependency in handles)
    ensures Coherent(c.(deps := c.deps + pairs, resources := c.resources[name := r]), handles + {name})
  {
  }

  lemma OverrideCoherent(c: State, handles: set<string>, o: Override)
    requires Coherent(c, handles)
    ensures Coherent(c.(override := Some(o)), handles)
  {
  }

  lemma ConditionCoherent(c: State, handles: set<string>, cond: Condition)
    requires Coherent(c, handles) && cond.condType != COMPOSITE_READY
    ensures Coherent(c.(conditions := c.conditions + [cond]), handles)
  {
  }

  lemma {:induction false} RunCoherent(c: State, kept: Kept, handles: set<string>, calls: seq<Call>, end: State)
    requires Coherent(c, handles) && RunsTo(c, kept, handles, calls, end)
    ensures Coherent(end, {})
    decreases |calls|
  {
    hide Perform;
    if calls != [] {
      CallCoherent(c, kept, handles, calls[0]);
      var out := Perform(c, kept, calls[0]);
      RunCoherent(out.state, kept, WithHandle(handles, out.handle), calls[1..], end);
    }
  }

  /** At the end of every successful script run the missing-target check cannot fail, every dependent
      is collected, only collected names can be withheld, and withholding splits the collected
      resources into those emitted and those deferred. */
  lemma ScriptRunIsSound(kept: Kept, calls: seq<Call>, end: State, observed: Observed)
    requires RunsTo(EMPTY, kept, {}, calls, end)
    ensures AllTargetsExist(end.deps, end.resources.Keys)
    ensures Coherent(end, {})
    ensures var withheld := Withheld(end.deps, observed);
            var emitted := (end.resources - withheld).Keys;
            withheld <= end.resources.Keys && emitted !! withheld && emitted + withheld == end.resources.Keys
  {
    hide Perform, Met;
    RunCoherent(EMPTY, kept, {}, calls, end);
  }

  // ---------------------------------------------------------------- the collecting object

  /** The collectors of one reconcile: what the script collected and what sequencing adds. */
  class ScriptCollector {
    var resources: map<string, Collected>
    var skipped: set<string>
    var gatingSkips: seq<GatingSkip>
    var gatingDefers: seq<GatingDefer>
    var depsConverged: bool
    var override: Option<Override>
    var dependencies: seq<Pair>
    var conditions: seq<Condition>
    const kept: Kept

    constructor (kept: Kept)
      ensures Value() == EMPTY && gatingDefers == [] && !depsConverged && this.kept == kept
    {
      resources, skipped := map[], {};
      gatingSkips, gatingDefers, depsConverged := [], [], false;
      override, dependencies, conditions := None, [], [];
      this.kept := kept;
    }

    function Value(): State
      reads this
    {
      State(resources, skipped, gatingSkips, dependencies, override, conditions)
    }

    method Skip(name: string, reason: string, gate: bool)
      modifies `skipped, `gatingSkips
      ensures Value() == RecordSkip(old(Value()), name, reason, gate)
    {
      if name in skipped {
        return;
      }
      skipped := skipped + {name};
      if gate {
        gatingSkips := gatingSkips + [GatingSkip(name, reason)];
      }
    }

    /** The scan of depends_on for a reference to a skipped resource. */
    method FindSkipped(items: seq<Item>) returns (trigger: Option<string>)
      ensures trigger == SkipTrigger(items)
    {
      var i := 0;
      while i < |items|
        invariant 0 <= i <= |items|
        invariant SkipTrigger(items) == SkipTrigger(items[i..])
      {
        match items[i] {
          case Skipped(n) => return Some(n);
          case Tuple(SkippedFirst(n), _) => return Some(n);
          case _ =>
        }
        i := i + 1;
      }
      trigger := None;
    }

    /** The loop that records the dependencies of `name`; it may stop at a malformed item. */
    method AddDependencies(name: string, items: seq<Item>) returns (ok: bool)
      modifies `dependencies
      ensures ok <==> !exists item :: item in items && Malformed(item)
      ensures ok ==> exists added :: dependencies == old(dependencies) + added && DeclaresAll(name, items, added)
      ensures ok <==> PairsOf(name, items).Ok?
      ensures ok ==> dependencies == old(dependencies) + PairsOf(name, items).value
    {
      PairsExactly(name, items);
      hide Malformed, DeclaresAll;
      var i := 0;
      while i < |items|
        invariant 0 <= i <= |items|
        invariant PairsOf(name, items[..i]).Ok? && dependencies == old(dependencies) + PairsOf(name, items[..i]).value
      {
        assert items[..i + 1][..i] == items[..i];
        var pair := PairOf(name, items[i]);
        if pair.Err? {
          PairsFail(name, items, i + 1);
          return false;
        }
        if pair.value.Some? {
          dependencies := dependencies + [pair.value.value];
        }
        i := i + 1;
      }
      assert items[..i] == items;
      ok := true;
    }

    /** The Resource() builtin: the `when` gate, the missing body, the transitive skip, and only then
        the normal path. */
    method CallResource(call: Call) returns (handle: Option<Handle>)
      requires call.Resource?
      modifies `resources, `skipped, `gatingSkips, `dependencies
      ensures match Perform(old(Value()), kept, call)
              case Halts => handle == None
              case Returns(c, h) => handle == Some(h) && Value() == c
    {
      hide PairsOf, PairOf, SkipTrigger;
      var name := call.name;
      if call.gate.None? {
        return None;
      }
      var w := call.gate.value;
      if w.Some? && !w.value.condition {
        if w.value.keepIfExists && name in kept {
          if kept[name].None? {
            return None;
          }
          resources := resources[name := Collected(kept[name].value, Unspecified, map[])];
          return Some(Created(name));
        }
        Skip(name, w.value.reason, !w.value.optional);
        return Some(SkippedHandle(name));
      }
      if call.body.NoneBody? {
        Skip(name, "body is None", true);
        return Some(SkippedHandle(name));
      }
      var trigger := FindSkipped(call.dependsOn);
      if trigger.Some? {
        Skip(name, "depends on skipped " + trigger.value, true);
        return Some(SkippedHandle(name));
      }
      if call.body.Unusable? || call.connection.None? {
        return None;
      }
      var ok := AddDependencies(name, call.dependsOn);
      if !ok || call.ready.None? {
        return None;
      }
      resources := resources[name := Collected(call.body.fields, call.ready.value, call.connection.value)];
      handle := Some(Created(name));
    }

    /** Any builtin call; None when it fails, which halts the script. */
    method Dispatch(call: Call) returns (handle: Option<Handle>)
      modifies `resources, `skipped, `gatingSkips, `dependencies, `override, `conditions
      ensures match Perform(old(Value()), kept, call)
              case Halts => handle == None
              case Returns(c, h) => handle == Some(h) && Value() == c
    {
      match call {
        case Resource(_, _, _, _, _, _) =>
          handle := CallResource(call);
        case SkipResource(name, reason) =>
          if name in resources {
            return None;
          }
          Skip(name, reason, false);
          handle := Some(Nothing);
        case SetCompositeReady(o) =>
          override := Some(o);
          handle := Some(Nothing);
        case SetCondition(cond) =>
          if cond.condType == COMPOSITE_READY {
            return None;
          }
          conditions := conditions + [cond];
          handle := Some(Nothing);
      }
    }

    /** Withholds the named resources from the desired state. */
    method RemoveResources(names: seq<string>)
      modifies `resources
      ensures resources == old(resources) - (set n | n in names)
    {
      var i := 0;
      while i < |names|
        invariant 0 <= i <= |names|
        invariant resources == old(resources) - (set n | n in names[..i])
      {
        resources := resources - {names[i]};
        assert names[..i + 1] == names[..i] + [names[i]];
        i := i + 1;
      }
      assert names[..i] == names;
    }
  }

  lemma {:induction false} PairsFail(name: string, items: seq<Item>, k: nat)
    requires k <= |items| && PairsOf(name, items[..k]).Err?
    ensures PairsOf(name, items).Err?
    decreases |items| - k
  {
    if k < |items| {
      assert items[..k + 1][..k] == items[..k];
      PairsFail(name, items, k + 1);
    } else {
      assert items[..k] == items;
    }
  }
}
