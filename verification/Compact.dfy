/**
 Pruning of None-valued dict entries with allocation deferred until the first change
 (compactValue, compactDict and compactList in builtins/dict.go).
 */
module Compact {
  import opened Wrappers
  import opened Starlark

  const MAX_DEPTH: nat := 32

  // ---------------------------------------------------------------- the simple form

  /** The value with every None-valued entry of every dict under dicts and lists removed. Tuples and
      scalars are left alone; all dicts become plain. */
  function Prune(v: Value): Value
    decreases v, 1
  {
    match v
    case Dict(_, items) => Dict(Plain, PruneItems(items))
    case List(elems) => List(PruneElems(elems))
    case _ => v
  }

  function PruneItems(items: seq<Item>): seq<Item>
    decreases items, 0
  {
    if items == [] then []
    else
      var before, last := PruneItems(items[..|items| - 1]), items[|items| - 1];
      assert last.value < last;
      if last.value == Value.None then before else before + [Item(last.key, Prune(last.value))]
  }

  function PruneElems(elems: seq<Value>): (r: seq<Value>)
    ensures |r| == |elems|
    decreases elems, 0
  {
    if elems == [] then [] else PruneElems(elems[..|elems| - 1]) + [Prune(elems[|elems| - 1])]
  }

  /** The value with all dicts under dicts and lists made plain, and nothing else changed. */
  function Plainly(v: Value): Value
    decreases v, 1
  {
    match v
    case Dict(_, items) => Dict(Plain, PlainItems(items))
    case List(elems) => List(PlainElems(elems))
    case _ => v
  }

  function PlainItems(items: seq<Item>): seq<Item>
    decreases items, 0
  {
    if items == [] then []
    else
      var last := items[|items| - 1];
      assert last.value < last;
      PlainItems(items[..|items| - 1]) + [Item(last.key, Plainly(last.value))]
  }

  function PlainElems(elems: seq<Value>): seq<Value>
    decreases elems, 0
  {
    if elems == [] then [] else PlainElems(elems[..|elems| - 1]) + [Plainly(elems[|elems| - 1])]
  }

  /** Some dict under dicts and lists has a None-valued entry. */
  predicate HasNone(v: Value)
    decreases v, 1
  {
    match v
    case Dict(_, items) => ItemsHaveNone(items)
    case List(elems) => ElemsHaveNone(elems)
    case _ => false
  }

  predicate ItemsHaveNone(items: seq<Item>)
    decreases items, 0
  {
    items != [] &&
    var last := items[|items| - 1];
    assert last.value < last;
    (ItemsHaveNone(items[..|items| - 1]) || last.value == Value.None || HasNone(last.value))
  }

  predicate ElemsHaveNone(elems: seq<Value>)
    decreases elems, 0
  {
    elems != [] && (ElemsHaveNone(elems[..|elems| - 1]) || HasNone(elems[|elems| - 1]))
  }

  /** No value that is visited from depth `d` on lies deeper than the limit. None-valued entries are
      pruned unvisited. */
  predicate Fits(v: Value, d: nat)
    decreases v, 1
  {
    d <= MAX_DEPTH &&
    match v
    case Dict(_, items) => ItemsFit(items, d + 1)
    case List(elems) => ElemsFit(elems, d + 1)
    case _ => true
  }

  predicate ItemsFit(items: seq<Item>, d: nat)
    decreases items, 0
  {
    items == [] ||
    var last := items[|items| - 1];
    assert last.value < last;
    (ItemsFit(items[..|items| - 1], d) && (last.value == Value.None || Fits(last.value, d)))
  }

  predicate ElemsFit(elems: seq<Value>, d: nat)
    decreases elems, 0
  {
    elems == [] || (ElemsFit(elems[..|elems| - 1], d) && Fits(elems[|elems| - 1], d))
  }

  // ---------------------------------------------------------------- what it means

  /** The entries whose value is not None, in order, with their keys and pruned values. */
  ghost predicate KeepsOthers(items: seq<Item>, kept: seq<Item>) {
    Picks(items, kept, (item: Item) => item.value != Value.None,
          (item: Item, out: Item) => out.key == item.key && out.value == Prune(item.value))
  }

  lemma {:induction false} PruneItemsKeep(items: seq<Item>)
    ensures KeepsOthers(items, PruneItems(items))
    decreases |items|
  {
    hide Picks, Prune;
    var wanted := (item: Item) => item.value != Value.None;
    var made := (item: Item, out: Item) => out.key == item.key && out.value == Prune(item.value);
    if items == [] {
      PicksNil(wanted, made);
    } else {
      var before, last := items[..|items| - 1], items[|items| - 1];
      assert items == before + [last];
      PruneItemsKeep(before);
      if last.value == Value.None {
        PicksSkip(before, PruneItems(before), wanted, made, last);
      } else {
        PicksTake(before, PruneItems(before), wanted, made, last, Item(last.key, Prune(last.value)));
      }
    }
  }

  lemma {:induction false} PruneElemsEach(elems: seq<Value>, i: nat)
    requires i < |elems|
    ensures PruneElems(elems)[i] == Prune(elems[i])
    decreases |elems|
  {
    hide Prune;
    if i < |elems| - 1 {
      PruneElemsEach(elems[..|elems| - 1], i);
    }
  }

  /** Pruning removes exactly the None-valued entries of a dict and prunes the others, prunes every element
      of a list, and leaves anything else alone. */
  lemma PruneExactly(v: Value)
    ensures match v
            case Dict(_, items) => Prune(v).Dict? && Prune(v).kind == Plain && KeepsOthers(items, Prune(v).items)
            case List(elems) =>
              Prune(v).List? && |Prune(v).elems| == |elems| && forall i :: 0 <= i < |elems| ==> Prune(v).elems[i] == Prune(elems[i])
            case _ => Prune(v) == v
  {
    hide KeepsOthers;
    match v
    case Dict(_, items) => PruneItemsKeep(items);
    case List(elems) =>
      forall i | 0 <= i < |elems|
        ensures PruneElems(elems)[i] == Prune(elems[i])
      {
        PruneElemsEach(elems, i);
      }
    case _ =>
  }

  lemma {:induction false} PlainItemsEach(items: seq<Item>, i: nat)
    requires i < |items|
    ensures |PlainItems(items)| == |items| && PlainItems(items)[i] == Item(items[i].key, Plainly(items[i].value))
    decreases |items|
  {
    hide Plainly;
    var before := items[..|items| - 1];
    if before != [] {
      PlainItemsEach(before, if i < |before| then i else 0);
    }
  }

  lemma {:induction false} PlainElemsEach(elems: seq<Value>, i: nat)
    requires i < |elems|
    ensures |PlainElems(elems)| == |elems| && PlainElems(elems)[i] == Plainly(elems[i])
    decreases |elems|
  {
    hide Plainly;
    var before := elems[..|elems| - 1];
    if before != [] {
      PlainElemsEach(before, if i < |before| then i else 0);
    }
  }

  /** `w` is visited directly below `v`. */
  ghost predicate IsVisitedIn(v: Value, w: Value) {
    || (v.Dict? && w != Value.None && exists i :: 0 <= i < |v.items| && v.items[i].value == w)
    || (v.List? && w in v.elems)
  }

  /** `w` is visited `n` levels below `v`. */
  ghost predicate VisitedAt(v: Value, w: Value, n: nat) {
    if n == 0 then w == v else exists u :: IsVisitedIn(v, u) && VisitedAt(u, w, n - 1)
  }

  lemma {:induction false} ItemsFitIff(items: seq<Item>, d: nat)
    ensures ItemsFit(items, d) <==> forall i :: 0 <= i < |items| && items[i].value != Value.None ==> Fits(items[i].value, d)
    decreases |items|
  {
    hide Fits;
    if items != [] {
      ItemsFitIff(items[..|items| - 1], d);
    }
  }

  lemma {:induction false} ElemsFitIff(elems: seq<Value>, d: nat)
    ensures ElemsFit(elems, d) <==> forall i :: 0 <= i < |elems| ==> Fits(elems[i], d)
    decreases |elems|
  {
    hide Fits;
    if elems != [] {
      ElemsFitIff(elems[..|elems| - 1], d);
    }
  }

  lemma FitsStep(v: Value, d: nat)
    ensures Fits(v, d) <==> d <= 32 && forall u :: IsVisitedIn(v, u) ==> Fits(u, d + 1)
  {
    match v
    case Dict(_, items) =>
      ItemsFitIff(items, d + 1);
      hide Fits, ItemsFit;
      assert forall i :: 0 <= i < |items| && items[i].value != Value.None ==> IsVisitedIn(v, items[i].value);
    case List(elems) =>
      ElemsFitIff(elems, d + 1);
      assert forall i :: 0 <= i < |elems| ==> IsVisitedIn(v, elems[i]);
    case _ =>
  }

  lemma {:induction false} VisitedFits(v: Value, d: nat, w: Value, n: nat)
    requires Fits(v, d) && VisitedAt(v, w, n)
    ensures d + n <= 32
    decreases n
  {
    hide Fits;
    FitsStep(v, d);
    if n > 0 {
      var u :| IsVisitedIn(v, u) && VisitedAt(u, w, n - 1);
      VisitedFits(u, d + 1, w, n - 1);
    }
  }

  lemma {:induction false} UnfitIsDeep(v: Value, d: nat) returns (w: Value, n: nat)
    requires !Fits(v, d)
    ensures VisitedAt(v, w, n) && d + n > 32
    decreases v
  {
    hide Fits;
    FitsStep(v, d);
    if d > 32 {
      w, n := v, 0;
    } else {
      var u :| IsVisitedIn(v, u) && !Fits(u, d + 1);
      VisitedIsSmaller(v, u);
      var m;
      w, m := UnfitIsDeep(u, d + 1);
      n := m + 1;
    }
  }

  lemma VisitedIsSmaller(v: Value, u: Value)
    requires IsVisitedIn(v, u)
    ensures u < v
  {
    if v.Dict? {
      var i :| 0 <= i < |v.items| && v.items[i].value == u;
      assert v.items[i].value < v.items[i] < v;
    }
  }

  /** The depth limit: nothing visited lies deeper than level 32. */
  lemma FitsExactly(v: Value, d: nat)
    ensures Fits(v, d) <==> forall w, n: nat :: VisitedAt(v, w, n) ==> d + n <= 32
  {
    hide Fits;
    if Fits(v, d) {
      forall w, n: nat | VisitedAt(v, w, n)
        ensures d + n <= 32
      {
        VisitedFits(v, d, w, n);
      }
    } else {
      var w, n := UnfitIsDeep(v, d);
    }
  }

  // ---------------------------------------------------------------- its properties

  /** Nothing None-valued is left. */
  lemma {:induction false} PruneLeavesNoNone(v: Value)
    ensures !HasNone(Prune(v))
    decreases v, 1
  {
    match v
    case Dict(_, items) => PruneItemsLeaveNoNone(items);
    case List(elems) => PruneElemsLeaveNoNone(elems);
    case _ =>
  }

  lemma {:induction false} PruneItemsLeaveNoNone(items: seq<Item>)
    ensures !ItemsHaveNone(PruneItems(items))
    decreases items, 0
  {
    if items != [] {
      var before, last := items[..|items| - 1], items[|items| - 1];
      assert last.value < last;
      PruneItemsLeaveNoNone(before);
      if last.value != Value.None {
        PruneLeavesNoNone(last.value);
        var r := PruneItems(items);
        assert r[..|r| - 1] == PruneItems(before);
      }
    }
  }

  lemma {:induction false} PruneElemsLeaveNoNone(elems: seq<Value>)
    ensures !ElemsHaveNone(PruneElems(elems))
    decreases elems, 0
  {
    if elems != [] {
      var before := elems[..|elems| - 1];
      PruneElemsLeaveNoNone(before);
      PruneLeavesNoNone(elems[|elems| - 1]);
      assert PruneElems(elems)[..|elems| - 1] == PruneElems(before);
    }
  }

  /** Where there is nothing to prune, pruning only makes dicts plain. */
  lemma {:induction false} NoNoneUnchanged(v: Value)
    requires !HasNone(v)
    ensures Prune(v) == Plainly(v)
    decreases v, 1
  {
    match v
    case Dict(_, items) => NoNoneItemsUnchanged(items);
    case List(elems) => NoNoneElemsUnchanged(elems);
    case _ =>
  }

  lemma {:induction false} NoNoneItemsUnchanged(items: seq<Item>)
    requires !ItemsHaveNone(items)
    ensures PruneItems(items) == PlainItems(items)
    decreases items, 0
  {
    if items != [] {
      var before, last := items[..|items| - 1], items[|items| - 1];
      assert last.value < last;
      NoNoneItemsUnchanged(before);
      NoNoneUnchanged(last.value);
    }
  }

  lemma {:induction false} NoNoneElemsUnchanged(elems: seq<Value>)
    requires !ElemsHaveNone(elems)
    ensures PruneElems(elems) == PlainElems(elems)
    decreases elems, 0
  {
    if elems != [] {
      NoNoneElemsUnchanged(elems[..|elems| - 1]);
      NoNoneUnchanged(elems[|elems| - 1]);
    }
  }

  lemma {:induction false} PlainlyTwice(v: Value)
    ensures Plainly(Plainly(v)) == Plainly(v) && HasNone(Plainly(v)) == HasNone(v)
    decreases v, 1
  {
    match v
    case Dict(_, items) => PlainItemsTwice(items);
    case List(elems) => PlainElemsTwice(elems);
    case _ =>
  }

  lemma {:induction false} PlainItemsTwice(items: seq<Item>)
    ensures PlainItems(PlainItems(items)) == PlainItems(items)
    ensures ItemsHaveNone(PlainItems(items)) == ItemsHaveNone(items)
    decreases items, 0
  {
    if items != [] {
      var before, last := items[..|items| - 1], items[|items| - 1];
      assert last.value < last;
      PlainItemsTwice(before);
      PlainlyTwice(last.value);
      var r := PlainItems(items);
      assert r[..|r| - 1] == PlainItems(before);
    }
  }

  lemma {:induction false} PlainElemsTwice(elems: seq<Value>)
    ensures PlainElems(PlainElems(elems)) == PlainElems(elems)
    ensures ElemsHaveNone(PlainElems(elems)) == ElemsHaveNone(elems)
    decreases elems, 0
  {
    if elems != [] {
      var before := elems[..|elems| - 1];
      PlainElemsTwice(before);
      PlainlyTwice(elems[|elems| - 1]);
      var r := PlainElems(elems);
      assert r[..|r| - 1] == PlainElems(before);
    }
  }

  lemma {:induction false} PruneIsPlain(v: Value)
    ensures Plainly(Prune(v)) == Prune(v)
    decreases v, 1
  {
    hide PruneItems, PruneElems, PlainItems, PlainElems;
    match v
    case Dict(_, items) => PruneItemsArePlain(items);
    case List(elems) => PruneElemsArePlain(elems);
    case _ =>
  }

  lemma {:induction false} PruneItemsArePlain(items: seq<Item>)
    ensures PlainItems(PruneItems(items)) == PruneItems(items)
    decreases items, 0
  {
    if items != [] {
      var before, last := items[..|items| - 1], items[|items| - 1];
      assert last.value < last;
      PruneItemsArePlain(before);
      if last.value != Value.None {
        PruneIsPlain(last.value);
        var r := PruneItems(items);
        assert r[..|r| - 1] == PruneItems(before);
      }
    }
  }

  lemma {:induction false} PruneElemsArePlain(elems: seq<Value>)
    ensures PlainElems(PruneElems(elems)) == PruneElems(elems)
    decreases elems, 0
  {
    if elems != [] {
      var before := elems[..|elems| - 1];
      PruneElemsArePlain(before);
      PruneIsPlain(elems[|elems| - 1]);
      assert PruneElems(elems)[..|elems| - 1] == PruneElems(before);
    }
  }

  /** Pruning twice is pruning once, and it changes a value exactly when there is a None to prune. */
  lemma PruneIdempotent(v: Value)
    ensures Prune(Prune(v)) == Prune(v)
    ensures Prune(v) != Plainly(v) <==> HasNone(v)
  {
    PruneLeavesNoNone(v);
    PruneIsPlain(v);
    NoNoneUnchanged(Prune(v));
    PlainlyTwice(v);
    if !HasNone(v) {
      NoNoneUnchanged(v);
    }
  }

  // ---------------------------------------------------------------- the copy-on-change form

  datatype Compacted = Compacted(value: Value, changed: bool)

  /** Fails exactly when a visited value lies too deep; otherwise the result is the pruned value, up to
      the kinds of unchanged nested dicts, and the flag says whether anything was pruned. */
  method CompactValue(v: Value, depth: nat) returns (r: Result<Compacted, ()>)
    ensures r.Ok? <==> Fits(v, depth)
    ensures r.Ok? ==> Plainly(r.value.value) == Prune(v) && r.value.changed == HasNone(v)
    ensures r.Ok? && v.Dict? ==> r.value.value.Dict? && r.value.value.kind == Plain
    ensures r.Ok? && !r.value.changed ==> r.value.value == if v.Dict? then v.(kind := Plain) else v
    decreases v, 1
  {
    if depth > MAX_DEPTH {
      return Err(());
    }
    match v {
      case Dict(_, items) => r := CompactDict(v, depth);
      case List(elems) => r := CompactList(v, depth);
      case _ => r := Ok(Compacted(v, false));
    }
  }

  method CompactDict(v: Value, depth: nat) returns (r: Result<Compacted, ()>)
    requires v.Dict? && depth <= MAX_DEPTH
    ensures r.Ok? <==> ItemsFit(v.items, depth + 1)
    ensures r.Ok? ==> Plainly(r.value.value) == Prune(v) && r.value.changed == HasNone(v)
    ensures r.Ok? ==> r.value.value.Dict? && r.value.value.kind == Plain
    ensures r.Ok? && !r.value.changed ==> r.value.value == v.(kind := Plain)
    decreases v, 0
  {
    var items := v.items;
    var result: Option<seq<Item>> := Option.None;
    var i := 0;
    while i < |items|
      invariant 0 <= i <= |items|
      invariant ItemsFit(items[..i], depth + 1)
      invariant result.Some? <==> ItemsHaveNone(items[..i])
      invariant result.Some? ==> PlainItems(result.value) == PruneItems(items[..i])
    {
      var item := items[i];
      assert item.value < item;
      assert items[..i + 1][..i] == items[..i];
      if item.value == Value.None {
        if result.None? {
          NoNoneItemsUnchanged(items[..i]);
          result := Some(items[..i]);
        }
      } else {
        var child := CompactValue(item.value, depth + 1);
        if child.Err? {
          ItemsFitPrefix(items, i + 1, depth + 1);
          return Err(());
        }
        if child.value.changed && result.None? {
          NoNoneItemsUnchanged(items[..i]);
          result := Some(items[..i]);
        }
        if result.Some? {
          ghost var before := result.value;
          result := Some(result.value + [Item(item.key, child.value.value)]);
          assert result.value[..|result.value| - 1] == before;
        }
      }
      i := i + 1;
    }
    assert items[..i] == items;
    if result.None? {
      NoNoneItemsUnchanged(items);
      r := Ok(Compacted(if v.kind == Plain then v else Dict(Plain, items), false));
    } else {
      r := Ok(Compacted(Dict(Plain, result.value), true));
    }
  }

  method CompactList(v: Value, depth: nat) returns (r: Result<Compacted, ()>)
    requires v.List? && depth <= MAX_DEPTH
    ensures r.Ok? <==> ElemsFit(v.elems, depth + 1)
    ensures r.Ok? ==> Plainly(r.value.value) == Prune(v) && r.value.changed == HasNone(v)
    ensures r.Ok? && !r.value.changed ==> r.value.value == v
    decreases v, 0
  {
    var l := v.elems;
    var elems: Option<seq<Value>> := Option.None;
    var i := 0;
    while i < |l|
      invariant 0 <= i <= |l|
      invariant ElemsFit(l[..i], depth + 1)
      invariant elems.Some? <==> ElemsHaveNone(l[..i])
      invariant elems.Some? ==> PlainElems(elems.value) == PruneElems(l[..i])
    {
      assert l[..i + 1][..i] == l[..i];
      var child := CompactValue(l[i], depth + 1);
      if child.Err? {
        ElemsFitPrefix(l, i + 1, depth + 1);
        return Err(());
      }
      if child.value.changed && elems.None? {
        NoNoneElemsUnchanged(l[..i]);
        elems := Some(l[..i]);
      }
      if elems.Some? {
        ghost var before := elems.value;
        elems := Some(elems.value + [child.value.value]);
        assert elems.value[..|elems.value| - 1] == before;
      }
      i := i + 1;
    }
    assert l[..i] == l;
    if elems.None? {
      NoNoneElemsUnchanged(l);
      r := Ok(Compacted(v, false));
    } else {
      r := Ok(Compacted(List(elems.value), true));
    }
  }

  lemma {:induction false} ItemsFitPrefix(items: seq<Item>, k: nat, d: nat)
    requires k <= |items| && !ItemsFit(items[..k], d)
    ensures !ItemsFit(items, d)
    decreases |items| - k
  {
    if k < |items| {
      assert items[..k + 1][..k] == items[..k];
      ItemsFitPrefix(items, k + 1, d);
    } else {
      assert items[..k] == items;
    }
  }

  lemma {:induction false} ElemsFitPrefix(elems: seq<Value>, k: nat, d: nat)
    requires k <= |elems| && !ElemsFit(elems[..k], d)
    ensures !ElemsFit(elems, d)
    decreases |elems| - k
  {
    if k < |elems| {
      assert elems[..k + 1][..k] == elems[..k];
      ElemsFitPrefix(elems, k + 1, d);
    } else {
      assert elems[..k] == elems;
    }
  }
}
