/**
 Conversion between protobuf structs and Starlark values (convert/convert.go).
 */
module Convert {
  import opened Wrappers
  import P = Proto
  import S = Starlark

  /** 2^53: beyond it, float64 does not hold every integer. */
  const SAFE: int := 0x20_0000_0000_0000
  /** 2^63: whole numbers of at least this magnitude are refused. */
  const LIMIT: int := 0x8000_0000_0000_0000

  predicate Whole(n: P.Number) {
    n.Finite? && n.r == n.r.Floor as real
  }

  /** `convertNumber`: the range guard comes before the precision guard. */
  function ConvertNumber(n: P.Number): Result<S.Value, ()> {
    if Whole(n) then
      if n.r >= LIMIT as real || n.r <= -LIMIT as real then Err(())
      else if n.r > SAFE as real || n.r < -SAFE as real then Ok(S.Float(n))
      else Ok(S.Int(n.r.Floor))
    else Ok(S.Float(n))
  }

  /** -2^63 is refused, although it fits an int64; the next larger float64 is kept as a float. */
  lemma LeastInt64IsRefused()
    ensures ConvertNumber(P.Finite(-9223372036854775808.0)) == Err(())
    ensures !Convertible(P.Num(P.Finite(-9223372036854775808.0)))
    ensures var next := P.Finite(-9223372036854774784.0); ConvertNumber(next) == Ok(S.Float(next))
  {
  }

  /** Integers are kept as such up to 2^53, and as floats from the next float64 on. */
  lemma IntegersUpToSafe()
    ensures ConvertNumber(P.Finite(9007199254740992.0)) == Ok(S.Int(9007199254740992))
    ensures ConvertNumber(P.Finite(-9007199254740992.0)) == Ok(S.Int(-9007199254740992))
    ensures ConvertNumber(P.Finite(9007199254740994.0)) == Ok(S.Float(P.Finite(9007199254740994.0)))
  {
  }

  // ---------------------------------------------------------------- what the conversions mean

  /** No whole number inside has a magnitude of 2^63 or more. */
  predicate Convertible(v: P.Value) {
    match v
    case Num(n) => Whole(n) ==> -LIMIT as real < n.r < LIMIT as real
    case Struct(f) => forall k | k in f :: Convertible(f[k])
    case List(values) => forall i | 0 <= i < |values| :: Convertible(values[i])
    case _ => true
  }

  /** Absent values count as null. */
  function Normal(v: P.Value): P.Value {
    match v
    case Nil => P.Null
    case Struct(f) => P.Struct(map k | k in f :: Normal(f[k]))
    case List(values) => P.List(seq(|values|, i requires 0 <= i < |values| => Normal(values[i])))
    case _ => v
  }

  function NormalFields(f: P.Fields): P.Fields {
    map k | k in f :: Normal(f[k])
  }

  /** Nothing inside is absent. */
  ghost predicate Present(v: P.Value) {
    match v
    case Nil => false
    case Struct(f) => forall k | k in f :: Present(f[k])
    case List(values) => forall i | 0 <= i < |values| :: Present(values[i])
    case _ => true
  }

  /** Only absent values make a difference. */
  lemma {:induction false} PresentIsNormal(v: P.Value)
    ensures Normal(v) == v <==> Present(v)
  {
    match v
    case Struct(f) =>
      forall k | k in f ensures Normal(f[k]) == f[k] <==> Present(f[k]) {
        PresentIsNormal(f[k]);
      }
      if Normal(v) == v {
        assert forall k | k in f :: Normal(v).fields[k] == Normal(f[k]);
      }
    case List(values) =>
      forall i | 0 <= i < |values| ensures Normal(values[i]) == values[i] <==> Present(values[i]) {
        PresentIsNormal(values[i]);
      }
      if Normal(v) == v {
        assert forall i | 0 <= i < |values| :: Normal(v).values[i] == Normal(values[i]);
      }
    case _ =>
  }

  /** `s` stands for `v`: whole numbers up to 2^53 are integers, all other numbers floats, and a dict
      lists the fields of a struct in some order, each once. */
  ghost predicate Represents(s: S.Value, v: P.Value, kind: S.DictKind)
    decreases s, 1
  {
    match v
    case Nil | Null => s == S.None
    case Num(n) =>
      if Whole(n) && -SAFE as real <= n.r <= SAFE as real then s.Int? && s.i as real == n.r
      else s == S.Float(n) && (Whole(n) ==> -LIMIT as real < n.r < LIMIT as real)
    case Str(text) => s == S.String(text)
    case Bool(b) => s == S.Bool(b)
    case Struct(f) => s.Dict? && s.kind == kind && ItemsRepresent(s.items, f, kind)
    case List(values) => s.List? && ElemsRepresent(s.elems, values, kind)
  }

  ghost predicate ItemsRepresent(items: seq<S.Item>, f: P.Fields, kind: S.DictKind)
    decreases items, 0
  {
    if items == [] then f == map[]
    else
      var last := items[|items| - 1];
      assert last.value < last;
      last.key.String? && last.key.s in f && Represents(last.value, f[last.key.s], kind) &&
      ItemsRepresent(items[..|items| - 1], f - {last.key.s}, kind)
  }

  ghost predicate ElemsRepresent(elems: seq<S.Value>, values: seq<P.Value>, kind: S.DictKind)
    decreases elems, 0
  {
    |elems| == |values| &&
    forall i | 0 <= i < |elems| :: Represents(elems[i], values[i], kind)
  }

  /** Every integer inside has a magnitude of at most 2^53, every dict key is a string, and there are
      no tuples or other types. */
  predicate Sendable(v: S.Value)
    decreases v, 1
  {
    match v
    case Int(i) => -SAFE <= i <= SAFE
    case Dict(_, items) => ItemsSendable(items)
    case List(elems) => ElemsSendable(elems)
    case Tuple(_) | Other(_) => false
    case _ => true
  }

  predicate ItemsSendable(items: seq<S.Item>)
    decreases items, 0
  {
    items == [] ||
    var last := items[|items| - 1];
    assert last.value < last;
    (ItemsSendable(items[..|items| - 1]) && last.key.String? && Sendable(last.value))
  }

  predicate ElemsSendable(elems: seq<S.Value>)
    decreases elems, 0
  {
    elems == [] || (ElemsSendable(elems[..|elems| - 1]) && Sendable(elems[|elems| - 1]))
  }

  /** The protobuf value that a sendable value stands for. */
  function ToProto(v: S.Value): P.Value
    requires Sendable(v)
    decreases v, 1
  {
    match v
    case None => P.Null
    case Bool(b) => P.Bool(b)
    case Int(i) => P.Num(P.Finite(i as real))
    case Float(n) => P.Num(n)
    case String(s) => P.Str(s)
    case Dict(_, items) => P.Struct(ItemsToFields(items))
    case List(elems) => P.List(ElemsToValues(elems))
  }

  function ItemsToFields(items: seq<S.Item>): P.Fields
    requires ItemsSendable(items)
    decreases items, 0
  {
    if items == [] then map[]
    else
      var last := items[|items| - 1];
      assert last.value < last;
      ItemsToFields(items[..|items| - 1])[last.key.s := ToProto(last.value)]
  }

  function ElemsToValues(elems: seq<S.Value>): (r: seq<P.Value>)
    requires ElemsSendable(elems)
    ensures |r| == |elems|
    decreases elems, 0
  {
    if elems == [] then [] else ElemsToValues(elems[..|elems| - 1]) + [ToProto(elems[|elems| - 1])]
  }

  // ---------------------------------------------------------------- what going back means

  lemma {:induction false} ItemsSendableIff(items: seq<S.Item>)
    ensures ItemsSendable(items) <==> forall i :: 0 <= i < |items| ==> items[i].key.String? && Sendable(items[i].value)
    decreases |items|
  {
    hide Sendable;
    if items != [] {
      ItemsSendableIff(items[..|items| - 1]);
    }
  }

  lemma {:induction false} ElemsSendableIff(elems: seq<S.Value>)
    ensures ElemsSendable(elems) <==> forall i :: 0 <= i < |elems| ==> Sendable(elems[i])
    decreases |elems|
  {
    hide Sendable;
    if elems != [] {
      ElemsSendableIff(elems[..|elems| - 1]);
    }
  }

  /** What can be sent: integers of magnitude up to 2^53, dicts with string keys and lists of such values,
      and None, booleans, floats and strings; no tuples and no other types. */
  lemma SendableExactly(v: S.Value)
    ensures Sendable(v) <==>
      || v.None? || v.Bool? || v.Float? || v.String?
      || (v.Int? && -9007199254740992 <= v.i <= 9007199254740992)
      || (v.Dict? && forall i :: 0 <= i < |v.items| ==> v.items[i].key.String? && Sendable(v.items[i].value))
      || (v.List? && forall i :: 0 <= i < |v.elems| ==> Sendable(v.elems[i]))
  {
    match v
    case Dict(_, items) => ItemsSendableIff(items);
    case List(elems) => ElemsSendableIff(elems);
    case _ =>
  }

  /** The item at `i` is the last one with its key. */
  ghost predicate IsLastOfKey(items: seq<S.Item>, i: nat)
    requires i < |items|
  {
    forall j :: i < j < |items| ==> items[j].key != items[i].key
  }

  ghost predicate HasKey(items: seq<S.Item>, k: string) {
    exists i :: 0 <= i < |items| && items[i].key == S.String(k)
  }

  /** A field for every key, with the value of its last item. */
  ghost predicate FieldsOfItems(items: seq<S.Item>, f: P.Fields) {
    && (forall k :: k in f <==> HasKey(items, k))
    && (forall i :: 0 <= i < |items| && IsLastOfKey(items, i) ==>
          items[i].key.String? && items[i].key.s in f && Sendable(items[i].value) && f[items[i].key.s] == ToProto(items[i].value))
  }

  lemma {:induction false} KeysOfFields(items: seq<S.Item>, k: string)
    requires ItemsSendable(items)
    ensures k in ItemsToFields(items) <==> HasKey(items, k)
    decreases |items|
  {
    hide Sendable, ToProto;
    if items != [] {
      var n := |items| - 1;
      KeysOfFields(items[..n], k);
      if HasKey(items[..n], k) {
        var i :| 0 <= i < n && items[..n][i].key == S.String(k);
        assert items[i].key == S.String(k);
      }
      if HasKey(items, k) {
        var i :| 0 <= i < |items| && items[i].key == S.String(k);
        assert i < n ==> items[..n][i].key == S.String(k);
      }
    }
  }

  lemma {:induction false} LastOfFields(items: seq<S.Item>, i: nat)
    requires ItemsSendable(items) && i < |items| && IsLastOfKey(items, i)
    ensures items[i].key.String? && Sendable(items[i].value)
    ensures items[i].key.s in ItemsToFields(items) && ItemsToFields(items)[items[i].key.s] == ToProto(items[i].value)
    decreases |items|
  {
    hide Sendable, ToProto;
    var n := |items| - 1;
    if i < n {
      assert items[n].key != items[i].key;
      LastOfFields(items[..n], i);
    }
  }

  lemma ItemsToFieldsExactly(items: seq<S.Item>)
    requires ItemsSendable(items)
    ensures FieldsOfItems(items, ItemsToFields(items))
  {
    hide Sendable, ToProto, ItemsSendable, ItemsToFields, HasKey, IsLastOfKey;
    var f := ItemsToFields(items);
    forall k ensures k in f <==> HasKey(items, k) {
      KeysOfFields(items, k);
    }
    forall i | 0 <= i < |items| && IsLastOfKey(items, i)
      ensures items[i].key.String? && items[i].key.s in f && Sendable(items[i].value) && f[items[i].key.s] == ToProto(items[i].value)
    {
      LastOfFields(items, i);
    }
  }

  lemma {:induction false} ElemsToValuesEach(elems: seq<S.Value>, i: nat)
    requires ElemsSendable(elems) && i < |elems|
    ensures Sendable(elems[i]) && ElemsToValues(elems)[i] == ToProto(elems[i])
    decreases |elems|
  {
    hide Sendable, ToProto;
    if i < |elems| - 1 {
      ElemsToValuesEach(elems[..|elems| - 1], i);
    }
  }

  /** What is sent: null, booleans, numbers and strings as they are, a struct with a field for every key of a
      dict, and a list with every element in order. */
  lemma ToProtoExactly(v: S.Value)
    requires Sendable(v)
    ensures match v
            case None => ToProto(v) == P.Null
            case Bool(b) => ToProto(v) == P.Bool(b)
            case Int(i) => ToProto(v) == P.Num(P.Finite(i as real))
            case Float(n) => ToProto(v) == P.Num(n)
            case String(t) => ToProto(v) == P.Str(t)
            case Dict(_, items) => ToProto(v).Struct? && FieldsOfItems(items, ToProto(v).fields)
            case List(elems) =>
              && ToProto(v).List? && |ToProto(v).values| == |elems|
              && forall i :: 0 <= i < |elems| ==> Sendable(elems[i]) && ToProto(v).values[i] == ToProto(elems[i])
            case _ => false
  {
    hide FieldsOfItems;
    match v
    case Dict(_, items) => ItemsToFieldsExactly(items);
    case List(elems) =>
      forall i | 0 <= i < |elems|
        ensures Sendable(elems[i]) && ElemsToValues(elems)[i] == ToProto(elems[i])
      {
        ElemsToValuesEach(elems, i);
      }
    case _ =>
  }

  // ---------------------------------------------------------------- the round trip

  /** A value has a Starlark form only if it is convertible, and then going back from any such form
      gives the value again with absent values made null. */
  lemma {:induction false} RoundTrip(s: S.Value, v: P.Value, kind: S.DictKind)
    requires Represents(s, v, kind)
    ensures Convertible(v)
    ensures Sendable(s) && ToProto(s) == Normal(v)
    decreases s, 1
  {
    match v
    case Struct(f) => ItemsRoundTrip(s.items, f, kind);
    case List(values) =>
      ElemsRoundTrip(s.elems, values, kind);
    case _ =>
  }

  lemma {:induction false} ItemsRoundTrip(items: seq<S.Item>, f: P.Fields, kind: S.DictKind)
    requires ItemsRepresent(items, f, kind)
    ensures forall k | k in f :: Convertible(f[k])
    ensures ItemsSendable(items) && ItemsToFields(items) == NormalFields(f)
    decreases items, 0
  {
    if items != [] {
      var last := items[|items| - 1];
      assert last.value < last;
      ItemsRoundTrip(items[..|items| - 1], f - {last.key.s}, kind);
      RoundTrip(last.value, f[last.key.s], kind);
      assert forall k | k in f && k != last.key.s :: k in f - {last.key.s};
    }
  }

  lemma {:induction false} ElemsRoundTrip(elems: seq<S.Value>, values: seq<P.Value>, kind: S.DictKind)
    requires ElemsRepresent(elems, values, kind)
    ensures forall i | 0 <= i < |values| :: Convertible(values[i])
    ensures ElemsSendable(elems)
    ensures forall i | 0 <= i < |values| :: ElemsToValues(elems)[i] == Normal(values[i])
    decreases elems, 0
  {
    if elems != [] {
      ElemsRoundTrip(elems[..|elems| - 1], values[..|values| - 1], kind);
      RoundTrip(elems[|elems| - 1], values[|values| - 1], kind);
      assert forall i | 0 <= i < |values| - 1 :: values[i] == values[..|values| - 1][i];
    }
  }

  // ---------------------------------------------------------------- to Starlark

  /** `convertProtoValue`: fails exactly on values that are not convertible. */
  method ConvertValue(v: P.Value, kind: S.DictKind) returns (r: Result<S.Value, ()>)
    ensures r.Ok? <==> Convertible(v)
    ensures r.Ok? ==> Represents(r.value, v, kind)
    ensures r.Ok? ==> Sendable(r.value) && ToProto(r.value) == Normal(v)
    decreases v, 1
  {
    match v {
      case Nil | Null => r := Ok(S.None);
      case Num(n) => r := ConvertNumber(n);
      case Str(s) => r := Ok(S.String(s));
      case Bool(b) => r := Ok(S.Bool(b));
      case Struct(f) =>
        var items := ConvertFields(v, kind);
        r := if items.Ok? then Ok(S.Dict(kind, items.value)) else Err(());
      case List(values) =>
        var elems := ConvertList(v, kind);
        r := if elems.Ok? then Ok(S.List(elems.value)) else Err(());
    }
    if r.Ok? {
      RoundTrip(r.value, v, kind);
    }
  }

  /** `fieldsToStarlarkDict` and `plainDictFactory`: the fields come in any order. */
  method ConvertFields(v: P.Value, kind: S.DictKind) returns (r: Result<seq<S.Item>, ()>)
    requires v.Struct?
    ensures r.Ok? <==> Convertible(v)
    ensures r.Ok? ==> ItemsRepresent(r.value, v.fields, kind)
    decreases v, 0
  {
    var f := v.fields;
    var items: seq<S.Item> := [];
    var todo := f.Keys;
    assert f - todo == map[];
    while todo != {}
      invariant todo <= f.Keys
      invariant ItemsRepresent(items, f - todo, kind)
      invariant forall k | k in f && k !in todo :: Convertible(f[k])
    {
      var k :| k in todo;
      var child := ConvertValue(f[k], kind);
      if child.Err? {
        return Err(());
      }
      AppendItem(items, f, todo, k, child.value, kind);
      items := items + [S.Item(S.String(k), child.value)];
      todo := todo - {k};
    }
    assert f - {} == f;
    r := Ok(items);
  }

  lemma AppendItem(items: seq<S.Item>, f: P.Fields, todo: set<string>, k: string, s: S.Value,
                   kind: S.DictKind)
    requires todo <= f.Keys && k in todo && ItemsRepresent(items, f - todo, kind)
    requires Represents(s, f[k], kind)
    ensures ItemsRepresent(items + [S.Item(S.String(k), s)], f - (todo - {k}), kind)
  {
    var longer := items + [S.Item(S.String(k), s)];
    assert longer[..|longer| - 1] == items;
    assert (f - (todo - {k})) - {k} == f - todo;
  }

  /** `convertListValue`. */
  method ConvertList(v: P.Value, kind: S.DictKind) returns (r: Result<seq<S.Value>, ()>)
    requires v.List?
    ensures r.Ok? <==> Convertible(v)
    ensures r.Ok? ==> ElemsRepresent(r.value, v.values, kind)
    decreases v, 0
  {
    var values := v.values;
    var elems: seq<S.Value> := [];
    var i := 0;
    while i < |values|
      invariant 0 <= i <= |values| && |elems| == i
      invariant forall j | 0 <= j < i :: Represents(elems[j], values[j], kind)
      invariant forall j | 0 <= j < i :: Convertible(values[j])
    {
      var child := ConvertValue(values[i], kind);
      if child.Err? {
        return Err(());
      }
      elems := elems + [child.value];
      i := i + 1;
    }
    r := Ok(elems);
  }

  /** `StructToStarlark`: an absent struct becomes an empty dict. */
  method StructToStarlark(body: P.Body) returns (r: Result<S.Value, ()>)
    ensures r.Ok? <==> Convertible(P.Struct(P.BodyFields(body)))
    ensures r.Ok? ==> Represents(r.value, P.Struct(P.BodyFields(body)), S.Converted)
    ensures r.Ok? ==> Sendable(r.value) && ToProto(r.value) == Normal(P.Struct(P.BodyFields(body)))
  {
    if body.None? {
      return Ok(S.Dict(S.Converted, []));
    }
    r := ConvertValue(P.Struct(body.value), S.Converted);
  }

  // ---------------------------------------------------------------- back to protobuf

  /** `starlarkToProtoValue`: fails exactly on values that are not sendable. */
  method ConvertBack(v: S.Value) returns (r: Result<P.Value, ()>)
    ensures r.Ok? <==> Sendable(v)
    ensures r.Ok? ==> r.value == ToProto(v)
    decreases v, 1
  {
    match v {
      case None => r := Ok(P.Null);
      case Bool(b) => r := Ok(P.Bool(b));
      case Int(i) => r := if i > SAFE || -i > SAFE then Err(()) else Ok(P.Num(P.Finite(i as real)));
      case Float(n) => r := Ok(P.Num(n));
      case String(s) => r := Ok(P.Str(s));
      case Dict(_, items) =>
        var f := DictToFields(v);
        r := if f.Ok? then Ok(P.Struct(f.value)) else Err(());
      case List(elems) =>
        var values := ListToValues(v);
        r := if values.Ok? then Ok(P.List(values.value)) else Err(());
      case Tuple(_) | Other(_) => r := Err(());
    }
  }

  /** `StarlarkToStruct` and `PlainDictToStruct`. */
  method DictToFields(v: S.Value) returns (r: Result<P.Fields, ()>)
    requires v.Dict?
    ensures r.Ok? <==> ItemsSendable(v.items)
    ensures r.Ok? ==> r.value == ItemsToFields(v.items)
    decreases v, 0
  {
    var items := v.items;
    var fields: P.Fields := map[];
    var i := 0;
    while i < |items|
      invariant 0 <= i <= |items|
      invariant ItemsSendable(items[..i]) && fields == ItemsToFields(items[..i])
    {
      var item := items[i];
      assert item.value < item;
      assert items[..i + 1][..i] == items[..i];
      if !item.key.String? {
        UnsendableItem(items, i + 1);
        return Err(());
      }
      var child := ConvertBack(item.value);
      if child.Err? {
        UnsendableItem(items, i + 1);
        return Err(());
      }
      fields := fields[item.key.s := child.value];
      i := i + 1;
    }
    assert items[..i] == items;
    r := Ok(fields);
  }

  /** `starlarkListToListValue`. */
  method ListToValues(v: S.Value) returns (r: Result<seq<P.Value>, ()>)
    requires v.List?
    ensures r.Ok? <==> ElemsSendable(v.elems)
    ensures r.Ok? ==> r.value == ElemsToValues(v.elems)
    decreases v, 0
  {
    var elems := v.elems;
    var values: seq<P.Value> := [];
    var i := 0;
    while i < |elems|
      invariant 0 <= i <= |elems|
      invariant ElemsSendable(elems[..i]) && values == ElemsToValues(elems[..i])
    {
      assert elems[..i + 1][..i] == elems[..i];
      var child := ConvertBack(elems[i]);
      if child.Err? {
        UnsendableElem(elems, i + 1);
        return Err(());
      }
      values := values + [child.value];
      i := i + 1;
    }
    assert elems[..i] == elems;
    r := Ok(values);
  }

  lemma {:induction false} UnsendableItem(items: seq<S.Item>, k: nat)
    requires k <= |items| && !ItemsSendable(items[..k])
    ensures !ItemsSendable(items)
    decreases |items| - k
  {
    if k < |items| {
      assert items[..k + 1][..k] == items[..k];
      UnsendableItem(items, k + 1);
    } else {
      assert items[..k] == items;
    }
  }

  lemma {:induction false} UnsendableElem(elems: seq<S.Value>, k: nat)
    requires k <= |elems| && !ElemsSendable(elems[..k])
    ensures !ElemsSendable(elems)
    decreases |elems| - k
  {
    if k < |elems| {
      assert elems[..k + 1][..k] == elems[..k];
      UnsendableElem(elems, k + 1);
    } else {
      assert elems[..k] == elems;
    }
  }

  /** Every convertible value has a Starlark form. */
  lemma {:induction false} HasForm(v: P.Value, kind: S.DictKind) returns (s: S.Value)
    requires Convertible(v)
    ensures Represents(s, v, kind)
    decreases v, 1
  {
    match v
    case Nil | Null => s := S.None;
    case Num(n) => s := ConvertNumber(n).value;
    case Str(text) => s := S.String(text);
    case Bool(b) => s := S.Bool(b);
    case Struct(f) =>
      var items := FieldsHaveForm(v, f.Keys, kind);
      assert f - (f.Keys - f.Keys) == f;
      s := S.Dict(kind, items);
    case List(values) =>
      var elems := ValuesHaveForm(v, |values|, kind);
      s := S.List(elems);
  }

  lemma {:induction false} FieldsHaveForm(v: P.Value, keys: set<string>, kind: S.DictKind)
    returns (items: seq<S.Item>)
    requires v.Struct? && Convertible(v) && keys <= v.fields.Keys
    ensures ItemsRepresent(items, v.fields - (v.fields.Keys - keys), kind)
    decreases v, 0, keys
  {
    var f := v.fields;
    if keys == {} {
      items := [];
      assert f - (f.Keys - keys) == map[];
    } else {
      var k :| k in keys;
      var before := FieldsHaveForm(v, keys - {k}, kind);
      var s := HasForm(f[k], kind);
      AppendItem(before, f, f.Keys - (keys - {k}), k, s, kind);
      assert f.Keys - (keys - {k}) - {k} == f.Keys - keys;
      items := before + [S.Item(S.String(k), s)];
    }
  }

  lemma {:induction false} ValuesHaveForm(v: P.Value, n: nat, kind: S.DictKind)
    returns (elems: seq<S.Value>)
    requires v.List? && Convertible(v) && n <= |v.values|
    ensures |elems| == n && forall i | 0 <= i < n :: Represents(elems[i], v.values[i], kind)
    decreases v, 0, n
  {
    if n == 0 {
      elems := [];
    } else {
      var before := ValuesHaveForm(v, n - 1, kind);
      var s := HasForm(v.values[n - 1], kind);
      elems := before + [s];
    }
  }
}
