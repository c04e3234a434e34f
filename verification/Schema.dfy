/**
 Validation of dicts against user-defined schemas (schema/schema.go, schema/field.go and
 schema/validate.go). Errors carry the path of the offending field.
 */
module Schema {
  import opened Wrappers
  import opened Starlark

  datatype Field = Field(
    name: string,
    typeName: string,
    schema: Option<Schema>,
    items: Option<Schema>,
    required: bool,
    default: Value,
    enum: Option<seq<Value>>)

  /** The fields in order of declaration. */
  datatype Schema = Schema(name: string, fields: seq<Field>)

  datatype Segment = Key(name: string) | Index(i: nat)
  datatype Problem = Unknown | Missing | WrongType | NotInEnum
  datatype Error = Error(path: seq<Segment>, problem: Problem)

  /** `starlark.Equal`. */
  type Equality = (Value, Value) -> bool

  function Lookup(fields: seq<Field>, name: string): (r: Option<Field>)
    ensures r.Some? ==> r.value in fields && r.value.name == name
    ensures r.None? ==> forall f | f in fields :: f.name != name
  {
    if fields == [] then Option.None
    else
      var last := fields[|fields| - 1];
      if last.name == name then Some(last) else Lookup(fields[..|fields| - 1], name)
  }

  // ---------------------------------------------------------------- dicts as item lists

  /** `SetKey`: an existing key keeps its place. */
  function Put(items: seq<Item>, name: string, v: Value): (r: seq<Item>)
    ensures r != []
  {
    if items == [] then [Item(String(name), v)]
    else if items[0].key == String(name) then [Item(items[0].key, v)] + items[1..]
    else [items[0]] + Put(items[1..], name, v)
  }

  function Find(items: seq<Item>, name: string): Option<Value> {
    if items == [] then Option.None
    else if items[0].key == String(name) then Some(items[0].value)
    else Find(items[1..], name)
  }

  lemma {:induction false} FindPut(items: seq<Item>, name: string, v: Value, other: string)
    ensures Find(Put(items, name, v), other) == if other == name then Some(v) else Find(items, other)
  {
    if items != [] {
      FindPut(items[1..], name, v, other);
    }
  }

  predicate HasKey(items: seq<Item>, name: string) {
    exists i :: 0 <= i < |items| && items[i].key == String(name)
  }

  /** Distinct keys, all of them strings. */
  ghost predicate Proper(items: seq<Item>) {
    (forall i :: 0 <= i < |items| ==> items[i].key.String?) &&
    (forall i, j :: 0 <= i < j < |items| ==> items[i].key != items[j].key)
  }

  lemma {:induction false} FindIffKey(items: seq<Item>, name: string)
    ensures Find(items, name).Some? <==> HasKey(items, name)
  {
    if items != [] && items[0].key != String(name) {
      FindIffKey(items[1..], name);
      if HasKey(items, name) {
        var i :| 0 <= i < |items| && items[i].key == String(name);
        assert items[1..][i - 1].key == String(name);
      }
      if HasKey(items[1..], name) {
        var i :| 0 <= i < |items| - 1 && items[1..][i].key == String(name);
        assert items[i + 1].key == String(name);
      }
    }
  }

  /** In a proper list the item at any position is the one found under its key. */
  lemma {:induction false} FindAt(items: seq<Item>, i: nat)
    requires Proper(items) && i < |items|
    ensures Find(items, items[i].key.s) == Some(items[i].value)
  {
    if i > 0 {
      FindAt(items[1..], i - 1);
    }
  }

  lemma {:induction false} PutProper(items: seq<Item>, name: string, v: Value)
    requires Proper(items)
    ensures Proper(Put(items, name, v))
    ensures forall i :: 0 <= i < |Put(items, name, v)| ==>
      Put(items, name, v)[i].key == String(name) ||
      exists j :: 0 <= j < |items| && items[j].key == Put(items, name, v)[i].key
  {
    if items != [] && items[0].key != String(name) {
      var rest := Put(items[1..], name, v);
      PutProper(items[1..], name, v);
      forall i | 0 <= i < |rest|
        ensures rest[i].key != items[0].key
        ensures rest[i].key == String(name) || exists j :: 0 <= j < |items| && items[j].key == rest[i].key
      {
        if rest[i].key != String(name) {
          var j :| 0 <= j < |items| - 1 && items[1..][j].key == rest[i].key;
          assert items[j + 1].key == rest[i].key;
        }
      }
    }
  }

  // ---------------------------------------------------------------- what conforms

  /** `CheckType`. */
  predicate HasType(v: Value, typeName: string) {
    match typeName
    case "" => true
    case "string" => v.String?
    case "int" => v.Int?
    case "float" => v.Float?
    case "bool" => v.Bool?
    case "list" => v.List?
    case "dict" => v.Dict? && v.kind != Mutable
    case _ => false
  }

  predicate InEnum(eq: Equality, v: Value, enum: seq<Value>) {
    exists i :: 0 <= i < |enum| && eq(v, enum[i])
  }

  predicate ListOfSchema(f: Field) {
    f.schema.None? && f.items.Some? && f.typeName == "list"
  }

  /** A dict that satisfies the schema: all keys are declared, no required field is missing, and every
      value given is acceptable. */
  predicate Conforms(eq: Equality, s: Schema, items: seq<Item>)
    decreases items, 1
  {
    ItemsConform(eq, s, items) &&
    forall f | f in s.fields && Lookup(s.fields, f.name).value.required :: HasKey(items, f.name)
  }

  predicate ItemsConform(eq: Equality, s: Schema, items: seq<Item>)
    decreases items, 0
  {
    items == [] ||
    var last := items[|items| - 1];
    assert last.value < last;
    (ItemsConform(eq, s, items[..|items| - 1]) && last.key.String? &&
     var f := Lookup(s.fields, last.key.s);
     f.Some? && if last.value == Value.None then !f.value.required else Accepts(eq, f.value, last.value))
  }

  /** A value other than None that the field accepts. A schema instance is accepted unseen. */
  predicate Accepts(eq: Equality, f: Field, v: Value)
    decreases v, 2
  {
    if f.schema.Some? then InstanceOf(eq, f.schema.value, v)
    else if ListOfSchema(f) then v.List? && ElemsConform(eq, f.items.value, v.elems)
    else HasType(v, f.typeName) && (f.enum.Some? ==> InEnum(eq, v, f.enum.value))
  }

  /** A schema instance, or a plain dict that could become one. */
  predicate InstanceOf(eq: Equality, s: Schema, v: Value)
    decreases v, 1
  {
    v.Dict? && (v.kind.Tagged? || (v.kind == Plain && Conforms(eq, s, v.items)))
  }

  predicate ElemsConform(eq: Equality, s: Schema, elems: seq<Value>)
    decreases elems, 0
  {
    elems == [] || (ElemsConform(eq, s, elems[..|elems| - 1]) && InstanceOf(eq, s, elems[|elems| - 1]))
  }

  // ---------------------------------------------------------------- what is stored

  /** The validated form of a conforming dict: what was given, then the defaults of what was not. */
  function Validated(s: Schema, items: seq<Item>): seq<Item>
    decreases items, 1
  {
    WithDefaults(s, s.fields, items, Given(s, items))
  }

  function Given(s: Schema, items: seq<Item>): seq<Item>
    decreases items, 0
  {
    if items == [] then []
    else
      var before, last := Given(s, items[..|items| - 1]), items[|items| - 1];
      assert last.value < last;
      var f := if last.key.String? then Lookup(s.fields, last.key.s) else Option.None;
      if f.None? then before
      else if last.value != Value.None then Put(before, last.key.s, Stored(f.value, last.value))
      else if !f.value.required && f.value.default != Value.None then Put(before, last.key.s, f.value.default)
      else before
  }

  function WithDefaults(s: Schema, fields: seq<Field>, items: seq<Item>, given: seq<Item>): seq<Item>
    decreases items, 0, |fields|
  {
    if fields == [] then given
    else
      var before, last := WithDefaults(s, fields[..|fields| - 1], items, given), fields[|fields| - 1];
      var f := Lookup(s.fields, last.name);
      if f.None? || HasKey(items, last.name) || f.value.required || f.value.default == Value.None then before
      else Put(before, last.name, f.value.default)
  }

  function Stored(f: Field, v: Value): Value
    decreases v, 2
  {
    if f.schema.Some? then Instance(f.schema.value, v)
    else if ListOfSchema(f) && v.List? then List(Instances(f.items.value, v.elems))
    else v
  }

  function Instance(s: Schema, v: Value): Value
    decreases v, 1
  {
    if v.Dict? && !v.kind.Tagged? then Dict(Tagged(s.name), Validated(s, v.items)) else v
  }

  function Instances(s: Schema, elems: seq<Value>): (r: seq<Value>)
    ensures |r| == |elems|
    decreases elems, 0
  {
    if elems == [] then [] else Instances(s, elems[..|elems| - 1]) + [Instance(s, elems[|elems| - 1])]
  }

  // ---------------------------------------------------------------- what that means

  /** No later field bears the name of this one. */
  ghost predicate LastOfName(fields: seq<Field>, i: nat)
    requires i < |fields|
  {
    forall j :: i < j < |fields| ==> fields[j].name != fields[i].name
  }

  /** The field that counts under its name. */
  ghost predicate Declares(fields: seq<Field>, f: Field) {
    exists i :: 0 <= i < |fields| && LastOfName(fields, i) && fields[i] == f
  }

  lemma {:induction false} LookupLast(fields: seq<Field>, i: nat)
    requires i < |fields| && LastOfName(fields, i)
    ensures Lookup(fields, fields[i].name) == Some(fields[i])
  {
    var n := |fields| - 1;
    if i < n {
      assert fields[n].name != fields[i].name;
      LookupLast(fields[..n], i);
    }
  }

  lemma {:induction false} LookupAt(fields: seq<Field>, name: string) returns (i: nat)
    requires Lookup(fields, name).Some?
    ensures i < |fields| && LastOfName(fields, i) && fields[i] == Lookup(fields, name).value
  {
    var n := |fields| - 1;
    if fields[n].name == name {
      i := n;
    } else {
      i := LookupAt(fields[..n], name);
    }
  }

  lemma LookupExactly(fields: seq<Field>, f: Field)
    ensures Lookup(fields, f.name) == Some(f) <==> Declares(fields, f)
  {
    if Declares(fields, f) {
      var i :| 0 <= i < |fields| && LastOfName(fields, i) && fields[i] == f;
      LookupLast(fields, i);
    }
    if Lookup(fields, f.name).Some? {
      var i := LookupAt(fields, f.name);
    }
  }

  /** The type names and the values they admit; no name admits all of them. A mutable dict wrapper has
      none of these types. */
  lemma HasTypeExactly(v: Value, typeName: string)
    ensures HasType(v, typeName) <==>
      || typeName == ""
      || (typeName == "string" && v.String?)
      || (typeName == "int" && v.Int?)
      || (typeName == "float" && v.Float?)
      || (typeName == "bool" && v.Bool?)
      || (typeName == "list" && v.List?)
      || (typeName == "dict" && v.Dict? && (v.kind == Plain || v.kind == Converted || v.kind.Tagged?))
  {
  }

  /** A value in the place of a schema: an instance of any schema, or a plain dict that satisfies this one. */
  ghost predicate FitsSchema(eq: Equality, s: Schema, v: Value) {
    v.Dict? && (v.kind.Tagged? || (v.kind == Plain && Conforms(eq, s, v.items)))
  }

  lemma {:induction false} ElemsConformIff(eq: Equality, s: Schema, elems: seq<Value>)
    ensures ElemsConform(eq, s, elems) <==> forall i :: 0 <= i < |elems| ==> FitsSchema(eq, s, elems[i])
    decreases |elems|
  {
    hide Conforms;
    if elems != [] {
      ElemsConformIff(eq, s, elems[..|elems| - 1]);
    }
  }

  /** What a field accepts: for a nested schema a value in its place, for a list with an element schema a
      list of such values, and otherwise a value of the type that, with an enum, equals one of its values. */
  lemma AcceptsExactly(eq: Equality, f: Field, v: Value)
    ensures f.schema.Some? ==> (Accepts(eq, f, v) <==> FitsSchema(eq, f.schema.value, v))
    ensures f.schema.None? && f.items.Some? && f.typeName == "list" ==>
      (Accepts(eq, f, v) <==> v.List? && forall i :: 0 <= i < |v.elems| ==> FitsSchema(eq, f.items.value, v.elems[i]))
    ensures f.schema.None? && (f.items.None? || f.typeName != "list") ==>
      (Accepts(eq, f, v) <==>
         HasType(v, f.typeName) &&
         (f.enum.Some? ==> exists i :: 0 <= i < |f.enum.value| && eq(v, f.enum.value[i])))
  {
    hide HasType, Conforms;
    if f.schema.None? && f.items.Some? && v.List? {
      ElemsConformIff(eq, f.items.value, v.elems);
    }
  }

  /** A key with a declared field that admits the value; None stands for a value that is not given. */
  ghost predicate ItemFits(eq: Equality, s: Schema, item: Item) {
    exists f :: Declares(s.fields, f) && item.key == String(f.name) &&
      if item.value == Value.None then !f.required else Accepts(eq, f, item.value)
  }

  lemma ItemFitsIff(eq: Equality, s: Schema, item: Item)
    ensures ItemFits(eq, s, item) <==>
      item.key.String? &&
      var f := Lookup(s.fields, item.key.s);
      f.Some? && if item.value == Value.None then !f.value.required else Accepts(eq, f.value, item.value)
  {
    hide Accepts;
    if item.key.String? && Lookup(s.fields, item.key.s).Some? {
      LookupExactly(s.fields, Lookup(s.fields, item.key.s).value);
    }
    forall f | Declares(s.fields, f) ensures Lookup(s.fields, f.name) == Some(f) {
      LookupExactly(s.fields, f);
    }
  }

  lemma {:induction false} ItemsConformIff(eq: Equality, s: Schema, items: seq<Item>)
    ensures ItemsConform(eq, s, items) <==> forall i :: 0 <= i < |items| ==> ItemFits(eq, s, items[i])
    decreases |items|
  {
    hide Accepts, Lookup, ItemFits;
    if items != [] {
      ItemsConformIff(eq, s, items[..|items| - 1]);
      ItemFitsIff(eq, s, items[|items| - 1]);
    }
  }

  /** What satisfies a schema: every item fits a declared field, and every required field is there. */
  lemma ConformsExactly(eq: Equality, s: Schema, items: seq<Item>)
    ensures Conforms(eq, s, items) <==>
      && (forall i :: 0 <= i < |items| ==> ItemFits(eq, s, items[i]))
      && (forall f: Field :: Declares(s.fields, f) && f.required ==> exists i :: 0 <= i < |items| && items[i].key == String(f.name))
  {
    hide Accepts, ItemFits, Declares, ItemsConform, Lookup;
    ItemsConformIff(eq, s, items);
    forall f: Field ensures Lookup(s.fields, f.name) == Some(f) <==> Declares(s.fields, f) {
      LookupExactly(s.fields, f);
    }
    assert forall f :: f in s.fields ==> Lookup(s.fields, f.name).Some?;
    assert forall f :: f in s.fields ==> Lookup(s.fields, f.name).value in s.fields && Lookup(s.fields, f.name).value.name == f.name;
  }

  /** What is stored in the place of a schema: a dict becomes an instance with its validated items, and an
      instance stays as it is. */
  ghost predicate IsInstance(s: Schema, v: Value, stored: Value) {
    if v.Dict? && !v.kind.Tagged? then stored == Dict(Tagged(s.name), Validated(s, v.items)) else stored == v
  }

  lemma {:induction false} InstancesEach(s: Schema, elems: seq<Value>, i: nat)
    requires i < |elems|
    ensures IsInstance(s, elems[i], Instances(s, elems)[i])
    decreases |elems|
  {
    hide Validated;
    if i < |elems| - 1 {
      InstancesEach(s, elems[..|elems| - 1], i);
    }
  }

  /** What a field stores: an instance of its schema, a list of them, or the value itself. */
  lemma StoredExactly(f: Field, v: Value)
    ensures f.schema.Some? ==> IsInstance(f.schema.value, v, Stored(f, v))
    ensures f.schema.None? && f.items.Some? && f.typeName == "list" && v.List? ==>
      && Stored(f, v).List? && |Stored(f, v).elems| == |v.elems|
      && forall i :: 0 <= i < |v.elems| ==> IsInstance(f.items.value, v.elems[i], Stored(f, v).elems[i])
    ensures f.schema.None? && (f.items.None? || f.typeName != "list" || !v.List?) ==> Stored(f, v) == v
  {
    hide Validated;
    if f.items.Some? && v.List? {
      forall i | 0 <= i < |v.elems| ensures IsInstance(f.items.value, v.elems[i], Instances(f.items.value, v.elems)[i]) {
        InstancesEach(f.items.value, v.elems, i);
      }
    }
  }

  // ---------------------------------------------------------------- string keys

  /** Every dict that validation descends into has string keys only. */
  predicate Keyed(s: Schema, items: seq<Item>)
    decreases items, 0
  {
    items == [] ||
    var last := items[|items| - 1];
    assert last.value < last;
    (Keyed(s, items[..|items| - 1]) && last.key.String? &&
     var f := Lookup(s.fields, last.key.s);
     (f.Some? ==> KeyedValue(f.value, last.value)))
  }

  predicate KeyedValue(f: Field, v: Value)
    decreases v, 2
  {
    if f.schema.Some? then KeyedInstance(f.schema.value, v)
    else ListOfSchema(f) && v.List? ==> KeyedElems(f.items.value, v.elems)
  }

  predicate KeyedInstance(s: Schema, v: Value)
    decreases v, 1
  {
    v.Dict? && v.kind == Plain ==> Keyed(s, v.items)
  }

  predicate KeyedElems(s: Schema, elems: seq<Value>)
    decreases elems, 0
  {
    elems == [] || (KeyedElems(s, elems[..|elems| - 1]) && KeyedInstance(s, elems[|elems| - 1]))
  }

  lemma {:induction false} KeyedPrefix(s: Schema, items: seq<Item>, n: nat)
    requires Keyed(s, items) && n <= |items|
    ensures Keyed(s, items[..n])
    decreases |items|
  {
    if n < |items| {
      KeyedPrefix(s, items[..|items| - 1], n);
      assert items[..|items| - 1][..n] == items[..n];
    } else {
      assert items[..n] == items;
    }
  }

  lemma {:induction false} KeyedElemsPrefix(s: Schema, elems: seq<Value>, n: nat)
    requires KeyedElems(s, elems) && n <= |elems|
    ensures KeyedElems(s, elems[..n])
    decreases |elems|
  {
    if n < |elems| {
      KeyedElemsPrefix(s, elems[..|elems| - 1], n);
      assert elems[..|elems| - 1][..n] == elems[..n];
    } else {
      assert elems[..n] == elems;
    }
  }

  // ---------------------------------------------------------------- what is reported

  /** A problem of a dict below `prefix`: one of a given item, or a required field that is missing. */
  ghost predicate IsProblem(eq: Equality, s: Schema, items: seq<Item>, prefix: seq<Segment>, e: Error)
    decreases items, 1
  {
    GivenProblem(eq, s, items, prefix, e) || MissingProblem(s.fields, s, items, prefix, e)
  }

  ghost predicate GivenProblem(eq: Equality, s: Schema, items: seq<Item>, prefix: seq<Segment>, e: Error)
    decreases items, 0
  {
    exists i :: 0 <= i < |items| && ItemProblem(eq, s, items[i], prefix, e)
  }

  ghost predicate MissingProblem(fields: seq<Field>, s: Schema, items: seq<Item>, prefix: seq<Segment>, e: Error) {
    exists f :: f in fields && Lookup(s.fields, f.name).Some? && Lookup(s.fields, f.name).value.required
                && !HasKey(items, f.name) && e == Error(prefix + [Key(f.name)], Missing)
  }

  /** An undeclared key, None for a required field, or a problem of the value. */
  ghost predicate ItemProblem(eq: Equality, s: Schema, item: Item, prefix: seq<Segment>, e: Error)
    decreases item, 3
  {
    item.key.String? &&
    var f, path := Lookup(s.fields, item.key.s), prefix + [Key(item.key.s)];
    if f.None? then e == Error(path, Unknown)
    else if item.value == Value.None then f.value.required && e == Error(path, Missing)
    else ValueProblem(eq, f.value, item.value, path, e)
  }

  /** A value of the wrong type, outside the enum, or with a problem inside. */
  ghost predicate ValueProblem(eq: Equality, f: Field, v: Value, path: seq<Segment>, e: Error)
    decreases v, 2
  {
    if f.schema.Some? then InstanceProblem(eq, f.schema.value, v, path, e)
    else if ListOfSchema(f) then
      if v.List? then ElemProblem(eq, f.items.value, v.elems, path, e) else e == Error(path, WrongType)
    else if !HasType(v, f.typeName) then e == Error(path, WrongType)
    else f.enum.Some? && !InEnum(eq, v, f.enum.value) && e == Error(path, NotInEnum)
  }

  ghost predicate InstanceProblem(eq: Equality, s: Schema, v: Value, path: seq<Segment>, e: Error)
    decreases v, 1
  {
    if v.Dict? && v.kind.Tagged? then false
    else if v.Dict? && v.kind == Plain then IsProblem(eq, s, v.items, path, e)
    else e == Error(path, WrongType)
  }

  ghost predicate ElemProblem(eq: Equality, s: Schema, elems: seq<Value>, path: seq<Segment>, e: Error)
    decreases elems, 0
  {
    exists i :: 0 <= i < |elems| && InstanceProblem(eq, s, elems[i], path + [Index(i)], e)
  }

  lemma GivenProblemStep(eq: Equality, s: Schema, items: seq<Item>, i: nat, prefix: seq<Segment>)
    requires i < |items|
    ensures forall e :: GivenProblem(eq, s, items[..i + 1], prefix, e) <==>
      GivenProblem(eq, s, items[..i], prefix, e) || ItemProblem(eq, s, items[i], prefix, e)
  {
    hide ItemProblem;
    var before, upTo := items[..i], items[..i + 1];
    assert upTo == before + [items[i]];
    forall e | GivenProblem(eq, s, before, prefix, e) ensures GivenProblem(eq, s, upTo, prefix, e) {
      var j :| 0 <= j < i && ItemProblem(eq, s, before[j], prefix, e);
      assert upTo[j] == before[j];
    }
    assert upTo[i] == items[i];
  }

  lemma ElemProblemStep(eq: Equality, s: Schema, elems: seq<Value>, i: nat, path: seq<Segment>)
    requires i < |elems|
    ensures forall e :: ElemProblem(eq, s, elems[..i + 1], path, e) <==>
      ElemProblem(eq, s, elems[..i], path, e) || InstanceProblem(eq, s, elems[i], path + [Index(i)], e)
  {
    hide InstanceProblem;
    var before, upTo := elems[..i], elems[..i + 1];
    assert upTo == before + [elems[i]];
    forall e | ElemProblem(eq, s, before, path, e) ensures ElemProblem(eq, s, upTo, path, e) {
      var j :| 0 <= j < i && InstanceProblem(eq, s, before[j], path + [Index(j)], e);
      assert upTo[j] == before[j];
    }
    assert upTo[i] == elems[i];
  }

  // ---------------------------------------------------------------- the validator

  /** `checkEnum`. */
  method CheckEnum(eq: Equality, v: Value, enum: seq<Value>) returns (found: bool)
    ensures found == InEnum(eq, v, enum)
  {
    for i := 0 to |enum|
      invariant forall j :: 0 <= j < i ==> !eq(v, enum[j])
    {
      if eq(v, enum[i]) {
        return true;
      }
    }
    found := false;
  }

  /** `validateFields`: no error exactly when the items conform, and then the validated form. Exactly the
      problems are reported, all of them below the prefix. */
  method ValidateFields(eq: Equality, s: Schema, items: seq<Item>, prefix: seq<Segment>)
    returns (result: seq<Item>, errs: seq<Error>)
    requires Keyed(s, items)
    ensures errs == [] <==> Conforms(eq, s, items)
    ensures errs == [] ==> result == Validated(s, items)
    ensures forall e :: e in errs <==> IsProblem(eq, s, items, prefix, e)
    ensures forall e | e in errs :: prefix < e.path
    decreases items, 1
  {
    var given, seen, missing;
    given, seen, errs := CheckGiven(eq, s, items, prefix);
    result, missing := ApplyDefaults(s, items, given, seen, prefix);
    errs := errs + missing;
  }

  ghost predicate RequiredPresent(s: Schema, fields: seq<Field>, items: seq<Item>)
    requires fields <= s.fields
  {
    forall f | f in fields && Lookup(s.fields, f.name).value.required :: HasKey(items, f.name)
  }

  /** The second phase of `validateFields`. */
  method ApplyDefaults(s: Schema, ghost items: seq<Item>, given: seq<Item>, seen: set<string>,
                       prefix: seq<Segment>)
    returns (result: seq<Item>, errs: seq<Error>)
    requires forall name :: name in seen <==> Lookup(s.fields, name).Some? && HasKey(items, name)
    ensures errs == [] <==> RequiredPresent(s, s.fields, items)
    ensures result == WithDefaults(s, s.fields, items, given)
    ensures forall e :: e in errs <==> MissingProblem(s.fields, s, items, prefix, e)
    ensures forall e | e in errs :: prefix < e.path
  {
    result, errs := given, [];
    var i := 0;
    while i < |s.fields|
      invariant 0 <= i <= |s.fields|
      invariant errs == [] <==> RequiredPresent(s, s.fields[..i], items)
      invariant result == WithDefaults(s, s.fields[..i], items, given)
      invariant forall e :: e in errs <==> MissingProblem(s.fields[..i], s, items, prefix, e)
      invariant forall e | e in errs :: prefix < e.path
    {
      var name := s.fields[i].name;
      assert s.fields[..i + 1][..i] == s.fields[..i];
      assert s.fields[..i + 1] == s.fields[..i] + [s.fields[i]];
      if name !in seen {
        var f := Lookup(s.fields, name).value;
        if f.required {
          errs := errs + [Error(prefix + [Key(name)], Missing)];
        } else if f.default != Value.None {
          result := Put(result, name, f.default);
        }
      }
      i := i + 1;
    }
    assert s.fields[..i] == s.fields;
  }

  lemma GivenStep(eq: Equality, s: Schema, items: seq<Item>, i: nat)
    requires i < |items| && items[i].key.String?
    ensures
      var key, v := items[i].key.s, items[i].value;
      var f, before := Lookup(s.fields, key), Given(s, items[..i]);
      && (ItemsConform(eq, s, items[..i + 1]) <==>
            ItemsConform(eq, s, items[..i]) && f.Some? &&
            if v == Value.None then !f.value.required else Accepts(eq, f.value, v))
      && Given(s, items[..i + 1]) ==
           if f.None? then before
           else if v != Value.None then Put(before, key, Stored(f.value, v))
           else if !f.value.required && f.value.default != Value.None then Put(before, key, f.value.default)
           else before
  {
    hide Accepts, Stored, Put, Lookup;
    assert items[..i + 1][..i] == items[..i];
  }

  lemma GivenNil(eq: Equality, s: Schema)
    ensures ItemsConform(eq, s, []) && Given(s, []) == [] && forall name :: !HasKey([], name)
    ensures forall prefix, e :: !GivenProblem(eq, s, [], prefix, e)
  {
  }

  lemma {:induction false} KeyedAt(s: Schema, items: seq<Item>, i: nat)
    requires Keyed(s, items) && i < |items|
    ensures items[i].key.String?
    ensures Lookup(s.fields, items[i].key.s).Some? ==> KeyedValue(Lookup(s.fields, items[i].key.s).value, items[i].value)
  {
    hide KeyedValue;
    KeyedPrefix(s, items, i + 1);
    assert items[..i + 1][..i] == items[..i];
  }

  /** The first phase of `validateFields`. */
  method CheckGiven(eq: Equality, s: Schema, items: seq<Item>, prefix: seq<Segment>)
    returns (result: seq<Item>, seen: set<string>, errs: seq<Error>)
    requires Keyed(s, items)
    ensures errs == [] <==> ItemsConform(eq, s, items)
    ensures errs == [] ==> result == Given(s, items)
    ensures forall name :: name in seen <==> Lookup(s.fields, name).Some? && HasKey(items, name)
    ensures forall e :: e in errs <==> GivenProblem(eq, s, items, prefix, e)
    ensures forall e | e in errs :: prefix < e.path
    decreases items, 0
  {
    hide Keyed, KeyedValue, ItemsConform, Given, Accepts, Stored, HasKey, Put, Lookup, GivenProblem, ValueProblem;
    result, seen, errs := [], {}, [];
    GivenNil(eq, s);
    var i := 0;
    while i < |items|
      invariant 0 <= i <= |items|
      invariant errs == [] <==> ItemsConform(eq, s, items[..i])
      invariant errs == [] ==> result == Given(s, items[..i])
      invariant forall name :: name in seen <==> Lookup(s.fields, name).Some? && HasKey(items[..i], name)
      invariant forall e :: e in errs <==> GivenProblem(eq, s, items[..i], prefix, e)
      invariant forall e | e in errs :: prefix < e.path
    {
      var item := items[i];
      assert item.value < item;
      KeyedAt(s, items, i);
      HasKeyStep(items, i);
      GivenStep(eq, s, items, i);
      GivenProblemStep(eq, s, items, i, prefix);
      var f := Lookup(s.fields, item.key.s);
      var path := prefix + [Key(item.key.s)];
      if f.None? {
        errs := errs + [Error(path, Unknown)];
      } else {
        seen := seen + {item.key.s};
        if item.value == Value.None {
          if f.value.required {
            errs := errs + [Error(path, Missing)];
          } else if f.value.default != Value.None {
            result := Put(result, item.key.s, f.value.default);
          }
        } else {
          var v, more := CheckValue(eq, f.value, item.value, path);
          errs := errs + more;
          if more == [] {
            result := Put(result, item.key.s, v);
          }
        }
      }
      i := i + 1;
    }
    assert items[..i] == items;
  }

  lemma HasKeyStep(items: seq<Item>, i: nat)
    requires i < |items|
    ensures forall name :: HasKey(items[..i + 1], name) <==> HasKey(items[..i], name) || items[i].key == String(name)
  {
    assert items[..i + 1] == items[..i] + [items[i]];
    forall name | HasKey(items[..i], name) ensures HasKey(items[..i + 1], name) {
      var j :| 0 <= j < i && items[..i][j].key == String(name);
      assert items[..i + 1][j].key == String(name);
    }
    assert items[..i + 1][i] == items[i];
  }

  /** The checks of one value other than None. */
  method CheckValue(eq: Equality, f: Field, v: Value, path: seq<Segment>)
    returns (r: Value, errs: seq<Error>)
    requires KeyedValue(f, v)
    ensures errs == [] <==> Accepts(eq, f, v)
    ensures errs == [] ==> r == Stored(f, v)
    ensures forall e :: e in errs <==> ValueProblem(eq, f, v, path, e)
    ensures forall e | e in errs :: path <= e.path
    decreases v, 2
  {
    r, errs := v, [];
    if f.schema.Some? {
      r, errs := CheckInstance(eq, f.schema.value, v, path);
    } else if f.items.Some? && f.typeName == "list" {
      if !v.List? {
        errs := [Error(path, WrongType)];
      } else {
        var elems;
        elems, errs := CheckElems(eq, f.items.value, v.elems, path);
        r := List(elems);
      }
    } else if f.typeName != "" && !HasType(v, f.typeName) {
      errs := [Error(path, WrongType)];
    } else if f.enum.Some? {
      var found := CheckEnum(eq, v, f.enum.value);
      if !found {
        errs := [Error(path, NotInEnum)];
      }
    }
  }

  method CheckInstance(eq: Equality, s: Schema, v: Value, path: seq<Segment>)
    returns (r: Value, errs: seq<Error>)
    requires KeyedInstance(s, v)
    ensures errs == [] <==> InstanceOf(eq, s, v)
    ensures errs == [] ==> r == Instance(s, v)
    ensures forall e :: e in errs <==> InstanceProblem(eq, s, v, path, e)
    ensures forall e | e in errs :: path <= e.path
    decreases v, 1
  {
    r, errs := v, [];
    if v.Dict? && v.kind.Tagged? {
      return;
    }
    if v.Dict? && v.kind == Plain {
      var items;
      items, errs := ValidateFields(eq, s, v.items, path);
      r := Dict(Tagged(s.name), items);
    } else {
      errs := [Error(path, WrongType)];
    }
  }

  method CheckElems(eq: Equality, s: Schema, elems: seq<Value>, path: seq<Segment>)
    returns (r: seq<Value>, errs: seq<Error>)
    requires KeyedElems(s, elems)
    ensures errs == [] <==> ElemsConform(eq, s, elems)
    ensures errs == [] ==> r == Instances(s, elems)
    ensures forall e :: e in errs <==> ElemProblem(eq, s, elems, path, e)
    ensures forall e | e in errs :: path <= e.path
    decreases elems, 0
  {
    r, errs := [], [];
    var i := 0;
    while i < |elems|
      invariant 0 <= i <= |elems|
      invariant errs == [] <==> ElemsConform(eq, s, elems[..i])
      invariant errs == [] ==> r == Instances(s, elems[..i])
      invariant forall e :: e in errs <==> ElemProblem(eq, s, elems[..i], path, e)
      invariant forall e | e in errs :: path <= e.path
    {
      KeyedElemsPrefix(s, elems, i + 1);
      ElemProblemStep(eq, s, elems, i, path);
      assert elems[..i + 1][..i] == elems[..i];
      var v, more := CheckInstance(eq, s, elems[i], path + [Index(i)]);
      errs := errs + more;
      if more == [] {
        r := r + [v];
      }
      i := i + 1;
    }
    assert elems[..i] == elems;
  }

  // ---------------------------------------------------------------- mutation

  /** A wrapper around a dict that is not a schema instance. */
  predicate Wrapper(v: Value) {
    v.Dict? && (v.kind == Converted || v.kind == Mutable)
  }

  /** What an assignment to a field accepts. */
  predicate MutationAccepts(eq: Equality, s: Schema, name: string, v: Value) {
    var f := Lookup(s.fields, name);
    f.Some? &&
    if v == Value.None then !f.value.required
    else if f.value.schema.Some? && Wrapper(v) then Conforms(eq, f.value.schema.value, v.items)
    else Accepts(eq, f.value, v)
  }

  /** What it stores; nothing if the key is to be deleted. */
  function MutationStores(s: Schema, name: string, v: Value): Option<Value> {
    var f := Lookup(s.fields, name);
    if f.None? then Option.None
    else if v != Value.None then Some(Stored(f.value, v))
    else if f.value.default != Value.None then Some(f.value.default)
    else Option.None
  }

  /** A problem of an assignment: that of an item, or one of the dict in a wrapper for a nested schema. */
  ghost predicate MutationProblem(eq: Equality, s: Schema, name: string, v: Value, e: Error) {
    var f := Lookup(s.fields, name);
    if f.Some? && f.value.schema.Some? && Wrapper(v) then IsProblem(eq, f.value.schema.value, v.items, [Key(name)], e)
    else ItemProblem(eq, s, Item(String(name), v), [], e)
  }

  /** `ValidateMutation`: the checks of one assignment, written apart from those of construction. It
      stops at the first problem, which lies at or below the assigned field. */
  method ValidateMutation(eq: Equality, s: Schema, name: string, v: Value)
    returns (r: Result<Option<Value>, Error>)
    requires Lookup(s.fields, name).Some? ==>
      var f := Lookup(s.fields, name).value;
      KeyedValue(f, v) && (f.schema.Some? && Wrapper(v) ==> Keyed(f.schema.value, v.items))
    ensures r.Ok? <==> MutationAccepts(eq, s, name, v)
    ensures r.Ok? ==> r.value == MutationStores(s, name, v)
    ensures r.Err? ==> MutationProblem(eq, s, name, v, r.error) && [Key(name)] <= r.error.path
  {
    var found := Lookup(s.fields, name);
    assert [] + [Key(name)] == [Key(name)];
    if found.None? {
      return Err(Error([Key(name)], Unknown));
    }
    var f := found.value;
    if v == Value.None {
      if f.required {
        return Err(Error([Key(name)], Missing));
      }
      if f.default != Value.None {
        return Ok(Some(f.default));
      }
      return Ok(Option.None);
    }
    if f.schema.Some? {
      var nested := AssignNested(eq, f.schema.value, v, name);
      assert Accepts(eq, f, v) == InstanceOf(eq, f.schema.value, v) && Stored(f, v) == Instance(f.schema.value, v);
      return match nested case Ok(w) => Ok(Some(w)) case Err(e) => Err(e);
    }
    if f.items.Some? && f.typeName == "list" {
      if !v.List? {
        return Err(Error([Key(name)], WrongType));
      }
      var elems := AssignList(eq, f.items.value, v.elems, name);
      return match elems case Ok(validated) => Ok(Some(List(validated))) case Err(e) => Err(e);
    }
    if f.typeName != "" && !HasType(v, f.typeName) {
      return Err(Error([Key(name)], WrongType));
    }
    if f.enum.Some? {
      var inEnum := CheckEnum(eq, v, f.enum.value);
      if !inEnum {
        return Err(Error([Key(name)], NotInEnum));
      }
    }
    r := Ok(Some(v));
  }

  /** The type switch for a nested schema: an instance, a plain dict, or a wrapper around a dict. */
  method AssignNested(eq: Equality, s: Schema, v: Value, name: string) returns (r: Result<Value, Error>)
    requires v.Dict? && (v.kind == Plain || Wrapper(v)) ==> Keyed(s, v.items)
    ensures r.Ok? <==> InstanceOf(eq, s, v) || (Wrapper(v) && Conforms(eq, s, v.items))
    ensures r.Ok? ==> r.value == Instance(s, v)
    ensures r.Err? ==>
      if Wrapper(v) then IsProblem(eq, s, v.items, [Key(name)], r.error)
      else InstanceProblem(eq, s, v, [Key(name)], r.error)
    ensures r.Err? ==> [Key(name)] <= r.error.path
  {
    if v.Dict? && v.kind.Tagged? {
      return Ok(v);
    }
    if v.Dict? {
      var items, errs := ValidateFields(eq, s, v.items, [Key(name)]);
      if errs != [] {
        assert errs[0] in errs;
        return Err(errs[0]);
      }
      return Ok(Dict(Tagged(s.name), items));
    }
    r := Err(Error([Key(name)], WrongType));
  }

  /** The loop over a list of schema elements; it returns at the first element that is refused. */
  method AssignList(eq: Equality, s: Schema, elems: seq<Value>, name: string) returns (r: Result<seq<Value>, Error>)
    requires KeyedElems(s, elems)
    ensures r.Ok? <==> ElemsConform(eq, s, elems)
    ensures r.Ok? ==> r.value == Instances(s, elems)
    ensures r.Err? ==> exists i :: 0 <= i < |elems| && ElemsConform(eq, s, elems[..i]) && !InstanceOf(eq, s, elems[i])
                                   && InstanceProblem(eq, s, elems[i], [Key(name)] + [Index(i)], r.error)
                                   && [Key(name), Index(i)] <= r.error.path
  {
    var validated: seq<Value> := [];
    var i := 0;
    while i < |elems|
      invariant 0 <= i <= |elems|
      invariant ElemsConform(eq, s, elems[..i]) && validated == Instances(s, elems[..i])
    {
      var elem, path := elems[i], [Key(name), Index(i)];
      assert path == [Key(name)] + [Index(i)];
      KeyedElemsPrefix(s, elems, i + 1);
      assert elems[..i + 1][..i] == elems[..i];
      if elem.Dict? && elem.kind.Tagged? {
        validated := validated + [elem];
      } else if elem.Dict? && elem.kind == Plain {
        var items, errs := ValidateFields(eq, s, elem.items, path);
        if errs != [] {
          assert errs[0] in errs;
          RefusedElem(eq, s, elems, i);
          return Err(errs[0]);
        }
        validated := validated + [Dict(Tagged(s.name), items)];
      } else {
        RefusedElem(eq, s, elems, i);
        return Err(Error(path, WrongType));
      }
      i := i + 1;
    }
    assert elems[..i] == elems;
    r := Ok(validated);
  }

  /** One element that is no instance and cannot become one spoils the list. */
  lemma {:induction false} RefusedElem(eq: Equality, s: Schema, elems: seq<Value>, i: nat)
    requires i < |elems| && !InstanceOf(eq, s, elems[i])
    ensures !ElemsConform(eq, s, elems)
    decreases |elems|
  {
    if i < |elems| - 1 {
      RefusedElem(eq, s, elems[..|elems| - 1], i);
    }
  }

  // ---------------------------------------------------------------- what validation guarantees

  /** Construction and assignment agree on every value of every field, except that assignment also
      takes wrappers for nested schemas, which construction rejects. */
  lemma MutationAgreesExactly(eq: Equality, s: Schema, name: string, v: Value)
    ensures ItemsConform(eq, s, [Item(String(name), v)]) <==>
      (MutationAccepts(eq, s, name, v) &&
       !(Wrapper(v) && Lookup(s.fields, name).value.schema.Some?))
    ensures ItemsConform(eq, s, [Item(String(name), v)]) ==>
      Find(Given(s, [Item(String(name), v)]), name) == MutationStores(s, name, v)
  {
    var one := [Item(String(name), v)];
    assert one[..|one| - 1] == [];
    assert ItemsConform(eq, s, []) && Given(s, []) == [];
    var f := Lookup(s.fields, name);
    assert ItemsConform(eq, s, one) <==>
      (f.Some? && if v == Value.None then !f.value.required else Accepts(eq, f.value, v));
    if f.Some? {
      FindPut([], name, Stored(f.value, v), name);
      FindPut([], name, f.value.default, name);
      assert f.value.schema.Some? ==> Accepts(eq, f.value, v) == InstanceOf(eq, f.value.schema.value, v);
    }
  }

  /** A wrapper is assigned exactly when the dict in it satisfies the nested schema, whose instance is stored. */
  lemma WrapperAssigned(eq: Equality, s: Schema, f: Field, v: Value)
    requires Declares(s.fields, f) && f.schema.Some?
    requires v.Dict? && (v.kind == Converted || v.kind == Mutable)
    ensures MutationAccepts(eq, s, f.name, v) <==> Conforms(eq, f.schema.value, v.items)
    ensures MutationStores(s, f.name, v) == Some(Dict(Tagged(f.schema.value.name), Validated(f.schema.value, v.items)))
  {
    hide Conforms, Validated, Lookup;
    LookupExactly(s.fields, f);
    assert Stored(f, v) == Instance(f.schema.value, v);
  }

  /** A wrapper that can be assigned but not passed to the constructor. */
  lemma WrapperIsOnlyAssignable(eq: Equality)
    ensures
      var inner := Schema("Inner", []);
      var s := Schema("Outer", [Field("spec", "", Some(inner), Option.None, false, Value.None, Option.None)]);
      var v := Dict(Converted, []);
      MutationAccepts(eq, s, "spec", v) && !Conforms(eq, s, [Item(String("spec"), v)])
  {
    var inner := Schema("Inner", []);
    var s := Schema("Outer", [Field("spec", "", Some(inner), Option.None, false, Value.None, Option.None)]);
    MutationAgreesExactly(eq, s, "spec", Dict(Converted, []));
    assert Conforms(eq, inner, []);
  }

  /** The item that conforming items hold for a key fits the field of that name. */
  lemma {:induction false} ConformingAt(eq: Equality, s: Schema, items: seq<Item>, i: nat)
    requires ItemsConform(eq, s, items) && i < |items|
    ensures items[i].key.String? && Lookup(s.fields, items[i].key.s).Some?
    ensures
      var f := Lookup(s.fields, items[i].key.s).value;
      if items[i].value == Value.None then !f.required else Accepts(eq, f, items[i].value)
    decreases |items|
  {
    if i < |items| - 1 {
      ConformingAt(eq, s, items[..|items| - 1], i);
    }
  }

  lemma {:induction false} ConformingIf(eq: Equality, s: Schema, items: seq<Item>)
    requires forall i :: 0 <= i < |items| ==> items[i].key.String? && Lookup(s.fields, items[i].key.s).Some?
    requires forall i :: 0 <= i < |items| ==>
      var f := Lookup(s.fields, items[i].key.s).value;
      if items[i].value == Value.None then !f.required else Accepts(eq, f, items[i].value)
    ensures ItemsConform(eq, s, items)
    decreases |items|
  {
    if items != [] {
      ConformingIf(eq, s, items[..|items| - 1]);
    }
  }

  /** What the first phase leaves under a name. */
  function GivenFor(s: Schema, items: seq<Item>, name: string): Option<Value> {
    var f, v := Lookup(s.fields, name), Find(items, name);
    if f.None? || v.None? then Option.None
    else if v.value != Value.None then Some(Stored(f.value, v.value))
    else if !f.value.required && f.value.default != Value.None then Some(f.value.default)
    else Option.None
  }

  lemma {:induction false} FindLast(items: seq<Item>, name: string)
    requires Proper(items) && items != []
    ensures
      var before, last := items[..|items| - 1], items[|items| - 1];
      Proper(before) &&
      Find(items, name) == if last.key == String(name) then Some(last.value) else Find(before, name)
    ensures items[|items| - 1].key == String(name) ==> Find(items[..|items| - 1], name).None?
  {
    var before, last := items[..|items| - 1], items[|items| - 1];
    if |items| > 1 {
      assert items[1..][..|items| - 2] == before[1..];
      FindLast(items[1..], name);
    }
  }

  lemma {:induction false} FindGiven(s: Schema, items: seq<Item>, name: string)
    requires Proper(items)
    ensures Find(Given(s, items), name) == GivenFor(s, items, name)
    decreases |items|
  {
    if items != [] {
      var before, last := items[..|items| - 1], items[|items| - 1];
      FindLast(items, name);
      FindGiven(s, before, name);
      var f := Lookup(s.fields, last.key.s);
      if f.Some? {
        FindPut(Given(s, before), last.key.s, Stored(f.value, last.value), name);
        FindPut(Given(s, before), last.key.s, f.value.default, name);
      }
    }
  }

  lemma {:induction false} FindWithDefaults(s: Schema, fields: seq<Field>, items: seq<Item>, given: seq<Item>,
                                            name: string)
    ensures Find(WithDefaults(s, fields, items, given), name) ==
      var f := Lookup(s.fields, name);
      if Lookup(fields, name).Some? && f.Some? && !HasKey(items, name) && !f.value.required &&
         f.value.default != Value.None
      then Some(f.value.default) else Find(given, name)
    decreases |fields|
  {
    if fields != [] {
      var last := fields[|fields| - 1];
      FindWithDefaults(s, fields[..|fields| - 1], items, given, name);
      var f := Lookup(s.fields, last.name);
      if f.Some? {
        FindPut(WithDefaults(s, fields[..|fields| - 1], items, given), last.name, f.value.default, name);
      }
    }
  }

  /** The value that construction leaves in a field. */
  function Outcome(s: Schema, items: seq<Item>, name: string): Option<Value> {
    var f, v := Lookup(s.fields, name), Find(items, name);
    if f.None? then Option.None
    else if v.Some? && v.value != Value.None then Some(Stored(f.value, v.value))
    else if f.value.default != Value.None then Some(f.value.default)
    else Option.None
  }

  /** The validated form of a conforming dict has exactly the fields that were given a value other
      than None, and the defaults of the others. */
  lemma ValidatedFields(eq: Equality, s: Schema, items: seq<Item>, name: string)
    requires Proper(items) && Conforms(eq, s, items)
    ensures Find(Validated(s, items), name) == Outcome(s, items, name)
    ensures forall f | Declares(s.fields, f) && f.name == name ::
      var v, r := Find(items, name), Find(Validated(s, items), name);
      && (v.Some? && v.value != Value.None ==> r == Some(Stored(f, v.value)))
      && (v.None? || v.value == Value.None ==> r == if f.default == Value.None then Option.None else Some(f.default))
    ensures (forall f :: f in s.fields ==> f.name != name) ==> Find(Validated(s, items), name).None?
  {
    forall f | Declares(s.fields, f) && f.name == name ensures Lookup(s.fields, name) == Some(f) {
      LookupExactly(s.fields, f);
    }
    FindGiven(s, items, name);
    FindWithDefaults(s, s.fields, items, Given(s, items), name);
    FindIffKey(items, name);
    if HasKey(items, name) {
      var i :| 0 <= i < |items| && items[i].key == String(name);
      ConformingAt(eq, s, items, i);
      FindAt(items, i);
    } else {
      var f := Lookup(s.fields, name);
      assert f.Some? ==> f.value.name == name;
    }
  }

  /** Assigning each field separately stores what construction stores. */
  lemma MutationStoresTheSame(eq: Equality, s: Schema, items: seq<Item>, i: nat)
    requires Proper(items) && Conforms(eq, s, items) && i < |items|
    ensures MutationAccepts(eq, s, items[i].key.s, items[i].value)
    ensures MutationStores(s, items[i].key.s, items[i].value) == Find(Validated(s, items), items[i].key.s)
  {
    ConformingAt(eq, s, items, i);
    FindAt(items, i);
    ValidatedFields(eq, s, items, items[i].key.s);
  }

  // ---------------------------------------------------------------- revalidation

  /** A default is used for a field that was not given, or given as None. */
  predicate UsesDefault(items: seq<Item>, f: Field) {
    f.default != Value.None && (Find(items, f.name).None? || Find(items, f.name).value == Value.None)
  }

  /** Every default that is used is a value its own field accepts. */
  ghost predicate DefaultsFit(eq: Equality, s: Schema, items: seq<Item>) {
    forall f | f in s.fields ::
      var d := Lookup(s.fields, f.name).value;
      UsesDefault(items, d) ==> Accepts(eq, d, d.default)
  }

  /** And one that the field stores as it is. */
  ghost predicate DefaultsStable(s: Schema, items: seq<Item>) {
    forall f | f in s.fields ::
      var d := Lookup(s.fields, f.name).value;
      UsesDefault(items, d) ==> Stored(d, d.default) == d.default
  }

  lemma {:induction false} InstancesStable(eq: Equality, s: Schema, elems: seq<Value>)
    requires ElemsConform(eq, s, elems)
    ensures ElemsConform(eq, s, Instances(s, elems))
    ensures Instances(s, Instances(s, elems)) == Instances(s, elems)
  {
    if elems != [] {
      var before := elems[..|elems| - 1];
      InstancesStable(eq, s, before);
      assert Instances(s, elems)[..|elems| - 1] == Instances(s, before);
    }
  }

  /** A stored value is accepted again and stored as it is. */
  lemma StoredIsStable(eq: Equality, f: Field, v: Value)
    requires Accepts(eq, f, v)
    ensures Accepts(eq, f, Stored(f, v)) && Stored(f, Stored(f, v)) == Stored(f, v)
  {
    if ListOfSchema(f) {
      InstancesStable(eq, f.items.value, v.elems);
    }
  }

  lemma {:induction false} GivenIsProper(s: Schema, items: seq<Item>)
    ensures Proper(Given(s, items))
    decreases |items|
  {
    if items != [] {
      var before, last := items[..|items| - 1], items[|items| - 1];
      GivenIsProper(s, before);
      var f := if last.key.String? then Lookup(s.fields, last.key.s) else Option.None;
      if f.Some? {
        PutProper(Given(s, before), last.key.s, Stored(f.value, last.value));
        PutProper(Given(s, before), last.key.s, f.value.default);
      }
    }
  }

  lemma {:induction false} DefaultsAreProper(s: Schema, fields: seq<Field>, items: seq<Item>, given: seq<Item>)
    requires Proper(given)
    ensures Proper(WithDefaults(s, fields, items, given))
    decreases |fields|
  {
    if fields != [] {
      var before, last := fields[..|fields| - 1], fields[|fields| - 1];
      DefaultsAreProper(s, before, items, given);
      var f := Lookup(s.fields, last.name);
      if f.Some? {
        PutProper(WithDefaults(s, before, items, given), last.name, f.value.default);
      }
    }
  }

  lemma ValidatedIsProper(s: Schema, items: seq<Item>)
    ensures Proper(Validated(s, items))
  {
    GivenIsProper(s, items);
    DefaultsAreProper(s, s.fields, items, Given(s, items));
  }

  lemma OutcomeFits(eq: Equality, s: Schema, items: seq<Item>, name: string)
    requires Proper(items) && Conforms(eq, s, items) && DefaultsFit(eq, s, items)
    requires Outcome(s, items, name).Some?
    ensures
      var f, v := Lookup(s.fields, name).value, Outcome(s, items, name).value;
      v != Value.None && Accepts(eq, f, v) && (DefaultsStable(s, items) ==> Stored(f, v) == v)
  {
    var f, v := Lookup(s.fields, name).value, Find(items, name);
    FindIffKey(items, name);
    if v.Some? && v.value != Value.None {
      var i :| 0 <= i < |items| && items[i].key == String(name);
      ConformingAt(eq, s, items, i);
      FindAt(items, i);
      StoredIsStable(eq, f, v.value);
    } else {
      assert f in s.fields;
    }
  }

  lemma RequiredIsGiven(eq: Equality, s: Schema, items: seq<Item>, name: string)
    requires Proper(items) && Conforms(eq, s, items)
    requires Lookup(s.fields, name).Some? && Lookup(s.fields, name).value.required
    ensures Find(items, name).Some? && Find(items, name).value != Value.None
  {
    var f := Lookup(s.fields, name).value;
    assert f in s.fields && f.name == name;
    var i :| 0 <= i < |items| && items[i].key == String(name);
    ConformingAt(eq, s, items, i);
    FindAt(items, i);
  }

  /** A validated dict satisfies its own schema exactly when every default that was used fits. */
  lemma ValidIffDefaultsFit(eq: Equality, s: Schema, items: seq<Item>)
    requires Proper(items) && Conforms(eq, s, items)
    ensures Conforms(eq, s, Validated(s, items)) <==> DefaultsFit(eq, s, items)
  {
    ValidatedIsProper(s, items);
    if DefaultsFit(eq, s, items) {
      ValidatedConforms(eq, s, items);
    }
    if Conforms(eq, s, Validated(s, items)) {
      UsedDefaultsFit(eq, s, items);
    }
  }

  lemma ValidatedConforms(eq: Equality, s: Schema, items: seq<Item>)
    requires Proper(items) && Conforms(eq, s, items) && DefaultsFit(eq, s, items)
    ensures Conforms(eq, s, Validated(s, items))
  {
    var r := Validated(s, items);
    ValidatedIsProper(s, items);
    forall i | 0 <= i < |r|
      ensures Lookup(s.fields, r[i].key.s).Some? && r[i].value != Value.None
      ensures Accepts(eq, Lookup(s.fields, r[i].key.s).value, r[i].value)
    {
      FindAt(r, i);
      ValidatedFields(eq, s, items, r[i].key.s);
      OutcomeFits(eq, s, items, r[i].key.s);
    }
    ConformingIf(eq, s, r);
    forall f | f in s.fields && Lookup(s.fields, f.name).value.required ensures HasKey(r, f.name) {
      RequiredIsGiven(eq, s, items, f.name);
      ValidatedFields(eq, s, items, f.name);
      FindIffKey(r, f.name);
    }
  }

  lemma UsedDefaultsFit(eq: Equality, s: Schema, items: seq<Item>)
    requires Proper(items) && Conforms(eq, s, items)
    requires Proper(Validated(s, items)) && Conforms(eq, s, Validated(s, items))
    ensures DefaultsFit(eq, s, items)
  {
    var r := Validated(s, items);
    forall f | f in s.fields && UsesDefault(items, Lookup(s.fields, f.name).value)
      ensures var d := Lookup(s.fields, f.name).value; Accepts(eq, d, d.default)
    {
      ValidatedFields(eq, s, items, f.name);
      FindIffKey(r, f.name);
      var i :| 0 <= i < |r| && r[i].key == String(f.name);
      ConformingAt(eq, s, r, i);
      FindAt(r, i);
    }
  }

  /** Validating it again then changes no field, if the defaults used are stored as they are. */
  lemma Revalidates(eq: Equality, s: Schema, items: seq<Item>, name: string)
    requires Proper(items) && Conforms(eq, s, items)
    requires DefaultsFit(eq, s, items) && DefaultsStable(s, items)
    ensures Find(Validated(s, Validated(s, items)), name) == Find(Validated(s, items), name)
  {
    ValidatedIsProper(s, items);
    ValidatedConforms(eq, s, items);
    ValidatedFields(eq, s, items, name);
    ValidatedFields(eq, s, Validated(s, items), name);
    if Outcome(s, items, name).Some? {
      OutcomeFits(eq, s, items, name);
    }
  }
}
