/**
 Protobuf values as the function receives and returns them, with the lenient getters of the
 generated Go code: reading through an absent or differently typed value yields nothing.
 */
module Proto {
  import opened Wrappers

  /** A float64 without rounding: the finite numbers are reals. */
  datatype Number = Finite(r: real) | NaN | PosInf | NegInf

  datatype Value =
    | Nil
    | Null
    | Num(n: Number)
    | Str(s: string)
    | Bool(b: bool)
    | Struct(fields: map<string, Value>)
    | List(values: seq<Value>)

  type Fields = map<string, Value>

  /** An observed resource: its body may be absent. */
  type Body = Option<Fields>

  function Field(f: Fields, key: string): Value {
    if key in f then f[key] else Nil
  }

  function StringOf(v: Value): string {
    if v.Str? then v.s else ""
  }

  function FieldsOf(v: Value): Fields {
    if v.Struct? then v.fields else map[]
  }

  function ValuesOf(v: Value): seq<Value> {
    if v.List? then v.values else []
  }

  function BodyFields(b: Body): Fields {
    if b.Some? then b.value else map[]
  }

  /** `isValueTruthy`. */
  predicate Truthy(v: Value) {
    match v
    case Nil | Null => false
    case Str(s) => s != ""
    case Num(n) => n != Finite(0.0)
    case Bool(b) => b
    case Struct(_) | List(_) => true
  }

  /** Only absent values, null, the empty string, zero and false are not truthy. */
  lemma TruthyExactlyWhen(v: Value)
    ensures Truthy(v) <==> v !in {Nil, Null, Str(""), Num(Finite(0.0)), Bool(false)}
  {
  }

  /** The value is a struct with this text under this key. */
  ghost predicate Says(v: Value, key: string, text: string) {
    v.Struct? && key in v.fields && v.fields[key] == Str(text)
  }

  lemma SaysIff(v: Value, key: string, text: string)
    requires text != ""
    ensures StringOf(Field(FieldsOf(v), key)) == text <==> Says(v, key, text)
  {
  }

  // ---------------------------------------------------------------- dotted paths

  /** `strings.Split(path, ".")`. */
  function Split(path: string): (keys: seq<string>)
    ensures |keys| > 0
  {
    if path == "" then [""]
    else
      var rest := Split(path[1..]);
      if path[0] == '.' then [""] + rest else [[path[0]] + rest[0]] + rest[1..]
  }

  function Join(keys: seq<string>): string {
    if keys == [] then "" else if |keys| == 1 then keys[0] else keys[0] + "." + Join(keys[1..])
  }

  lemma JoinDot(keys: seq<string>)
    requires keys != []
    ensures Join([""] + keys) == "." + Join(keys)
  {
    assert ([""] + keys)[1..] == keys;
  }

  lemma JoinExtend(c: char, keys: seq<string>)
    requires keys != []
    ensures Join([[c] + keys[0]] + keys[1..]) == [c] + Join(keys)
  {
    var extended := [[c] + keys[0]] + keys[1..];
    assert extended[1..] == keys[1..];
    if |keys| > 1 {
      assert ([c] + keys[0]) + "." + Join(keys[1..]) == [c] + (keys[0] + "." + Join(keys[1..]));
    }
  }

  /** Joining the keys of a path gives the path back. */
  lemma {:induction false} SplitJoins(path: string)
    ensures Join(Split(path)) == path
  {
    if path != "" {
      hide Join;
      var rest := Split(path[1..]);
      SplitJoins(path[1..]);
      JoinDot(rest);
      JoinExtend(path[0], rest);
      assert path == [path[0]] + path[1..];
    }
  }

  ghost predicate DotFree(keys: seq<string>) {
    forall k :: k in keys ==> '.' !in k
  }

  lemma {:induction false} SplitIsDotFree(path: string)
    ensures DotFree(Split(path))
  {
    if path != "" {
      var rest := Split(path[1..]);
      SplitIsDotFree(path[1..]);
      assert rest[0] in rest;
      assert forall k :: k in rest[1..] ==> k in rest;
    }
  }

  /** No other dot-free keys join to the path: the keys are its pieces between the dots. */
  lemma {:induction false} JoinSplits(keys: seq<string>)
    requires keys != [] && DotFree(keys)
    ensures Split(Join(keys)) == keys
    decreases |keys|, |keys[0]|
  {
    var tail := keys[1..];
    assert forall k :: k in tail ==> k in keys;
    if keys == [""] {
      assert Join([""]) == "";
    } else if keys[0] == "" {
      hide Join;
      JoinSplits(tail);
      JoinDot(tail);
      assert keys == [""] + tail && ("." + Join(tail))[1..] == Join(tail);
    } else {
      hide Join;
      var c, rest := keys[0][0], [keys[0][1..]] + tail;
      assert keys[0] in keys && c in keys[0];
      assert keys[0] == [c] + rest[0] && rest[1..] == tail && keys == [[c] + rest[0]] + rest[1..];
      JoinSplits(rest);
      JoinExtend(c, rest);
      assert ([c] + Join(rest))[1..] == Join(rest);
    }
  }

  /** The value that a chain of keys leads to; every key but the last must lead to a struct. */
  function Lookup(f: Fields, keys: seq<string>): Value
    requires |keys| > 0
    decreases |keys|
  {
    var v := Field(f, keys[0]);
    if |keys| == 1 then v
    else if v.Struct? then Lookup(v.fields, keys[1..])
    else Nil
  }

  /** The structs that a chain of keys leads through, from `f` on. */
  ghost predicate IsChain(f: Fields, keys: seq<string>, chain: seq<Fields>) {
    |chain| == |keys| > 0 && chain[0] == f && forall i :: 0 <= i < |keys| - 1 ==> Links(keys, chain, i)
  }

  ghost predicate Links(keys: seq<string>, chain: seq<Fields>, i: nat)
    requires |chain| == |keys| && i + 1 < |keys|
  {
    keys[i] in chain[i] && chain[i][keys[i]] == Struct(chain[i + 1])
  }

  /** The keys lead from `f` through structs to the value `v`. */
  ghost predicate LeadsTo(f: Fields, keys: seq<string>, v: Value) {
    exists chain :: IsChain(f, keys, chain) && LastLeads(keys, chain, v)
  }

  ghost predicate LastLeads(keys: seq<string>, chain: seq<Fields>, v: Value)
    requires |chain| == |keys| > 0
  {
    var n := |keys| - 1;
    keys[n] in chain[n] && chain[n][keys[n]] == v
  }

  lemma {:induction false} LookupLeads(f: Fields, keys: seq<string>)
    requires |keys| > 0 && Lookup(f, keys) != Nil
    ensures LeadsTo(f, keys, Lookup(f, keys))
    decreases |keys|
  {
    if |keys| == 1 {
      assert IsChain(f, keys, [f]) && LastLeads(keys, [f], Lookup(f, keys));
    } else {
      var next := f[keys[0]].fields;
      LookupLeads(next, keys[1..]);
      var rest :| IsChain(next, keys[1..], rest) && LastLeads(keys[1..], rest, Lookup(f, keys));
      var chain := [f] + rest;
      forall i | 0 <= i < |keys| - 1
        ensures Links(keys, chain, i)
      {
        if i > 0 {
          assert Links(keys[1..], rest, i - 1);
        }
      }
      assert IsChain(f, keys, chain) && LastLeads(keys, chain, Lookup(f, keys));
    }
  }

  lemma {:induction false} LeadsLookup(f: Fields, keys: seq<string>, v: Value)
    requires LeadsTo(f, keys, v)
    ensures |keys| > 0 && Lookup(f, keys) == v
    decreases |keys|
  {
    var chain :| IsChain(f, keys, chain) && LastLeads(keys, chain, v);
    if |keys| > 1 {
      var rest := chain[1..];
      assert Links(keys, chain, 0);
      forall i | 0 <= i < |keys| - 2
        ensures Links(keys[1..], rest, i)
      {
        assert Links(keys, chain, i + 1);
      }
      assert IsChain(chain[1], keys[1..], rest) && LastLeads(keys[1..], rest, v);
      LeadsLookup(chain[1], keys[1..], v);
    }
  }

  /** The lookup finds a value exactly when the keys lead to it. */
  lemma LookupExactly(f: Fields, keys: seq<string>, v: Value)
    requires |keys| > 0 && v != Nil
    ensures Lookup(f, keys) == v <==> LeadsTo(f, keys, v)
  {
    if Lookup(f, keys) == v {
      LookupLeads(f, keys);
    }
    if LeadsTo(f, keys, v) {
      LeadsLookup(f, keys, v);
    }
  }

  lemma LookupStep(f: Fields, key: string, rest: seq<string>)
    requires |rest| > 0
    ensures Lookup(f, [key] + rest) == Lookup(FieldsOf(Field(f, key)), rest)
  {
    assert ([key] + rest)[1..] == rest;
    if !Field(f, key).Struct? {
      LookupInNothing(rest);
    }
  }

  lemma LookupInNothing(keys: seq<string>)
    requires |keys| > 0
    ensures Lookup(map[], keys) == Nil
  {
  }

  predicate FieldReady(b: Body, path: string) {
    b.Some? && Truthy(Lookup(b.value, Split(path)))
  }

  /** `isFieldReady`: the walk over the keys with a current struct. */
  method IsFieldReady(b: Body, path: string) returns (ready: bool)
    ensures ready == FieldReady(b, path)
  {
    if b.None? {
      return false;
    }
    var keys := Split(path);
    var current := b.value;
    var i := 0;
    while i < |keys|
      invariant 0 <= i < |keys|
      invariant Lookup(current, keys[i..]) == Lookup(b.value, keys)
    {
      var key := keys[i];
      if key !in current || current[key].Nil? {
        return false;
      }
      var val := current[key];
      if i == |keys| - 1 {
        return Truthy(val);
      }
      if !val.Struct? {
        return false;
      }
      assert keys[i..][1..] == keys[i + 1..];
      current := val.fields;
      i := i + 1;
    }
    ready := false;
  }
}
