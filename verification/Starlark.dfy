/** Starlark values as scripts build them. */
module Starlark {
  import Proto

  /** A plain dict, or one of the wrappers around a dict: a converted protobuf struct, a validated
      schema instance, or a mutable struct. */
  datatype DictKind = Plain | Converted | Tagged(schemaName: string) | Mutable

  datatype Item = Item(key: Value, value: Value)

  /** The items of a dict are in insertion order; its keys are distinct. */
  datatype Value =
    | None
    | Bool(b: bool)
    | Int(i: int)
    | Float(n: Proto.Number)
    | String(s: string)
    | List(elems: seq<Value>)
    | Tuple(members: seq<Value>)
    | Dict(kind: DictKind, items: seq<Item>)
    | Other(typeName: string)
}
