/** The JavaScript values the accessor reads and sends, and the little of
    JavaScript's semantics the accessor relies on: truthiness, property
    lookup `v.key` and indexing `v[0]`. */
module Js {

  /** A JavaScript value. Numbers are integers here: the accessor only ever
      builds small integer constants, and NaN and fractions are not modelled.
      An object is its own (enumerable) properties. */
  datatype Value =
    | Undefined
    | Null
    | Bool(b: bool)
    | Num(n: int)
    | Str(s: string)
    | Arr(items: seq<Value>)
    | Obj(fields: map<string, Value>)

  /** `null` and `undefined`: the two values whose property access throws a TypeError. */
  predicate Nullish(v: Value) {
    v.Undefined? || v.Null?
  }

  /** JavaScript's `if (v)` test. */
  predicate Truthy(v: Value)
    ensures Truthy(v) ==> !Nullish(v)
    ensures v.Arr? || v.Obj? ==> Truthy(v)
  {
    match v
    case Undefined => false
    case Null => false
    case Bool(b) => b
    case Num(n) => n != 0
    case Str(s) => s != ""
    case Arr(_) => true
    case Obj(_) => true
  }

  /** Property access `v.key` for a key that is none of the built-in
      properties of strings and arrays; a missing property reads as `undefined`. */
  function Get(v: Value, key: string): Value
    requires !Nullish(v)
  {
    match v
    case Obj(fields) => if key in fields then fields[key] else Undefined
    case _ => Undefined
  }

  /** Index access `v[0]`: the first element of an array, the first character
      of a string, the property "0" of an object, `undefined` otherwise. */
  function First(v: Value): Value
    requires !Nullish(v)
  {
    match v
    case Arr(items) => if |items| > 0 then items[0] else Undefined
    case Str(s) => if |s| > 0 then Str([s[0]]) else Undefined
    case Obj(fields) => if "0" in fields then fields["0"] else Undefined
    case _ => Undefined
  }

  /** One `send(port, value)` performed by a handler. */
  datatype Event = Send(port: string, value: Value)
}
