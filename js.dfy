/** JavaScript value semantics the data pipeline of js/map.js relies on. */
module Js {

  /** A property of a parsed JSON/CSV record: missing (`undefined`),
      explicitly `null`, or present with a value. */
  datatype JsValue<T> = Undefined | Null | Defined(value: T)

  /** The string a value turns into when it is concatenated with a string
      (`firstname + " " + surname`) or used as a `d3.nest` key. */
  function ToStr(v: JsValue<string>): (s: string)
    ensures v.Defined? ==> s == v.value
  {
    match v
    case Undefined => "undefined"
    case Null => "null"
    case Defined(s) => s
  }

  /** Truthiness of a numeric property: `undefined`, `null` and `0` are
      falsy (NaN is not modelled). */
  predicate Truthy(v: JsValue<real>) {
    v.Defined? && v.value != 0.0
  }
}
