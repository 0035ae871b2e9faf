/** The JavaScript values that reach the exporter's entry points. */
module Js {

  /**
   * `Undefined` stands for `undefined` and `null`; `Str` for a string; `Array` for an array;
   * `Object` for any other value (a plain object, as the query-string parser builds for
   * `pages[key]=...`, a number, an event).
   */
  datatype Value = Undefined | Str(s: string) | Array(elements: seq<Value>) | Object

  /** JavaScript truthiness, for the values above (an `Object` is taken to be truthy). */
  predicate Truthy(v: Value) {
    !(v.Undefined? || v == Str(""))
  }

  /** `String(v)` for a plain object. */
  const OBJECT_STRING: string := "[object Object]"

  function Strs(xs: seq<string>): seq<Value>
  {
    seq(|xs|, k requires 0 <= k < |xs| => Str(xs[k]))
  }
}
