/**
 * JavaScript values as the extractors of worker.js see them: what `JSON.parse`
 * can return, truthiness, reading a property, and the `||` operator.
 */
module JsValues {

  datatype Option<+T> = None | Some(value: T)

  /** A value produced by `JSON.parse`. JSON has no NaN, so a number is a real. */
  datatype JsValue =
    | JNull
    | JBool(b: bool)
    | JNum(n: real)
    | JStr(s: string)
    | JArr(items: seq<JsValue>)
    | JObj(members: map<string, JsValue>)

  /** JavaScript truthiness: `null`, `false`, `0`, `-0` and `''` are falsy. */
  predicate Truthy(v: JsValue)
  {
    match v
    case JNull => false
    case JBool(b) => b
    case JNum(n) => n != 0.0
    case JStr(s) => s != ""
    case JArr(_) => true
    case JObj(_) => true
  }

  /** Truthiness of a property read, where `None` stands for `undefined`. */
  predicate TruthyRead(o: Option<JsValue>)
  {
    o.Some? && Truthy(o.value)
  }

  /**
   * `v.key` on a value that is not `null` (reading from `null` throws, and every
   * caller tests for that first). Only an object's own members are found: none of
   * the keys worker.js reads is inherited from a prototype.
   */
  function Prop(v: JsValue, key: string): Option<JsValue>
  {
    if v.JObj? && key in v.members then Some(v.members[key]) else None
  }

  /** `a || b`: `a` itself when it is truthy, otherwise `b`. */
  function Or(a: Option<JsValue>, b: JsValue): JsValue
  {
    if TruthyRead(a) then a.value else b
  }
}
