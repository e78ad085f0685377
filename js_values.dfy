/**
 * The JavaScript values the desk tool stores in its configuration document
 * and computes with: JSON values, and numbers that may be NaN.
 * Only integral numbers are modelled; floating-point values are not.
 */
module JsValues {

  /** A JSON document as `JSON.parse` produces it. */
  datatype Value =
    | Null
    | Bool(b: bool)
    | Num(n: int)
    | Str(s: string)
    | Arr(items: seq<Value>)
    | Obj(fields: map<string, Value>)

  /** A JavaScript number as the tool produces it: an integer or NaN. */
  datatype Number = Finite(n: int) | NaN

  /** JavaScript truthiness of a JSON value (`!v` is its negation). */
  predicate Truthy(v: Value) {
    match v
    case Null => false
    case Bool(b) => b
    case Num(n) => n != 0
    case Str(s) => s != ""
    case Arr(_) => true
    case Obj(_) => true
  }

  /** JavaScript truthiness of a number: 0 and NaN are falsy. */
  predicate TruthyNumber(x: Number) {
    x.Finite? && x.n != 0
  }

  /** `JSON.stringify` then `JSON.parse` of a number: NaN becomes null. */
  function NumberToJson(x: Number): (v: Value)
    ensures x.Finite? ==> v == Num(x.n)
    ensures x.NaN? ==> v == Null
    ensures Truthy(v) <==> TruthyNumber(x)
  {
    match x
    case Finite(n) => Num(n)
    case NaN => Null
  }
}
