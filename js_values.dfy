/**
 * JavaScript values as they travel through JSON request bodies, state objects and
 * enriched news records, together with JavaScript's notion of truthiness.
 */
module JsValues {
  import opened Wrappers

  /** A JSON value. Numbers are reals; NaN is not representable. */
  datatype JsValue =
    | JNull
    | JBool(b: bool)
    | JNumber(n: real)
    | JString(s: string)
    | JArray(items: seq<JsValue>)
    | JObject(fields: map<string, JsValue>)

  /** A JavaScript object whose own enumerable properties are `fields`. */
  type Record = map<string, JsValue>

  /** `!!v`: null, false, 0 and "" are falsy; every other value, arrays and objects included, is truthy. */
  predicate Truthy(v: JsValue)
  {
    match v
    case JNull => false
    case JBool(b) => b
    case JNumber(n) => n != 0.0
    case JString(s) => s != ""
    case JArray(_) => true
    case JObject(_) => true
  }

  /** Truthiness of a property read that may yield `undefined` (modelled as `None`). */
  predicate TruthyProp(v: Option<JsValue>)
  {
    v.Some? && Truthy(v.value)
  }

  /** `obj.key`: the property, or `undefined`. */
  function Get(obj: Record, key: string): (v: Option<JsValue>)
    ensures v.Some? <==> key in obj
    ensures v.Some? ==> v.value == obj[key]
  {
    if key in obj then Some(obj[key]) else None
  }

  /** `{...a, ...b}`: every property of both; on a clash the right-hand object wins. */
  function Spread(a: Record, b: Record): (r: Record)
    ensures r.Keys == a.Keys + b.Keys
    ensures forall k :: k in b ==> r[k] == b[k]
    ensures forall k :: k in a && k !in b ==> r[k] == a[k]
  {
    a + b
  }
}
