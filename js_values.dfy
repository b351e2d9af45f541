/**
 * The few JavaScript semantics the request handler relies on: the values a
 * JSON request body can hold, truthiness, `typeof`, object destructuring and
 * the valid range of a `Date`. Section numbers refer to ECMA-262.
 *
 * Numbers are restricted to integers: NaN, the infinities, -0 and fractions
 * are not modelled.
 */
module JsValues {
  import opened Wrappers

  datatype Value =
    | Undefined
    | Null
    | Bool(b: bool)
    | Num(n: int)
    | Str(s: string)
    | Arr(items: seq<Value>)
    | Obj(fields: map<string, Value>)

  /** ToBoolean (section 7.1.2): the test behind `!x`. */
  predicate Truthy(v: Value)
    ensures Truthy(v) <==> v != Undefined && v != Null && v != Bool(false) && v != Num(0) && v != Str("")
  {
    match v
    case Undefined => false
    case Null => false
    case Bool(b) => b
    case Num(n) => n != 0
    case Str(s) => s != ""
    case Arr(_) => true
    case Obj(_) => true
  }

  /** The `typeof` operator (section 13.5.3). */
  function TypeOf(v: Value): (t: string)
    ensures t == "string" <==> v.Str?
    ensures t == "number" <==> v.Num?
    ensures t == "object" <==> v.Null? || v.Arr? || v.Obj?
  {
    match v
    case Undefined => "undefined"
    case Null => "object"
    case Bool(_) => "boolean"
    case Num(_) => "number"
    case Str(_) => "string"
    case Arr(_) => "object"
    case Obj(_) => "object"
  }

  /** RequireObjectCoercible (section 7.2.1): destructuring anything else throws a TypeError. */
  predicate ObjectCoercible(v: Value) {
    !v.Undefined? && !v.Null?
  }

  /**
   * Reads property `key` of `v` while destructuring: the object's own field,
   * or `undefined`. Used only for names that are neither array indices nor
   * built-in properties of strings or arrays ("message", "mode", "ttl").
   */
  function Property(v: Value, key: string): (r: Option<Value>)
    ensures r.None? <==> !ObjectCoercible(v)
    ensures r.Some? && r.value != Undefined ==> v.Obj? && key in v.fields && v.fields[key] == r.value
    ensures v.Obj? && key in v.fields ==> r == Some(v.fields[key])
    ensures ObjectCoercible(v) && !(v.Obj? && key in v.fields) ==> r == Some(Undefined)
  {
    match v
    case Undefined => None
    case Null => None
    case Obj(fields) => Some(if key in fields then fields[key] else Undefined)
    case _ => Some(Undefined)
  }

  /** The largest absolute time value, in milliseconds, a `Date` can hold (section 21.4.1.1). */
  const MaxTimeValue: int := 8_640_000_000_000_000

  /**
   * TimeClip (section 21.4.1.31) keeps `t` exactly when it is within range;
   * otherwise the `Date` is invalid and `toISOString` throws a RangeError
   * (section 21.4.4.36).
   */
  predicate InTimeRange(t: int)
    ensures InTimeRange(t) <==> (if t < 0 then -t else t) <= MaxTimeValue
  {
    -MaxTimeValue <= t <= MaxTimeValue
  }
}
