/** JavaScript values as the dashboard sees them: untyped documents read from
    the store, with `undefined`, `null`, truthiness and `String(...)` made explicit. */
module Json {
  import Decimal

  /** A JavaScript value. Numbers are integers here; nested objects are field maps. */
  datatype Value =
    | Undefined
    | Null
    | Bool(b: bool)
    | Num(n: int)
    | Str(s: string)
    | Obj(fields: map<string, Value>)

  /** A record: a plain object from field name to value. */
  type Doc = map<string, Value>

  /** Property read `d[k]`: a missing field reads as `undefined`. */
  function Get(d: Doc, k: string): Value {
    if k in d then d[k] else Undefined
  }

  /** JavaScript truthiness (`!!v`). */
  predicate Truthy(v: Value) {
    match v
    case Undefined => false
    case Null => false
    case Bool(b) => b
    case Num(n) => n != 0
    case Str(s) => s != ""
    case Obj(_) => true
  }

  /** `String(v)`: how an id or a name is turned into text. */
  function ToJsString(v: Value): string {
    match v
    case Undefined => "undefined"
    case Null => "null"
    case Bool(b) => if b then "true" else "false"
    case Num(n) => Decimal.IntToString(n)
    case Str(s) => s
    case Obj(_) => "[object Object]"
  }

  /** `String(v)` is empty exactly for the empty string, so `String(id)` of a
      missing id is the non-empty text "undefined". */
  lemma ToJsStringEmpty(v: Value)
    ensures ToJsString(v) == "" <==> v == Str("")
  {
  }

  /** The primitive values a search may compare against (`string | number`). */
  datatype Scalar = SStr(str: string) | SNum(num: int)

  function ScalarValue(x: Scalar): Value {
    match x
    case SStr(s) => Str(s)
    case SNum(n) => Num(n)
  }

  /** `v === x` for a primitive `x`: same type and same value; an object is
      never identical to a primitive. */
  predicate StrictEquals(v: Value, x: Scalar) {
    match x
    case SStr(s) => v.Str? && v.s == s
    case SNum(n) => v.Num? && v.n == n
  }

  /** Strict equality never converts: a number never equals a string and a string
      never equals a number, whatever their printed forms. */
  lemma StrictEqualsNoCoercion(v: Value, x: Scalar)
    ensures StrictEquals(v, x) <==> v == ScalarValue(x)
    ensures v.Num? && x.SStr? ==> !StrictEquals(v, x)
    ensures v.Str? && x.SNum? ==> !StrictEquals(v, x)
  {
  }
}
