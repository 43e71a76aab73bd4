/**
 * The untyped values a request body can carry (what `readBody` hands the
 * handlers as `any`), with JavaScript's truthiness.
 */
module JsValue {
  /** A JavaScript value as far as the handlers inspect it. Numbers are
      integers; objects other than arrays carry no modelled fields. */
  datatype Value =
    | Undefined
    | Null
    | Bool(b: bool)
    | Num(n: int)
    | Str(s: string)
    | Arr(items: seq<Value>)
    | Obj

  /** `!!v`: `undefined`, `null`, `false`, `0` and `''` are falsy. */
  predicate Truthy(v: Value) {
    match v
    case Undefined => false
    case Null => false
    case Bool(b) => b
    case Num(n) => n != 0
    case Str(s) => s != ""
    case Arr(_) => true
    case Obj => true
  }
}
