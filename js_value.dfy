/** The JavaScript values the argument resolver reads and writes, and the
    truthiness test (`if (x)`, `!x`) it applies to them. */
module JsValue {

  datatype Option<+T> = None | Some(value: T)

  /** A JavaScript value as far as the resolver can observe it. Numbers are
      modelled by integers (the rule tables only hold integer defaults). */
  datatype Value = Undefined | Null | Bool(b: bool) | Num(n: int) | Str(s: string)

  /** ECMAScript ToBoolean: `undefined`, `null`, `false`, `0` and `''` are
      falsy, every other value is truthy. */
  predicate Truthy(v: Value) {
    match v
    case Undefined => false
    case Null => false
    case Bool(b) => b
    case Num(n) => n != 0
    case Str(s) => s != ""
  }

  /** Reading `obj[k]` from the configuration object: a key that was never
      assigned reads as `undefined`. Names that a plain `{}` inherits from
      `Object.prototype` (`toString`, `constructor`, `__proto__`, ...) are not
      modelled: the map holds own properties only. */
  function Lookup(obj: map<string, Value>, k: string): (v: Value) {
    if k in obj then obj[k] else Undefined
  }
}
