/** The scalar values a tenant id or a model attribute can hold. */
module Values {

  /** A PHP scalar as far as tenancy cares about it. `Null` is PHP's null. */
  datatype Value = Null | Bool(b: bool) | Int(i: int) | Str(s: string)

  /** PHP truthiness: what `if ($v)` accepts. */
  predicate Truthy(v: Value) {
    match v
    case Null => false
    case Bool(b) => b
    case Int(i) => i != 0
    case Str(s) => s != "" && s != "0"
  }
}
