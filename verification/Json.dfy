/** Untyped model output, as it arrives before validation. */
module Json {
  datatype Value =
    | Null
    | Bool(flag: bool)
    | Int(number: int)
    | Float(amount: real)
    | Str(text: string)
    | List(items: seq<Value>)
    | Dict(fields: map<string, Value>)

  /** Lists and dictionaries cannot be members of a Python set. */
  predicate Hashable(v: Value) {
    !v.List? && !v.Dict?
  }
}
