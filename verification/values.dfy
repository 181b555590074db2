/** The decoded bencode value: what the Go code holds in an `any`. */
module Values {
  import opened Bytes

  /**
   * A Go `string`, `int`, `[]any` or `map[string]any`. The decoder never builds
   * a `Dict` inside a `List`: nested dictionaries are decoded as lists.
   */
  datatype Value =
    | Str(text: bytes)
    | Int(n: int)
    | List(items: seq<Value>)
    | Dict(entries: map<bytes, Value>)
}
