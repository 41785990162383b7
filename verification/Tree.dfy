/** The JSON-shaped values an event holds: Go's map[string]any, []any and scalars. */
module Tree {
  datatype Value =
    | Null
    | Bool(b: bool)
    | Num(n: int)
    | Int(i: int)   // Go's own int, which a number is only until the redactor has walked it
    | Str(s: string)
    | Arr(items: seq<Value>)
    | Obj(fields: Object)

  type Object = map<string, Value>
}
