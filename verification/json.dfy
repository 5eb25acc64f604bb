/** The dynamic values that flow through the generator and the settings:
    the JSON-like subset of Python values the source stores in dicts. */
module Json {

  datatype Value =
    | Null                                  // Python None
    | Bool(b: bool)
    | Int(i: int)
    | Str(s: string)
    | List(items: seq<Value>)
    | Dict(entries: map<string, Value>)
}
