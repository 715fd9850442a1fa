/** What `json.loads` can return; numbers are integers here. */
module JsonValues {
  datatype Json =
    | Null
    | Bool(b: bool)
    | Num(n: int)
    | Str(s: string)
    | List(items: seq<Json>)
    | Obj(entries: map<string, Json>)
}
