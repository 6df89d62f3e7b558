/**
 * JSON documents as the cache stores them. The wrapper serialises with
 * `json.dumps` and reads back with `json.loads`; for the values built here
 * that round trip is the identity, so a cached value is kept as the document
 * itself.
 */
module JsonData {
  import opened Optional

  datatype Json =
    | Null
    | Bool(b: bool)
    | Int(i: int)
    | Num(r: real)
    | Str(s: string)
    | Arr(items: seq<Json>)
    | Obj(fields: map<string, Json>)

  /** What the cache accepts and returns: `Union[dict, list]`. */
  datatype Payload = Dict(entries: map<string, Json>) | List(elems: seq<Json>)

  /** Python truthiness: an empty dict or list is false. */
  predicate Truthy(p: Payload) {
    match p
    case Dict(m) => |m| > 0
    case List(xs) => |xs| > 0
  }

  /** A nullable string column as a JSON value. */
  function OptionalString(o: Option<string>): Json {
    match o
    case Some(s) => Str(s)
    case None => Null
  }

  /** `d[key]` on a JSON object, or nothing when `j` is not an object or lacks the key. */
  function Field(j: Json, key: string): Option<Json> {
    if j.Obj? && key in j.fields then Some(j.fields[key]) else None
  }
}
