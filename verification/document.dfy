/** The configuration document: what the YAML parser hands over, and what the
    store keeps. Mapping keys are strings; the order of keys is not modelled. */
module Document {
  import opened Wrappers

  datatype Value =
    | Map(entries: map<string, Value>)
    | Seq(items: seq<Value>)
    | Str(text: string)
    | Int(number: int)
    | Bool(flag: bool)
    | Null

  /** Ruby truthiness: everything except `nil` and `false`. */
  predicate Truthy(v: Value)
  {
    !v.Null? && v != Bool(false)
  }

  /** Member access on a wrapped mapping: the stored value, or nil when the
      key is missing. Never fails. */
  function Member(fields: map<string, Value>, name: string): (r: Value)
    ensures name !in fields ==> r.Null?
    ensures name in fields ==> r == fields[name]
  {
    if name in fields then fields[name] else Null
  }

  /** The node reached by following `path` key by key through mappings, or
      None when some key is missing or some node on the way is not a mapping. */
  function Get(v: Value, path: seq<string>): Option<Value>
    decreases |path|
  {
    if |path| == 0 then Some(v)
    else if v.Map? && path[0] in v.entries then Get(v.entries[path[0]], path[1..])
    else None
  }
}
