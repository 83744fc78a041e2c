/** The values `JSON.parse` produces, as far as the handler looks at them:
    property lookup and JavaScript truthiness. */
module Json {
  import opened Wrappers

  /** A decoded JSON value. Numbers are kept as finite reals: JSON text
      cannot spell NaN, and a literal too large for a double, which
      `JSON.parse` turns into Infinity, has no counterpart here. Object
      members are keyed by name, the last duplicate winning as `JSON.parse`
      does. */
  datatype Value =
    | JNull
    | JBool(b: bool)
    | JNumber(n: real)
    | JString(s: string)
    | JArray(items: seq<Value>)
    | JObject(members: map<string, Value>)

  /** JavaScript's `!!v`: `null`, `false`, `0` and `""` are falsy, every
      array and object is truthy. */
  predicate Truthy(v: Value) {
    match v
    case JNull => false
    case JBool(b) => b
    case JNumber(n) => n != 0.0
    case JString(s) => |s| > 0
    case JArray(_) => true
    case JObject(_) => true
  }

  /** `v[key]` on a decoded value: an object's member, or `None` (that is,
      `undefined`) when `v` is not an object or lacks the key. On `null` the
      lookup throws instead; the handler treats both the same way. */
  function Member(v: Value, key: string): Option<Value> {
    if v.JObject? && key in v.members then Some(v.members[key]) else None
  }

  /** `!!v[key]`: the member is present and truthy. */
  predicate TruthyMember(v: Value, key: string) {
    Member(v, key).Some? && Truthy(Member(v, key).value)
  }
}
