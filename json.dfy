/**
 * The dynamically typed JSON value the service stores (serde_json's `Value`)
 * and the three operations on it that the handlers use: indexing an object by
 * key, `as_str`, and comparing a value with a string.
 */
module Json {
  import opened Wrappers

  /** A JSON document. Numbers are kept as integers: the store never looks at them. */
  datatype Value =
    | Null
    | Bool(b: bool)
    | Number(n: int)
    | Str(s: string)
    | Array(elems: seq<Value>)
    | Object(fields: map<string, Value>)

  /**
   * `v[key]`: the field of an object, and `Null` both for a missing key and
   * for a value that is not an object (indexing never fails).
   */
  function Get(v: Value, key: string): (r: Value)
    ensures v.Object? && key in v.fields ==> r == v.fields[key]
    ensures !(v.Object? && key in v.fields) ==> r == Null
  {
    match v
    case Object(fields) => if key in fields then fields[key] else Null
    case _ => Null
  }

  /** `v.as_str()`: the text of a JSON string, nothing for any other value. */
  function AsStr(v: Value): (r: Option<string>)
    ensures r.Some? <==> v.Str?
    ensures v.Str? ==> r.value == v.s
  {
    if v.Str? then Some(v.s) else None
  }

  /** `item["id"].as_str()`: the record's string id, if it has one. */
  function IdOf(item: Value): (r: Option<string>)
    ensures r.Some? ==> item.Object? && "id" in item.fields && item.fields["id"] == Str(r.value)
    ensures r.None? ==> !item.Object? || "id" !in item.fields || !item.fields["id"].Str?
  {
    AsStr(Get(item, "id"))
  }

  /**
   * `item["id"] == id`: serde_json compares a value with a string only when
   * the value is a JSON string, so an item matches exactly when it is an
   * object whose "id" field is that string; nothing else ever matches.
   */
  predicate MatchesId(item: Value, id: string)
    ensures MatchesId(item, id) <==> IdOf(item) == Some(id)
    ensures MatchesId(item, id) ==> item.Object? && "id" in item.fields && item.fields["id"] == Str(id)
  {
    Get(item, "id") == Str(id)
  }
}
