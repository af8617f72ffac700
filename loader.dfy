/**
 * Loading the backing file (`load_db`). Reading the file and parsing its text
 * are outside the model: the input is the JSON document serde has already
 * parsed. What is modelled is the typed view serde imposes on it (a top-level
 * object whose values are all arrays) and the validation loop that then
 * demands a string "id" on every record.
 */
module Loader {
  import opened Wrappers
  import opened Json
  import opened Store

  /** Why loading fails. */
  datatype LoadError =
    | InvalidStructure                           // not an object of arrays
    | InvalidItem(resource: string, index: nat)  // the record at `index` of `resource` has no string id

  /** The record passes the load-time check `item["id"].is_string()`. */
  predicate HasStringId(item: Value)
  {
    IdOf(item).Some?
  }

  /** Every record of the collection passes the load-time check. */
  ghost predicate CollectionValid(items: seq<Value>)
  {
    forall i :: 0 <= i < |items| ==> HasStringId(items[i])
  }

  /** Every record of every collection passes the load-time check. */
  ghost predicate DbValid(db: Db)
  {
    forall r :: r in db ==> CollectionValid(db[r])
  }

  /** The document the store is written as: an object mapping each collection to an array. */
  function ToValue(db: Db): (v: Value)
    ensures v.Object? && v.fields.Keys == db.Keys
    ensures forall r :: r in db ==> v.fields[r] == Array(db[r])
  {
    Object(map r | r in db :: Array(db[r]))
  }

  /**
   * Deserialising a parsed document into `HashMap<String, Vec<Value>>`: only an
   * object whose every value is an array is accepted; a collection given as a
   * lone object is rejected, not wrapped into an array.
   */
  function ToDb(v: Value): (r: Option<Db>)
    ensures r.Some? <==> v.Object? && forall k :: k in v.fields ==> v.fields[k].Array?
    ensures r.Some? ==> r.value.Keys == v.fields.Keys
    ensures r.Some? ==> forall k :: k in r.value ==> v.fields[k] == Array(r.value[k])
  {
    if v.Object? && forall k :: k in v.fields ==> v.fields[k].Array? then
      Some(map k | k in v.fields :: v.fields[k].elems)
    else
      None
  }

  /** Reading back the document a store is written as gives the same store. */
  lemma ToDbInvertsToValue(db: Db)
    ensures ToDb(ToValue(db)) == Some(db)
  {
    var v := ToValue(db);
    var d := ToDb(v).value;
    assert d.Keys == db.Keys;
    forall k | k in d ensures d[k] == db[k] {
      assert Array(d[k]) == v.fields[k] == Array(db[k]);
    }
    assert d == db;
  }

  /** Inner loop: the first index at or after `from` whose record has no string id. */
  function FirstInvalid(items: seq<Value>, from: nat): (r: Option<nat>)
    decreases |items| - from
    ensures r.Some? ==> from <= r.value < |items| && !HasStringId(items[r.value])
    ensures r.Some? ==> forall j :: from <= j < r.value ==> HasStringId(items[j])
    ensures r.None? <==> forall j :: from <= j < |items| ==> HasStringId(items[j])
  {
    if from >= |items| then None
    else if !HasStringId(items[from]) then Some(from)
    else FirstInvalid(items, from + 1)
  }

  /** Every collection listed in `order` before position `n` passes the load-time check. */
  ghost predicate ValidBefore(db: Db, order: seq<string>, n: int)
    requires forall k :: k in order ==> k in db
    requires n <= |order|
  {
    forall m :: 0 <= m < n ==> CollectionValid(db[order[m]])
  }

  /** `x` is listed in `order` after collections that all pass the load-time check. */
  ghost predicate ReachedAfterValid(db: Db, order: seq<string>, x: string)
    requires forall k :: k in order ==> k in db
  {
    exists n :: 0 <= n < |order| && order[n] == x && ValidBefore(db, order, n)
  }

  lemma ReachedAfterValidCons(db: Db, order: seq<string>, x: string)
    requires forall k :: k in order ==> k in db
    requires |order| > 0 && CollectionValid(db[order[0]])
    requires ReachedAfterValid(db, order[1..], x)
    ensures ReachedAfterValid(db, order, x)
  {

  }

  /**
   * Outer loop over the collections, in the map's iteration order `order`: the
   * first collection holding a record without a string id, with that record's
   * index.
   */
  function FindInvalid(db: Db, order: seq<string>): (r: Option<(string, nat)>)
    requires forall k :: k in order ==> k in db
    ensures r.None? <==> ValidBefore(db, order, |order|)
    ensures r.Some? ==> ReachedAfterValid(db, order, r.value.0)
    ensures r.Some? ==> (r.value.0 in db && r.value.1 < |db[r.value.0]|
      && !HasStringId(db[r.value.0][r.value.1])
      && forall j :: 0 <= j < r.value.1 ==> HasStringId(db[r.value.0][j]))
  {
    if |order| == 0 then None
    else match FirstInvalid(db[order[0]], 0)
      case Some(i) =>
        assert ValidBefore(db, order, 0);
        Some((order[0], i))
      case None =>
        var rest := FindInvalid(db, order[1..]);
        if rest.Some? then
          ReachedAfterValidCons(db, order, rest.value.0);
          rest
        else
          assert forall n :: 1 <= n < |order| ==> order[n] == order[1..][n - 1];
          rest
  }

  /**
   * `load_db` after the file has been read and parsed: the typed view must
   * exist, and every record must have a string id. The collections are
   * visited in `order`, the hash map's iteration order.
   */
  function LoadDb(v: Value, order: seq<string>): (r: Result<Db, LoadError>)
    requires v.Object? ==> forall k :: k in order <==> k in v.fields
    ensures r.Success? <==> ToDb(v).Some? && DbValid(ToDb(v).value)
    ensures r.Success? ==> ToDb(v) == Some(r.value)
    ensures r == Failure(InvalidStructure) <==> ToDb(v).None?
    ensures r.Failure? && r.error.InvalidItem? ==>
      && ToDb(v).Some?
      && var db := ToDb(v).value;
      && r.error.resource in db && r.error.index < |db[r.error.resource]|
      && !HasStringId(db[r.error.resource][r.error.index])
      && (forall j :: 0 <= j < r.error.index ==> HasStringId(db[r.error.resource][j]))
      && ReachedAfterValid(db, order, r.error.resource)
  {
    match ToDb(v)
    case None => Failure(InvalidStructure)
    case Some(db) =>
      match FindInvalid(db, order)
      case Some((res, i)) => Failure(InvalidItem(res, i))
      case None =>
        assert forall k :: k in db ==> exists n :: 0 <= n < |order| && order[n] == k;
        Success(db)
  }

  /** Every record of a store that loaded successfully is a JSON object. */
  lemma LoadedRecordsAreObjects(v: Value, order: seq<string>, db: Db)
    requires v.Object? ==> forall k :: k in order <==> k in v.fields
    requires LoadDb(v, order) == Success(db)
    ensures forall r, i :: r in db && 0 <= i < |db[r]| ==> db[r][i].Object?
  {

  }

  /** A store whose records all carry string ids loads back from the document it is written as. */
  /**
   * The document a store is saved as loads back exactly when every record has
   * a string id, and then gives the same store.
   */
  lemma SaveThenLoad(db: Db, order: seq<string>)
    requires forall k :: k in order <==> k in db
    ensures LoadDb(ToValue(db), order).Success? <==> DbValid(db)
    ensures DbValid(db) ==> LoadDb(ToValue(db), order) == Success(db)
  {
    ToDbInvertsToValue(db);
  }

  /** Appending a record with a string id, as create does, keeps the store loadable. */
  lemma AppendKeepsDbValid(db: Db, resource: string, item: Value)
    requires DbValid(db) && HasStringId(item)
    ensures DbValid(db[resource := (if resource in db then db[resource] else []) + [item]])
  {
  }

  /** Removing a record, as delete does, keeps the store loadable. */
  lemma RemoveKeepsDbValid(db: Db, resource: string, k: nat)
    requires DbValid(db) && resource in db && k < |db[resource]|
    ensures DbValid(db[resource := RemoveAt(db[resource], k)])
  {
    var s := RemoveAt(db[resource], k);
    forall i | 0 <= i < |s| ensures HasStringId(s[i]) {
      assert s[i] == db[resource][if i < k then i else i + 1];
    }
  }

  /**
   * Replacing a record, as update does, keeps the store loadable exactly when
   * the payload has a string id: update checks only that it is an object.
   */
  lemma ReplaceKeepsDbValidIff(db: Db, resource: string, k: nat, v: Value)
    requires DbValid(db) && resource in db && k < |db[resource]|
    ensures DbValid(db[resource := db[resource][k := v]]) <==> HasStringId(v)
  {
    var d := db[resource := db[resource][k := v]];
    if HasStringId(v) {
      forall r | r in d ensures CollectionValid(d[r]) {
        if r != resource { assert d[r] == db[r]; }
      }
    } else {
      assert !HasStringId(d[resource][k]);
    }
  }

  /**
   * The one-collection store `resource := items` loads, and replacing its
   * record at `k` by the object `v` makes its saved document fail to load.
   */
  ghost predicate ReplaceBreaksReload(resource: string, items: seq<Value>, k: nat, v: Value)
  {
    && k < |items| && DbValid(map[resource := items]) && v.Object?
    && LoadDb(ToValue(map[resource := items[k := v]]), [resource]).Failure?
  }

  /**
   * A store that update accepts a payload into can no longer be loaded from
   * the file it is saved to: `{}` is an object without an id.
   */
  lemma UpdateCanPreventReload()
    ensures exists resource: string, items: seq<Value>, k: nat, v: Value ::
      ReplaceBreaksReload(resource, items, k, v)
  {
    var a := Object(map["id" := Str("1")]);
    var db := map["users" := [a]];
    var v := Object(map[]);
    assert IdOf(a) == Some("1");
    var d := map["users" := [a][0 := v]];
    assert d == db["users" := db["users"][0 := v]];
    ReplaceKeepsDbValidIff(db, "users", 0, v);
    SaveThenLoad(d, ["users"]);
    assert ReplaceBreaksReload("users", [a], 0, v);
  }

  /** Loading checks that ids are strings, not that they are distinct within a collection. */
  lemma LoadAcceptsDuplicateIds()
    ensures exists v: Value, order: seq<string> ::
      (v.Object? ==> forall k :: k in order <==> k in v.fields)
      && LoadDb(v, order).Success? && !AllIdsDistinct(LoadDb(v, order).value)
  {
    var a := Object(map["id" := Str("1")]);
    var v := Object(map["users" := Array([a, a])]);
    var order := ["users"];
    var db := map["users" := [a, a]];
    assert IdOf(a) == Some("1");
    ToDbInvertsToValue(db);
    assert ToValue(db) == v;
    SaveThenLoad(db, order);
    assert IdOf(db["users"][0]).Some? && IdOf(db["users"][0]) == IdOf(db["users"][1]);
    assert !IdsDistinct(db["users"]);
  }
}
