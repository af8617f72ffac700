/**
 * The in-memory document store: a map from collection name to the ordered
 * records of that collection, and the five request handlers that read and
 * change it. Each handler runs as one sequential step; the reader/writer lock
 * around the map is not modelled.
 */
module Store {
  import opened Wrappers
  import opened Json

  /** The whole dataset: collection name to its records, in insertion order. */
  type Db = map<string, seq<Value>>

  // Response bodies for the plain-text answers.
  const ResourceNotFound := "Resource not found"
  const ItemNotFound := "Item not found"
  const ExpectedObject := "Expected JSON object"
  const MissingId := "Missing 'id' field"
  const DuplicateId := "Duplicate ID"

  /** What a handler answers. */
  datatype Response =
    | Ok(body: Value)              // 200 with a JSON body
    | Created(body: Value)         // 201 with a JSON body
    | BadRequest(message: string)  // 400
    | Conflict(message: string)    // 409
    | NotFound(message: string)    // 404
    | AppError(message: string)    // an `Err(AppError)` return, which the framework answers with 500

  /** Outcome of writing the whole store to the backing file after a mutation. */
  datatype SaveOutcome = Saved | SaveFailed(message: string)

  /** The response a successful mutation gives once the save has run. */
  function AfterSave(save: SaveOutcome, success: Response): Response
  {
    if save.Saved? then success else AppError(save.message)
  }

  /** `k` is the first position in `items` whose record has string id `id`. */
  ghost predicate IsFirstMatch(items: seq<Value>, id: string, k: int)
  {
    && 0 <= k < |items|
    && MatchesId(items[k], id)
    && forall j :: 0 <= j < k ==> !MatchesId(items[j], id)
  }

  /** Some record of `items` has string id `id` (`items.iter().any(...)`). */
  ghost predicate HasId(items: seq<Value>, id: string)
  {
    exists j :: 0 <= j < |items| && MatchesId(items[j], id)
  }

  /** No two records of a collection carry the same string id. */
  ghost predicate IdsDistinct(items: seq<Value>)
  {
    forall i, j :: 0 <= i < j < |items| && IdOf(items[i]).Some? ==> IdOf(items[i]) != IdOf(items[j])
  }

  /** Every collection of the store has distinct ids. */
  ghost predicate AllIdsDistinct(db: Db)
  {
    forall r :: r in db ==> IdsDistinct(db[r])
  }

  /** `items.iter().position(|item| item["id"] == id)`. */
  function Position(items: seq<Value>, id: string): (r: Option<nat>)
    ensures r.Some? ==> IsFirstMatch(items, id, r.value)
    ensures r.None? <==> !HasId(items, id)
  {
    if |items| == 0 then None
    else if MatchesId(items[0], id) then Some(0)
    else match Position(items[1..], id)
      case None => None
      case Some(k) => Some(k + 1)
  }

  /** `items.remove(k)`: the records without the one at `k`, the rest in their order. */
  function RemoveAt(items: seq<Value>, k: nat): (r: seq<Value>)
    requires k < |items|
    ensures |r| == |items| - 1
    ensures forall j :: 0 <= j < k ==> r[j] == items[j]
    ensures forall j :: k <= j < |r| ==> r[j] == items[j + 1]
    ensures items == r[..k] + [items[k]] + r[k..]
  {
    items[..k] + items[k + 1..]
  }

  /** A record that is appended under a fresh id keeps the ids of a collection distinct. */
  lemma AppendKeepsIdsDistinct(items: seq<Value>, item: Value, id: string)
    requires IdsDistinct(items)
    requires IdOf(item) == Some(id) && !HasId(items, id)
    ensures IdsDistinct(items + [item])
  {

  }

  /** Removing one record keeps the ids of a collection distinct. */
  lemma RemoveKeepsIdsDistinct(items: seq<Value>, k: nat)
    requires k < |items| && IdsDistinct(items)
    ensures IdsDistinct(RemoveAt(items, k))
  {

  }

  /** With distinct ids, once the record with id `id` is removed no record has that id. */
  lemma RemoveFirstMatchLeavesNone(items: seq<Value>, id: string, k: nat)
    requires IdsDistinct(items) && IsFirstMatch(items, id, k)
    ensures !HasId(RemoveAt(items, k), id)
  {

  }

  /**
   * Replacing the record at `k` keeps the ids distinct exactly when the new
   * record has no string id or one that no other record carries.
   */
  lemma ReplaceIdsDistinctIff(items: seq<Value>, k: nat, v: Value)
    requires IdsDistinct(items) && k < |items|
    ensures IdsDistinct(items[k := v]) <==>
      (IdOf(v).None? || forall j :: 0 <= j < |items| && j != k ==> IdOf(items[j]) != IdOf(v))
  {
    var s := items[k := v];
    if IdOf(v).Some? && !(forall j :: 0 <= j < |items| && j != k ==> IdOf(items[j]) != IdOf(v)) {
      var j :| 0 <= j < |items| && j != k && IdOf(items[j]) == IdOf(v);
      if j < k {
        assert IdOf(s[j]).Some? && IdOf(s[j]) == IdOf(s[k]);
      } else {
        assert IdOf(s[k]).Some? && IdOf(s[k]) == IdOf(s[j]);
      }
    }
  }

  /** Replacing the first match by a record with the same id, or none, keeps the ids distinct. */
  lemma ReplaceKeepsIdsDistinct(items: seq<Value>, id: string, k: nat, v: Value)
    requires IdsDistinct(items) && IsFirstMatch(items, id, k)
    requires IdOf(v).None? || IdOf(v) == Some(id)
    ensures IdsDistinct(items[k := v])
  {
    ReplaceIdsDistinctIff(items, k, v);
    forall j | 0 <= j < |items| && j != k
      ensures IdOf(items[j]) != Some(id)
    {
      assert IdOf(items[k]) == Some(id);
    }
  }

  /**
   * update_item does not check the payload's id: replacing a record by one that
   * carries another record's id breaks the distinct-ids invariant.
   */
  lemma ReplaceCanBreakIdsDistinct()
    ensures exists items: seq<Value>, id: string, k: nat, v: Value ::
      IdsDistinct(items) && IsFirstMatch(items, id, k) && v.Object? && !IdsDistinct(items[k := v])
  {
    var a := Object(map["id" := Str("a")]);
    var b := Object(map["id" := Str("b")]);
    var items := [a, b];
    assert IdOf(a) == Some("a") && IdOf(b) == Some("b");
    assert IdsDistinct(items);
    assert IsFirstMatch(items, "a", 0);
    var s := items[0 := b];
    assert IdOf(s[0]) == IdOf(s[1]);
    assert !IdsDistinct(s);
  }

  /** The store state shared by all handlers (`AppState.db`). */
  class Store {
    var db: Db

    constructor (initial: Db)
      ensures db == initial
    {
      db := initial;
    }

    /** GET /{resource}: the whole collection in insertion order. */
    function GetAll(resource: string): (r: Response)
      reads this
      ensures resource in db ==> r == Ok(Array(db[resource]))
      ensures resource !in db ==> r == NotFound(ResourceNotFound)
    {
      if resource in db then Ok(Array(db[resource])) else NotFound(ResourceNotFound)
    }

    /**
     * GET /{resource}/{id}: the first record whose id is `id`. A missing
     * collection is a 404; a missing record is an application error.
     */
    function GetOne(resource: string, id: string): (r: Response)
      reads this
      ensures resource !in db ==> r == NotFound(ResourceNotFound)
      ensures resource in db ==> (r.Ok? <==> HasId(db[resource], id))
      ensures resource in db && !r.Ok? ==> r == AppError(ItemNotFound)
      ensures r.Ok? ==> resource in db && exists k :: IsFirstMatch(db[resource], id, k) && r.body == db[resource][k]
    {
      if resource !in db then NotFound(ResourceNotFound)
      else match Position(db[resource], id)
        case Some(k) => Ok(db[resource][k])
        case None => AppError(ItemNotFound)
    }

    /**
     * POST /{resource}: append a record that carries a string id not yet used
     * in the collection, creating the collection if needed, then save.
     */
    method CreateItem(resource: string, item: Value, save: SaveOutcome) returns (r: Response)
      modifies this
      ensures !item.Object? ==> r == BadRequest(ExpectedObject) && db == old(db)
      ensures item.Object? && IdOf(item).None? ==> r == BadRequest(MissingId) && db == old(db)
      ensures IdOf(item).Some? && resource in old(db) && HasId(old(db)[resource], IdOf(item).value) ==>
        r == Conflict(DuplicateId) && db == old(db)
      ensures IdOf(item).Some? && !(resource in old(db) && HasId(old(db)[resource], IdOf(item).value)) ==>
        && db == old(db)[resource := (if resource in old(db) then old(db)[resource] else []) + [item]]
        && r == AfterSave(save, Created(Str(IdOf(item).value)))
      ensures old(AllIdsDistinct(db)) ==> AllIdsDistinct(db)
      ensures old(resource in db ==> IdsDistinct(db[resource])) ==> (resource in db ==> IdsDistinct(db[resource]))
      ensures r.Created? ==> GetOne(resource, IdOf(item).value) == Ok(item)
    {
      if !item.Object? {
        return BadRequest(ExpectedObject);
      }
      var id := IdOf(item);
      if id.None? {
        return BadRequest(MissingId);
      }
      // db.entry(resource).or_default(): an absent collection starts empty
      var items := if resource in db then db[resource] else [];
      if Position(items, id.value).Some? {
        return Conflict(DuplicateId);
      }
      ghost var before := db;
      db := db[resource := items + [item]];
      if IdsDistinct(items) {
        AppendKeepsIdsDistinct(items, item, id.value);
      }
      assert IsFirstMatch(db[resource], id.value, |items|);
      r := AfterSave(save, Created(Str(id.value)));
    }

    /**
     * PUT /{resource}/{id}: replace the first record with id `id` by the
     * payload, whatever id the payload carries, then save.
     */
    method UpdateItem(resource: string, id: string, newItem: Value, save: SaveOutcome) returns (r: Response)
      modifies this
      ensures !newItem.Object? ==> r == BadRequest(ExpectedObject) && db == old(db)
      ensures newItem.Object? && !(resource in old(db) && HasId(old(db)[resource], id)) ==>
        r == NotFound(ItemNotFound) && db == old(db)
      ensures forall k :: newItem.Object? && resource in old(db) && IsFirstMatch(old(db)[resource], id, k) ==>
        && db == old(db)[resource := old(db)[resource][k := newItem]]
        && r == AfterSave(save, Ok(Str(id)))
      ensures r == AfterSave(save, Ok(Str(id))) && MatchesId(newItem, id) ==> GetOne(resource, id) == Ok(newItem)
      ensures old(AllIdsDistinct(db)) && (IdOf(newItem).None? || IdOf(newItem) == Some(id)) ==> AllIdsDistinct(db)
    {
      if !newItem.Object? {
        return BadRequest(ExpectedObject);
      }
      if resource !in db {
        return NotFound(ItemNotFound);
      }
      var items := db[resource];
      var index := Position(items, id);
      if index.None? {
        return NotFound(ItemNotFound);
      }
      var k := index.value;
      ghost var before := db;
      db := db[resource := items[k := newItem]];
      if AllIdsDistinct(before) && (IdOf(newItem).None? || IdOf(newItem) == Some(id)) {
        ReplaceKeepsIdsDistinct(items, id, k, newItem);
      }
      if MatchesId(newItem, id) {
        assert IsFirstMatch(db[resource], id, k);
      }
      r := AfterSave(save, Ok(Str(id)));
    }

    /**
     * DELETE /{resource}/{id}: remove the first record with id `id`, save, and
     * answer with the removed record.
     */
    method DeleteItem(resource: string, id: string, save: SaveOutcome) returns (r: Response)
      modifies this
      ensures !(resource in old(db) && HasId(old(db)[resource], id)) ==>
        r == NotFound(ItemNotFound) && db == old(db)
      ensures forall k :: resource in old(db) && IsFirstMatch(old(db)[resource], id, k) ==>
        && db == old(db)[resource := RemoveAt(old(db)[resource], k)]
        && r == AfterSave(save, Ok(old(db)[resource][k]))
      ensures old(AllIdsDistinct(db)) ==> AllIdsDistinct(db)
      ensures old(resource in db && IdsDistinct(db[resource])) ==> GetOne(resource, id) == AppError(ItemNotFound)
    {
      if resource !in db {
        return NotFound(ItemNotFound);
      }
      var items := db[resource];
      var index := Position(items, id);
      if index.None? {
        return NotFound(ItemNotFound);
      }
      var k := index.value;
      var deleted := items[k];
      ghost var before := db;
      db := db[resource := RemoveAt(items, k)];
      if AllIdsDistinct(before) {
        RemoveKeepsIdsDistinct(items, k);
      }
      if IdsDistinct(items) {
        RemoveFirstMatchLeavesNone(items, id, k);
      }
      r := AfterSave(save, Ok(deleted));
    }
  }

  /**
   * Two requests in a row, as a client sees them: posting the same record
   * twice is refused the second time and stores it once; deleting it makes
   * a later lookup miss.
   */
  method ClientScenario()
  {
    var bo := Object(map["id" := Str("1"), "name" := Str("Bo")]);
    assert IdOf(bo) == Some("1");
    var s := new Store(map[]);
    var r := s.CreateItem("users", bo, Saved);
    assert [] + [bo] == [bo];
    assert r == Created(Str("1")) && s.db == map["users" := [bo]];
    r := s.CreateItem("users", bo, Saved);
    assert HasId(s.db["users"], "1");
    assert r == Conflict(DuplicateId) && s.db == map["users" := [bo]];
    r := s.DeleteItem("users", "1", SaveFailed("Failed to write to JSON file"));
    assert IsFirstMatch([bo], "1", 0);
    assert r == AppError("Failed to write to JSON file") && s.db == map["users" := []];
    assert s.GetOne("users", "1") == AppError(ItemNotFound);
  }
}
