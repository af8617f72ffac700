# jserve core, modelled in Dafny

jserve is a small JSON REST server. It keeps a whole dataset in memory as a
map from collection name to an ordered list of JSON records (`Db`). Five HTTP
handlers list, read, create, replace and delete records by their string `"id"`.
After every change the whole map is written back to one JSON file. At start-up
the server parses its command line (`-f <file>`, `-p <port>`, `-h`, `-v`). It
then loads the file and checks that every record carries a string id.

The model has five modules:

- `Wrappers` (wrappers.dfy): `Option` and `Result`.
- `Json` (json.dfy): serde_json's `Value` as a datatype. It also holds the
  three operations the handlers use: `v["id"]` (`Get`, which yields `Null` for
  a missing key or a non-object), `as_str` (`AsStr`, `IdOf`), and the
  comparison `item["id"] == id` (`MatchesId`). That comparison holds only when
  `item` is an object whose `"id"` field is that JSON string.
- `Store` (store.dfy): `Db`, the `Response` datatype (200, 201, 400, 409, 404,
  and `AppError` for an `Err(AppError)` return, which the framework answers
  with 500), and class `Store`. The class holds the `db` field. It has the
  read-only handlers as functions that read it, and the mutating handlers as
  methods that modify it. Each handler's `ensures` states its whole new state
  and its response for every branch. `Position` is `iter().position(...)`,
  proved to find the FIRST match. `RemoveAt` is `Vec::remove`. The lemmas are
  about the distinct-ids invariant: create keeps it and delete keeps it.
  Update keeps it exactly when the payload has no string id or one that no
  other record carries, so in particular when it keeps the path id. There is
  also a concrete case where update breaks it.
- `Loader` (loader.dfy): `load_db` on an already parsed document. `ToDb` is
  the structural part of deserialising into `HashMap<String, Vec<Value>>`.
  `FirstInvalid` and `FindInvalid` are the nested validation loop, and `LoadDb`
  combines them. `ToValue` is the document `save` serialises. Lemmas show that
  a valid store survives a save/load at the value level, that loaded records
  are all objects, and that loading does not check that ids are distinct.
  Further lemmas say which handler changes keep the store loadable: create
  and delete do, and update does exactly when the payload has a string id.
- `Cli` (cli.dfy): the two loops of `main`, as the method `ParseArgs`. It is
  proved equal to the reference definition `Parse` (`FirstInfoFlag`, then
  `Scan`). Lemmas over argument positions state what the parse means:
  - the first help or version flag decides;
  - a configuration comes out exactly when the options form `-f`/`-p` pairs
    with a `-f` among them;
  - the last `-f` and the last `-p` win, and the port defaults to 3000;
  - the first bad option decides which error is reported.

  `ParsePort` is Rust's `u16::from_str`. It accepts an optional `+`, then ASCII
  digits, with a value below 65536.

Where the code and the usual description of the service differ, the model
follows the code:

- A POST payload without a string `"id"` is answered with 400 "Missing 'id'
  field". No id is generated for it (`Store.Store.CreateItem`).
- A collection stored as a lone object (not an array) is rejected at load
  time. It is not wrapped into an array (`Loader.ToDb`).
- GET of an unknown id in a known collection returns an `AppError` ("Item not
  found", status 500), not a 404 (`Store.Store.GetOne`). PUT and DELETE answer
  the same situation with 404.
- PUT stores the payload verbatim, whatever `"id"` it carries, so it can
  break id uniqueness (`Store.ReplaceCanBreakIdsDistinct`).
- Loading accepts duplicate ids within a collection
  (`Loader.LoadAcceptsDuplicateIds`).
- PUT accepts any object, `{}` included, but loading demands a string id on
  every record. After such an update is saved, the server cannot load its own
  file again (`Loader.ReplaceKeepsDbValidIff`, `Loader.UpdateCanPreventReload`).
- The collection name is created on POST only when the record is actually
  appended: `entry().or_default()` creates it empty, and a duplicate needs an
  existing record.

The members without contracts are the reference definitions the lemmas and
methods are stated against: `Cli.Scan`, `Cli.Parse`, `Cli.Finish` and
`Cli.OptionError` (src/main.rs:254-317), and `Store.AfterSave`
(src/main.rs:140-146, 178-188, 213-222). `Store.ClientScenario` is a client
of the class: it posts the same record twice and then deletes it with a
failing save, and asserts what the handlers' contracts give for each step.

## Model

| member | source | states |
|---|---|---|
| `Json.Get` | src/main.rs:120 | indexing an object by key gives that field; a missing key or a non-object gives `Null` |
| `Json.IdOf` | src/main.rs:120-126 | the record's id is present exactly when the record is an object whose `"id"` field is a JSON string, and then it is that string |
| `Json.MatchesId` | src/main.rs:90 | `item["id"] == id` holds exactly when the item's string id is `id`; only an object with a string `"id"` field can match |
| `Store.Position` | src/main.rs:167 | the result is the first index whose record matches the id; no result exactly when no record matches |
| `Store.RemoveAt` | src/main.rs:204 | removing position `k` shortens the collection by one, keeps the other records in order, and re-inserting the removed record at `k` gives back the original |
| `Store.AppendKeepsIdsDistinct` | src/main.rs:130-136 | appending a record whose string id is not yet present keeps the ids of the collection distinct |
| `Store.ReplaceIdsDistinctIff` | src/main.rs:167-168 | replacing any record keeps the ids distinct exactly when the new record has no string id or one that no other record carries |
| `Store.ReplaceKeepsIdsDistinct` | src/main.rs:167-168 | replacing the first match by a payload that has no string id, or has the path id, keeps the ids distinct |
| `Store.ReplaceCanBreakIdsDistinct` | src/main.rs:158-168 | there is a collection with distinct ids and a payload, accepted by update, whose replacement makes two records share an id |
| `Store.RemoveKeepsIdsDistinct` | src/main.rs:203-204 | removing a record keeps the ids of a collection distinct |
| `Store.RemoveFirstMatchLeavesNone` | src/main.rs:203-204 | with distinct ids, after removing the first match no record of the collection has that id |
| `Store.Store.constructor` | src/main.rs:327-331 | the store starts with exactly the loaded map |
| `Store.Store.GetAll` | src/main.rs:64-78 | a known collection gives 200 with all its records in order; an unknown one gives 404 "Resource not found" |
| `Store.Store.GetOne` | src/main.rs:80-101 | unknown collection gives 404; otherwise a record is returned exactly when one has the id, and it is the first such; a miss gives `AppError` "Item not found" |
| `Store.Store.CreateItem` | src/main.rs:103-147 | non-object gives 400 "Expected JSON object", no string id gives 400 "Missing 'id' field", and an id already present gives 409; in all three the store is unchanged; otherwise the payload is appended to the collection (created empty if absent), nothing else changes, and the answer is 201 with the id or the save error; distinct ids stay distinct, in the whole store and in the target collection alike; after success a lookup of the id returns the payload |
| `Store.Store.UpdateItem` | src/main.rs:149-189 | non-object gives 400, and no collection or no match gives 404 "Item not found", both with the store unchanged; otherwise only the first matching position becomes exactly the payload, and the answer is 200 with the path id or the save error; a payload carrying the path id is then found by lookup; distinct ids stay distinct when the payload keeps the path id or has none |
| `Store.Store.DeleteItem` | src/main.rs:191-223 | no collection or no match gives 404 with the store unchanged; otherwise the first match is removed (the rest in order) and returned with 200, or the save error is returned with the removal kept; distinct ids stay distinct, and with distinct ids a later lookup misses |
| `Loader.ToValue` | src/main.rs:55 | the saved document is an object with one array per collection holding its records |
| `Loader.ToDb` | src/main.rs:229-230 | deserialising succeeds exactly on an object whose every value is an array, and keeps the keys and the arrays' elements; a lone-object collection is rejected |
| `Loader.ToDbInvertsToValue` | src/main.rs:55-57 | reading back the document the store is saved as gives the same store |
| `Loader.FirstInvalid` | src/main.rs:233-241 | the inner loop finds the first record without a string id, or reports that every record has one |
| `Loader.FindInvalid` | src/main.rs:232-242 | the outer loop reports nothing exactly when every collection is valid; otherwise it names a collection reached after valid ones, and the first invalid index in it |
| `Loader.LoadDb` | src/main.rs:225-244 | loading succeeds exactly when the document has the `Db` shape and every record has a string id, and then gives that map; a bad shape is a structure error; otherwise the error names a collection and the first index in it whose record has no string id |
| `Loader.LoadedRecordsAreObjects` | src/main.rs:232-243 | every record of a store that loaded is a JSON object |
| `Loader.SaveThenLoad` | src/main.rs:53-61 | the document a store is saved as loads exactly when every record has a string id, and then gives back the same store |
| `Loader.AppendKeepsDbValid` | src/main.rs:130-136 | appending a record with a string id, as create does, keeps every record of the store loadable |
| `Loader.RemoveKeepsDbValid` | src/main.rs:203-204 | removing a record, as delete does, keeps the store loadable |
| `Loader.ReplaceKeepsDbValidIff` | src/main.rs:158-168 | replacing a record, as update does, keeps the store loadable exactly when the payload has a string id |
| `Loader.UpdateCanPreventReload` | src/main.rs:158-168 | some loadable store, after update stores an object payload, is saved as a document that fails to load |
| `Loader.LoadAcceptsDuplicateIds` | src/main.rs:232-243 | some document with two records sharing an id loads successfully: distinct ids are not checked on load |
| `Cli.ParsePort` | src/main.rs:283-287 | a string parses exactly when, after an optional `+`, it is at least one ASCII digit with a value below 65536 (leading zeros allowed), and then gives that value; an empty string or one starting with `-` never parses |
| `Cli.ParsePortOfDecimal` | src/main.rs:283-287 | a number printed in decimal parses back exactly when it is below 65536, with or without a leading `+` |
| `Cli.FirstInfoFlag` | src/main.rs:255-267 | the scan finds the first help or version flag, or reports that there is none |
| `Cli.ParseArgs` | src/main.rs:250-317 | the two loops compute exactly the reference parse |
| `Cli.ScanConfigIff` | src/main.rs:269-299 | the option pass yields a configuration exactly when every remaining option is a good `-f`/`-p` pair and a file is known |
| `Cli.ScanConfigFile` | src/main.rs:272-280 | the configured file is the value after the last `-f`, or the one chosen earlier |
| `Cli.ScanConfigPort` | src/main.rs:281-293 | the configured port is the value after the last `-p`, or the one chosen earlier |
| `Cli.ScanError` | src/main.rs:269-299 | the first bad option decides the error |
| `Cli.ScanNotInfo` | src/main.rs:269-299 | the option pass never yields help or version |
| `Cli.ScanMissingFile` | src/main.rs:314-317 | well-formed options without `-f` end in the missing-file error |
| `Cli.InfoFlagDecides` | src/main.rs:254-267 | the first help or version flag anywhere in the arguments, the program name included, decides between help and version |
| `Cli.InfoOnlyFromFlags` | src/main.rs:254-299 | help or version results exactly when such a flag is present |
| `Cli.ParseConfig` | src/main.rs:269-317 | without info flags, a configuration results exactly when the options are `-f`/`-p` pairs including a `-f`; its file follows the last `-f`; its port follows the last `-p`, or is 3000 when there is none |
| `Cli.ParseError` | src/main.rs:269-299 | without info flags, the first bad option gives its error: `-f` or `-p` last, a port that does not parse, or an unknown argument |
| `Cli.ParseMissingFile` | src/main.rs:314-317 | without info flags, well-formed options lacking `-f` give the missing-file error |

## Left out

- HTTP routing, extractors and response construction (actix-web) are not modelled. Handlers take the collection name, id and parsed payload directly, and answer a `Response` value. A body that is not valid JSON, which the `Json<Value>` extractor refuses before the handler runs, is not modelled.
- The `RwLock`/`Arc` locking and the async structure are not modelled. Each handler is one sequential step. `save` takes a fresh read lock after the write lock is released, so under concurrency it may write a later state; the model cannot show this.
- `JsonFileStorage::save` is not modelled as file I/O. It is the `SaveOutcome` parameter of the mutating handlers: it is decided after the mutation, and a failure gives `AppError` with its message and keeps the mutation. `Loader.ToValue` gives the document it would serialise.
- Reading the file in `load_db`, parsing its text with `from_str`, pretty-printing with `to_string_pretty`, and creating the initial `"{}"` file are file and text I/O, so they are not modelled. The loader starts from a parsed `Value`, and the save/load round trip is stated at the value level only.
- Loader.LoadDb: the hash map's iteration order is a parameter `order`, because that order is not visible in the source. The collection reported on failure therefore depends on it; the index within a collection is always the first bad one.
- Logging, the help and version text, the endpoint listing and `process::exit` are output formatting and are not modelled. Exits become `Command` values.
- JSON numbers are modelled as integers, because the store never inspects them. Floating-point numbers are not modelled.
