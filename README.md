# Postal code service — a verified model of its core

The service answers `GET /location/{postal_code}` with the city and state of a
US postal code. Its core has three parts: the
initialiser of `ZIPCODE_MAP`, which folds the records of the reference CSV
into a map from postal code to `Location { city, state }`; `lookup_postal_code`,
an exact-key read of that map; and the `match` in `get_location` that turns the
lookup result into an HTTP response.

- `wrappers.dfy` — `Option` and `Result`.
- `zipcode_index.dfy` (module `ZipcodeIndex`) — `Location` and the loader. The CSV layer is modelled
  abstractly: the loader receives the data records (header already consumed) as a
  sequence of `Result<seq<string>, CsvError>`. `RecordEntry` says what one item
  contributes: nothing for a parse error or a record missing column 4, 7 or 8,
  otherwise `(column 4, Location(column 7, column 8))`. `ZipcodeMap` is the
  specification: a left fold of insert-with-overwrite from the empty map.
  `LoadZipcodeMap` is the imperative loop of the source, proved equal to it.
  The lemmas characterise the fold independently. The last accepted record
  for a key wins. Every entry has a provenance. The keys are exactly the accepted
  postal codes. Parse errors and short records can be removed without effect.
  The size is bounded.
- `location_service.dfy` (module `LocationService`) — `Lookup`, the entity tag,
  the response shaping, and end-to-end lemmas from the dataset to the response.

Behaviour worth knowing, as the code has it:

- The loader keeps a record whose postal-code field is empty. `record.get(4)`
  returns `Some("")`, so the record is stored under the key `""`
  (`EmptyPostalCodeIsKept`).
- The map is a lazily initialised static, built on the first request
  (src/main.rs:55, 84), not before the server starts. The model has no
  phases; `GetLocation` takes the table as a parameter.
- A hit is not always a 200. The quoted postal code goes into the `ETag`
  header, and the framework rejects a header value that holds a control
  character (any byte below 0x20 other than tab, or 0x7F). The failed insert
  makes `.json(..)` return the framework's 500 error response
  (`InsertHeader`, `Finish`, `LineFeedPostalCodeFails`).
- The location's fields are `city` and `state`.

## Model

| member | source | states |
|---|---|---|
| `ZipcodeIndex.RecordEntry` | src/main.rs:27-38 | an item yields an entry iff it parsed and has more than 8 fields; the entry is column 4 verbatim as key with `Location(column 7, column 8)` |
| `ZipcodeIndex.Ingest` | src/main.rs:27-39 | one pass of the loop body: an accepted record's key maps to its location afterwards; every other key keeps its presence and its value |
| `ZipcodeIndex.ZipcodeMap` | src/main.rs:19-44 | the map built by the fold never has more entries than there are records |
| `ZipcodeIndex.LoadZipcodeMap` | src/main.rs:19-44 | the loop that inserts into a mutable map yields exactly the fold `ZipcodeMap` of the records, and so at most one entry per record |
| `ZipcodeIndex.LastRecordWins` | src/main.rs:26-39 | if record j is the last accepted record with its postal code, the map maps that code to record j's location |
| `ZipcodeIndex.EntryProvenance` | src/main.rs:28-39 | every entry (k, loc) comes from an accepted record with key k and location loc, after which no accepted record has key k |
| `ZipcodeIndex.KeyPresence` | src/main.rs:28-39 | k is a key of the map iff some accepted record carries postal code k |
| `ZipcodeIndex.KeysAreAcceptedKeys` | src/main.rs:33-43 | the key set equals the set of postal codes of accepted records, so `map.len()` is the number of distinct accepted postal codes |
| `ZipcodeIndex.DroppingSkippedItems` | src/main.rs:26-32 | removing any items that contribute no entry leaves the map unchanged |
| `ZipcodeIndex.ParseErrorsContributeNothing` | src/main.rs:27 | the map equals the map built from the input with all `Err` items removed |
| `ZipcodeIndex.ShortRecordsContributeNothing` | src/main.rs:28-32 | the map equals the map built from the input with all records of fewer than 9 fields removed |
| `ZipcodeIndex.SizeBoundedByAcceptedRecords` | src/main.rs:33-43 | the number of entries is at most the number of accepted records |
| `ZipcodeIndex.EmptyPostalCodeIsKept` | src/main.rs:28-39 | any accepted record whose column 4 is empty puts the key `""` in the map; if it is the last such record, its city and state are stored there |
| `LocationService.Lookup` | src/main.rs:54-56 | returns `Some(loc)` iff the postal code is a key, with `loc` the stored location; the table is a value and is not changed |
| `LocationService.InsertHeader` | src/main.rs:73-74 | a header is set (replacing any earlier value) iff its value is legal and no insert has failed before; otherwise the builder is marked failed |
| `LocationService.Finish` | src/main.rs:75-77 | a failed builder gives the 500 error response with no headers; otherwise the response carries the builder's status, headers and the body |
| `LocationService.ETag` | src/main.rs:74 | the tag is the postal code between two double quotes, and it is a legal header value iff the postal code is; `ETagRoundTrip` and `ETagIdentifiesPostalCode` state its other properties |
| `LocationService.ETagRoundTrip` | src/main.rs:74 | stripping the quotes from the tag gives back the requested postal code |
| `LocationService.ETagIdentifiesPostalCode` | src/main.rs:74 | two tags are equal iff their postal codes are equal |
| `LocationService.ShapeResponse` | src/main.rs:69-77 | hit with a postal code legal in a header: status 200, body the location, exactly the headers `Cache-Control: public, max-age=86400` and an `ETag` that is the quoted postal code; hit with a control character in the postal code: status 500, no headers; miss: status 404, no headers, body "Postal code not found" |
| `LocationService.GetLocation` | src/main.rs:58-78 | status 200 iff the postal code is in the table and legal in a header, then with the stored location and both cache headers; 500 for a stored code that is not legal in a header; 404 with the fixed message otherwise |
| `LocationService.LoadedPostalCodeIsFound` | src/main.rs:26-75 | for the loaded table, the postal code of the last accepted record carrying it gets a 200 with that record's location and its quoted tag, or a 500 if the code is not legal in a header |
| `LocationService.UnloadedPostalCodeIsNotFound` | src/main.rs:26-77 | for the loaded table, a postal code that no accepted record carries gets the 404 response |
| `LocationService.LookupOnLoadedTable` | src/main.rs:26-56 | on the loaded table, lookup succeeds iff an accepted record carries the code, and the result is the location of the last such record |
| `LocationService.LineFeedPostalCodeFails` | src/main.rs:70-75 | a stored postal code holding a line feed is found by the lookup, but the request is answered with 500 and no headers |
| `LocationService.SanFranciscoExample` | src/main.rs:26-75 | an example request: a record with 94103 in column 4 and "San Francisco", "CA" in columns 7 and 8 gives a 200 with that body and `ETag: "94103"` |

## Left out

- Opening the CSV file, `BufReader`, and the `csv` crate's tokenising, header handling and field-count checks (src/main.rs:20-24). These are library behaviour. The input is the already-split record sequence, with parse failures as `Err`. The panic on a missing file is not modelled.
- The rayon thread pool and the `block_on` dispatch (src/main.rs:11-15, 60-67). They are about concurrency; the model calls the lookup directly.
- The lazy one-time initialisation of `ZIPCODE_MAP` and its timing relative to the first request (src/main.rs:17, 55, 84). The table is a parameter.
- The HTTP server wiring: `main`, routing, the logger middleware, worker count, keep-alive and bind (src/main.rs:81-102).
- JSON serialisation of the body and the `Content-Type` header that `.json(...)` sets (src/main.rs:75, 77). The body is kept as a value, and the 500 response's error text is the abstract `ErrorBody`.
- Validation of header NAMES: the two names are fixed constants that are legal tokens, so only the values are checked.
- Case-insensitive header names: headers are a map keyed by the names as written. The two names the service sets differ in any case.
- The `println!` progress output and the `with_capacity(50000)` pre-sizing (src/main.rs:18, 19, 43). They are for observability and performance only.
- The web framework's response builder is not part of this model's source. `InsertHeader` and `Finish` state its behaviour as the service relies on it: a header value must hold no control character other than tab, and a failed insert turns the response into a 500.
