/** The read side of the service: the exact-key lookup (src/main.rs:54-56) and
    the HTTP response built from its result in `get_location`
    (src/main.rs:58-78). The worker-pool dispatch around the lookup is reduced
    to a direct call, and the response body is kept as a value rather than
    serialised to JSON. */
module LocationService {
  import opened Wrappers
  import opened ZipcodeIndex

  const StatusOk: nat := 200
  const StatusNotFound: nat := 404
  const StatusInternalServerError: nat := 500

  const CacheControlHeader := "Cache-Control"
  const ETagHeader := "ETag"
  /** Public caching for 24 hours (86400 seconds). */
  const CacheControlValue := "public, max-age=86400"
  const NotFoundMessage := "Postal code not found"

  /** What the response body carries before serialisation. `ErrorBody` is the
      rendered builder error of a failed response. */
  datatype Body = LocationBody(location: Location) | MessageBody(message: string) | ErrorBody

  /** An HTTP response: status code, header map (name to value) and body. */
  datatype Response = Response(status: nat, headers: map<string, string>, body: Body)

  /** The response builder of the HTTP framework: a status, the headers set so
      far, and whether a header insertion has failed. */
  datatype ResponseBuilder = ResponseBuilder(status: nat, headers: map<string, string>, failed: bool)

  /** A character an HTTP header value may hold: a tab, or anything from the
      space upwards except DEL (the bytes of a non-ASCII character are all
      0x80 or above, so every non-ASCII character is accepted). */
  predicate ValidHeaderChar(c: char)
  {
    c == '\t' || (' ' <= c && c as int != 127)
  }

  predicate ValidHeaderValue(s: string)
  {
    forall i :: 0 <= i < |s| ==> ValidHeaderChar(s[i])
  }

  /** `insert_header`: set (replacing) the header when its value is legal;
      otherwise record the failure. Once failed, the builder ignores inserts. */
  function InsertHeader(builder: ResponseBuilder, name: string, value: string): (updated: ResponseBuilder)
    ensures updated.status == builder.status
    ensures updated.failed <==> builder.failed || !ValidHeaderValue(value)
    ensures !updated.failed ==> updated.headers == builder.headers[name := value]
  {
    if builder.failed then builder
    else if ValidHeaderValue(value) then builder.(headers := builder.headers[name := value])
    else builder.(failed := true)
  }

  /** `.json(..)`: finish the response with a body, or, when a header insertion
      failed, answer with the framework's 500 error response instead. */
  function Finish(builder: ResponseBuilder, body: Body): (response: Response)
    ensures builder.failed ==> response == Response(StatusInternalServerError, map[], ErrorBody)
    ensures !builder.failed ==> response == Response(builder.status, builder.headers, body)
  {
    if builder.failed then Response(StatusInternalServerError, map[], ErrorBody)
    else Response(builder.status, builder.headers, body)
  }

  /** `lookup_postal_code`: an exact, untransformed read of the table. */
  function Lookup(table: ZipcodeTable, postalCode: string): (found: Option<Location>)
    ensures found.Some? <==> postalCode in table
    ensures found.Some? ==> found.value == table[postalCode]
  {
    if postalCode in table then Some(table[postalCode]) else None
  }

  /** The entity tag of a successful response: the requested postal code in
      double quotes. It is a legal header value exactly when the postal code is. */
  function ETag(postalCode: string): (tag: string)
    ensures |tag| == |postalCode| + 2 && tag[0] == '"' && tag[|tag| - 1] == '"'
    ensures ValidHeaderValue(tag) <==> ValidHeaderValue(postalCode)
  {
    var tag := "\"" + postalCode + "\"";
    assert forall i :: 0 <= i < |postalCode| ==> tag[i + 1] == postalCode[i];
    assert ValidHeaderValue(postalCode) ==> forall i :: 0 <= i < |tag| ==> ValidHeaderChar(tag[i]) by {
      if ValidHeaderValue(postalCode) {
        forall i | 0 <= i < |tag| ensures ValidHeaderChar(tag[i]) {
          if 0 < i < |tag| - 1 { assert tag[i] == postalCode[i - 1]; }
        }
      }
    }
    tag
  }

  /** The postal code an entity tag was made from: the inverse of `ETag`. */
  function ETagPostalCode(tag: string): (postalCode: Option<string>)
    ensures postalCode.Some? ==> |tag| == |postalCode.value| + 2
  {
    if |tag| >= 2 && tag[0] == '"' && tag[|tag| - 1] == '"' then Some(tag[1..|tag| - 1]) else None
  }

  /** The tag gives back the postal code it was built from. */
  lemma ETagRoundTrip(postalCode: string)
    ensures ETagPostalCode(ETag(postalCode)) == Some(postalCode)
  {
    var tag := ETag(postalCode);
    assert tag[1..|tag| - 1] == postalCode;
  }

  /** Equal postal codes give equal tags and different ones different tags. */
  lemma ETagIdentifiesPostalCode(a: string, b: string)
    ensures ETag(a) == ETag(b) <==> a == b
  {
    ETagRoundTrip(a);
    ETagRoundTrip(b);
  }

  /** The `match` of `get_location`: a hit becomes a cacheable 200 carrying the
      location, unless the quoted postal code is not a legal header value, in
      which case the builder fails and the answer is a 500; a miss is a 404
      with the fixed message and no headers. */
  function ShapeResponse(postalCode: string, result: Option<Location>): (response: Response)
    ensures response.status == StatusOk <==> result.Some? && ValidHeaderValue(postalCode)
    ensures response.status == StatusInternalServerError <==> result.Some? && !ValidHeaderValue(postalCode)
    ensures response.status == StatusNotFound <==> result.None?
    ensures response.status == StatusOk ==>
              && response.body == LocationBody(result.value)
              && response.headers.Keys == {CacheControlHeader, ETagHeader}
              && response.headers[CacheControlHeader] == CacheControlValue
              && ETagPostalCode(response.headers[ETagHeader]) == Some(postalCode)
    ensures response.status == StatusInternalServerError ==> response.headers == map[] && response.body == ErrorBody
    ensures result.None? ==> response.headers == map[] && response.body == MessageBody(NotFoundMessage)
  {
    match result
    case Some(location) =>
      ETagRoundTrip(postalCode);
      var ok := ResponseBuilder(StatusOk, map[], false);
      var withCache := InsertHeader(ok, CacheControlHeader, CacheControlValue);
      Finish(InsertHeader(withCache, ETagHeader, ETag(postalCode)), LocationBody(location))
    case None =>
      Finish(ResponseBuilder(StatusNotFound, map[], false), MessageBody(NotFoundMessage))
  }

  /** `get_location`: look the path's postal code up, then shape the response. */
  function GetLocation(table: ZipcodeTable, postalCode: string): (response: Response)
    ensures response.status == StatusOk <==> postalCode in table && ValidHeaderValue(postalCode)
    ensures response.status == StatusOk ==>
              && response.body == LocationBody(table[postalCode])
              && response.headers == map[CacheControlHeader := CacheControlValue, ETagHeader := ETag(postalCode)]
    ensures postalCode in table && !ValidHeaderValue(postalCode) ==>
              response == Response(StatusInternalServerError, map[], ErrorBody)
    ensures postalCode !in table ==>
              response == Response(StatusNotFound, map[], MessageBody(NotFoundMessage))
  {
    ShapeResponse(postalCode, Lookup(table, postalCode))
  }

  /** End to end, for the table loaded from `items`: the postal code of the last
      accepted record carrying it is answered with a 200 holding that record's
      city and state and the tag of the postal code, or with a 500 when the
      postal code cannot be carried in a header. */
  lemma {:induction false} LoadedPostalCodeIsFound(items: seq<CsvItem>, j: nat)
    requires j < |items| && RecordEntry(items[j]).Some?
    requires forall j' :: j < j' < |items| ==> !HasKey(items[j'], RecordEntry(items[j]).value.key)
    ensures var response := GetLocation(ZipcodeMap(items), RecordEntry(items[j]).value.key);
            && response.status == (if ValidHeaderValue(RecordEntry(items[j]).value.key) then StatusOk
                                   else StatusInternalServerError)
            && (response.status == StatusOk ==>
                  && response.body == LocationBody(RecordEntry(items[j]).value.location)
                  && response.headers[ETagHeader] == ETag(RecordEntry(items[j]).value.key))
  {
    LastRecordWins(items, j);
  }

  /** End to end: a postal code that no accepted record carries is answered
      with a 404, whatever else the dataset holds. */
  lemma {:induction false} UnloadedPostalCodeIsNotFound(items: seq<CsvItem>, postalCode: string)
    requires forall j :: 0 <= j < |items| ==> !HasKey(items[j], postalCode)
    ensures GetLocation(ZipcodeMap(items), postalCode) == Response(StatusNotFound, map[], MessageBody(NotFoundMessage))
  {
    KeyPresence(items, postalCode);
  }

  /** The lookup on the loaded table finds a location exactly when some accepted
      record carries the postal code, and then it is that of the last one. */
  lemma {:induction false} LookupOnLoadedTable(items: seq<CsvItem>, postalCode: string)
    ensures Lookup(ZipcodeMap(items), postalCode).Some? <==> postalCode in AcceptedKeys(items)
    ensures Lookup(ZipcodeMap(items), postalCode).Some? ==>
              exists j :: 0 <= j < |items|
                          && RecordEntry(items[j]) == Some(Entry(postalCode, Lookup(ZipcodeMap(items), postalCode).value))
                          && forall j' :: j < j' < |items| ==> !HasKey(items[j'], postalCode)
  {
    KeysAreAcceptedKeys(items);
    if postalCode in ZipcodeMap(items) {
      EntryProvenance(items, postalCode);
    }
  }

  /** A stored postal code holding a line feed, as a quoted CSV field may, is
      found by the lookup, but its tag is not a legal header value: the answer
      is a 500, not a 200. */
  lemma LineFeedPostalCodeFails(location: Location)
    ensures var table := map["9410\n3" := location];
            && Lookup(table, "9410\n3") == Some(location)
            && GetLocation(table, "9410\n3") == Response(StatusInternalServerError, map[], ErrorBody)
  {
    assert !ValidHeaderChar("9410\n3"[4]);
  }

  /** An example request: one dataset row for 94103 and the response to
      GET /location/94103. */
  lemma SanFranciscoExample()
    ensures var items: seq<CsvItem> := [Ok(["a", "b", "c", "d", "94103", "f", "g", "San Francisco", "CA"])];
            GetLocation(ZipcodeMap(items), "94103")
              == Response(StatusOk, map["Cache-Control" := "public, max-age=86400", "ETag" := "\"94103\""],
                          LocationBody(Location("San Francisco", "CA")))
  {
    var items: seq<CsvItem> := [Ok(["a", "b", "c", "d", "94103", "f", "g", "San Francisco", "CA"])];
    assert items[..0] == [];
    assert ZipcodeMap(items) == map["94103" := Location("San Francisco", "CA")];
    assert ETag("94103") == "\"94103\"";
  }
}
