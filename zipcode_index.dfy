/** The postal-code index: how the CSV records of the reference dataset are
    folded into the map from postal code to location (src/main.rs:17-45).

    The CSV layer is modelled abstractly: the loader receives the data records
    (the header row already consumed) as a sequence, each one either a list of
    fields or a parse error. */
module ZipcodeIndex {
  import opened Wrappers

  /** The city and state stored for one postal code. */
  datatype Location = Location(city: string, state: string)

  /** A parsed CSV record: its fields, in column order. */
  type Record = seq<string>

  /** A record the CSV reader could not parse; its detail does not matter here. */
  datatype CsvError = CsvError(message: string)

  /** One item produced by the CSV reader's record iterator. */
  type CsvItem = Result<Record, CsvError>

  /** The map the service answers queries from. */
  type ZipcodeTable = map<string, Location>

  /** The pair a record inserts into the map. */
  datatype Entry = Entry(key: string, location: Location)

  /** Column positions (0-based) of the fields the loader reads. */
  const ZipcodeColumn: nat := 4
  const CityColumn: nat := 7
  const StateColumn: nat := 8

  /** A record's field at column `i`, or `None` when the record is too short. */
  function Get(record: Record, i: nat): Option<string>
  {
    if i < |record| then Some(record[i]) else None
  }

  /** What a CSV item contributes to the map: nothing for a parse error or for
      a record missing one of the three columns, otherwise its postal code
      (verbatim, an empty field included) paired with its city and state. */
  function RecordEntry(item: CsvItem): (e: Option<Entry>)
    ensures e.Some? <==> item.Ok? && |item.value| > StateColumn
    ensures e.Some? ==> e.value == Entry(item.value[4], Location(item.value[7], item.value[8]))
  {
    match item
    case Err(_) => None
    case Ok(record) =>
      match (Get(record, ZipcodeColumn), Get(record, CityColumn), Get(record, StateColumn))
      case (Some(zipcode), Some(city), Some(state)) => Some(Entry(zipcode, Location(city, state)))
      case _ => None
  }

  /** Whether `item` is an accepted record whose postal code is `key`. */
  predicate HasKey(item: CsvItem, key: string)
  {
    RecordEntry(item).Some? && RecordEntry(item).value.key == key
  }

  /** One iteration of the loading loop: insert (overwriting) the item's entry. */
  function Ingest(table: ZipcodeTable, item: CsvItem): (updated: ZipcodeTable)
    ensures forall key :: HasKey(item, key) ==> key in updated && updated[key] == RecordEntry(item).value.location
    ensures forall key :: !HasKey(item, key) ==> (key in updated <==> key in table)
    ensures forall key :: !HasKey(item, key) && key in table ==> updated[key] == table[key]
  {
    match RecordEntry(item)
    case Some(e) => table[e.key := e.location]
    case None => table
  }

  /** The map built from `items`, a left fold of `Ingest` from the empty map,
      written over prefixes so that it matches the loop that builds it. */
  function ZipcodeMap(items: seq<CsvItem>): (table: ZipcodeTable)
    ensures |table| <= |items|
  {
    if items == [] then map[]
    else Ingest(ZipcodeMap(items[..|items| - 1]), items[|items| - 1])
  }

  /** Builds the map the way the initialiser of ZIPCODE_MAP does: a loop over
      the records that inserts into a mutable map. */
  method LoadZipcodeMap(items: seq<CsvItem>) returns (table: ZipcodeTable)
    ensures table == ZipcodeMap(items)
    ensures |table| <= |items|
  {
    table := map[];
    for i := 0 to |items|
      invariant table == ZipcodeMap(items[..i])
    {
      var result := items[i];
      if result.Ok? {
        var record := result.value;
        match (Get(record, ZipcodeColumn), Get(record, CityColumn), Get(record, StateColumn))
        case (Some(zipcode), Some(city), Some(state)) =>
          table := table[zipcode := Location(city, state)];
        case _ =>
      }
      assert items[..i + 1][..i] == items[..i];
    }
    assert items[..|items|] == items;
  }

  /** Every postal code that some accepted record carries. */
  ghost function AcceptedKeys(items: seq<CsvItem>): set<string>
  {
    set j | 0 <= j < |items| && RecordEntry(items[j]).Some? :: RecordEntry(items[j]).value.key
  }

  /** Last write wins: when record `j` is the last accepted record with its
      postal code, the map holds exactly that record's location for it. */
  lemma {:induction false} LastRecordWins(items: seq<CsvItem>, j: nat)
    requires j < |items| && RecordEntry(items[j]).Some?
    requires forall j' :: j < j' < |items| ==> !HasKey(items[j'], RecordEntry(items[j]).value.key)
    ensures RecordEntry(items[j]).value.key in ZipcodeMap(items)
    ensures ZipcodeMap(items)[RecordEntry(items[j]).value.key] == RecordEntry(items[j]).value.location
  {
    var n := |items|;
    var prefix := items[..n - 1];
    if j < n - 1 {
      forall j' | j < j' < |prefix| ensures !HasKey(prefix[j'], RecordEntry(prefix[j]).value.key) {
        assert prefix[j'] == items[j'];
      }
      LastRecordWins(prefix, j);
      assert !HasKey(items[n - 1], RecordEntry(items[j]).value.key);
    }
  }

  /** Provenance: every entry of the map comes from an accepted record with
      that postal code and that location, and no later record carries the key. */
  lemma {:induction false} EntryProvenance(items: seq<CsvItem>, key: string)
    requires key in ZipcodeMap(items)
    ensures exists j :: 0 <= j < |items| && RecordEntry(items[j]) == Some(Entry(key, ZipcodeMap(items)[key]))
                        && forall j' :: j < j' < |items| ==> !HasKey(items[j'], key)
  {
    var n := |items|;
    var prefix := items[..n - 1];
    if HasKey(items[n - 1], key) {
      assert RecordEntry(items[n - 1]) == Some(Entry(key, ZipcodeMap(items)[key]));
    } else {
      EntryProvenance(prefix, key);
      var j :| 0 <= j < |prefix| && RecordEntry(prefix[j]) == Some(Entry(key, ZipcodeMap(prefix)[key]))
               && forall j' :: j < j' < |prefix| ==> !HasKey(prefix[j'], key);
      assert items[j] == prefix[j];
      forall j' | j < j' < n ensures !HasKey(items[j'], key) {
        if j' < n - 1 { assert items[j'] == prefix[j']; }
      }
    }
  }

  /** A postal code is a key of the map exactly when some accepted record
      carries it. */
  lemma {:induction false} KeyPresence(items: seq<CsvItem>, key: string)
    ensures key in ZipcodeMap(items) <==> exists j :: 0 <= j < |items| && HasKey(items[j], key)
  {
    if items != [] {
      var n := |items|;
      var prefix := items[..n - 1];
      KeyPresence(prefix, key);
      if exists j :: 0 <= j < n && HasKey(items[j], key) {
        var j :| 0 <= j < n && HasKey(items[j], key);
        if j < n - 1 { assert HasKey(prefix[j], key); }
      }
      if exists j :: 0 <= j < |prefix| && HasKey(prefix[j], key) {
        var j :| 0 <= j < |prefix| && HasKey(prefix[j], key);
        assert HasKey(items[j], key);
      }
    }
  }

  /** The keys of the map are exactly the postal codes of the accepted records,
      so the number of entries is the number of distinct accepted postal codes. */
  lemma {:induction false} KeysAreAcceptedKeys(items: seq<CsvItem>)
    ensures ZipcodeMap(items).Keys == AcceptedKeys(items)
    ensures |ZipcodeMap(items)| == |AcceptedKeys(items)|
  {
    forall key ensures key in ZipcodeMap(items) <==> key in AcceptedKeys(items) {
      KeyPresence(items, key);
      if key in AcceptedKeys(items) {
        var j :| 0 <= j < |items| && RecordEntry(items[j]).Some? && RecordEntry(items[j]).value.key == key;
        assert HasKey(items[j], key);
      }
    }
  }

  /** The items of `items` that `keep` selects, in their original order. */
  function Filter(items: seq<CsvItem>, keep: CsvItem -> bool): (kept: seq<CsvItem>)
    ensures |kept| <= |items|
    ensures forall x :: x in kept ==> x in items && keep(x)
  {
    if items == [] then []
    else
      var last := items[|items| - 1];
      Filter(items[..|items| - 1], keep) + (if keep(last) then [last] else [])
  }

  /** Dropping items that contribute no entry does not change the map. */
  lemma {:induction false} DroppingSkippedItems(items: seq<CsvItem>, keep: CsvItem -> bool)
    requires forall x :: x in items && !keep(x) ==> RecordEntry(x).None?
    ensures ZipcodeMap(Filter(items, keep)) == ZipcodeMap(items)
  {
    if items != [] {
      var n := |items|;
      var prefix, last := items[..n - 1], items[n - 1];
      forall x | x in prefix && !keep(x) ensures RecordEntry(x).None? {
        assert x in items;
      }
      DroppingSkippedItems(prefix, keep);
      var kept := Filter(prefix, keep);
      if keep(last) {
        assert Filter(items, keep) == kept + [last];
        assert (kept + [last])[..|kept|] == kept;
        calc {
          ZipcodeMap(kept + [last]);
          Ingest(ZipcodeMap(kept), last);
          Ingest(ZipcodeMap(prefix), last);
        }
      } else {
        assert Filter(items, keep) == kept;
        assert RecordEntry(last).None?;
        assert Ingest(ZipcodeMap(prefix), last) == ZipcodeMap(prefix);
      }
    }
  }

  /** Records the CSV reader failed to parse contribute nothing: the map is the
      one built from the input with them removed. */
  lemma ParseErrorsContributeNothing(items: seq<CsvItem>)
    ensures ZipcodeMap(Filter(items, (x: CsvItem) => x.Ok?)) == ZipcodeMap(items)
  {
    DroppingSkippedItems(items, (x: CsvItem) => x.Ok?);
  }

  /** Records with fewer than nine fields (one of columns 4, 7, 8 absent)
      contribute nothing either. */
  lemma ShortRecordsContributeNothing(items: seq<CsvItem>)
    ensures ZipcodeMap(Filter(items, (x: CsvItem) => !(x.Ok? && |x.value| <= StateColumn))) == ZipcodeMap(items)
  {
    DroppingSkippedItems(items, (x: CsvItem) => !(x.Ok? && |x.value| <= StateColumn));
  }

  /** The map never has more entries than there are accepted records. */
  lemma {:induction false} SizeBoundedByAcceptedRecords(items: seq<CsvItem>)
    ensures |ZipcodeMap(items)| <= |Filter(items, (x: CsvItem) => RecordEntry(x).Some?)|
  {
    DroppingSkippedItems(items, (x: CsvItem) => RecordEntry(x).Some?);
  }

  /** An empty postal-code field is present, not missing: an accepted record
      whose column 4 is empty puts the key `""` in the map, and when it is the
      last such record its location is the one stored there. */
  lemma {:induction false} EmptyPostalCodeIsKept(items: seq<CsvItem>, j: nat)
    requires j < |items| && items[j].Ok? && |items[j].value| > StateColumn
    requires items[j].value[ZipcodeColumn] == ""
    ensures "" in ZipcodeMap(items)
    ensures (forall j' :: j < j' < |items| ==> !HasKey(items[j'], "")) ==>
              ZipcodeMap(items)[""] == Location(items[j].value[CityColumn], items[j].value[StateColumn])
  {
    assert HasKey(items[j], "");
    KeyPresence(items, "");
    if forall j' :: j < j' < |items| ==> !HasKey(items[j'], "") {
      LastRecordWins(items, j);
    }
  }
}
