/**
 * The decision logic of the `MyMongodb` accessor: construction from names,
 * and the single driver call each of insert, find_data, delete and update
 * hands to the collection handle. Executing a call belongs to the driver and
 * the server; the model stops at the call.
 */
module MyMongodb {
  import opened Wrappers
  import opened Records
  import Dedup

  /** Defaults of the constructor's and the operations' keyword arguments. */
  const DefaultHost: string := "localhost"
  const DefaultPort: int := 27017
  const DefaultOrdered: bool := false
  const DefaultLimit: int := 99999
  const DefaultSkip: int := 0
  const DefaultImpact: string := "all"

  // ---------------------------------------------------------------------------
  // Construction

  /** The exception `__init__` raises when a name is missing. */
  datatype ConfigError = KeyError

  /** The advisory warnings `__init__` logs; neither stops construction. */
  datatype Warning = DatabaseNotFound(database: string) | CollectionNotFound(collection: string)

  /** The accessor's fixed state: the server address and the database and collection names it was built with. */
  datatype Accessor = Accessor(host: string, port: int, database: string, collection: string)

  /** A constructed accessor together with the warnings logged while building it. */
  datatype Connection = Connection(accessor: Accessor, warnings: seq<Warning>)

  /** Python's `not name` for an optional string argument: None or the empty string. */
  predicate Falsy(name: Option<string>) {
    name == None || name == Some("")
  }

  /** The database check: warn when the database is not among the server's databases. */
  predicate DatabaseWarning(serverDatabases: set<string>, database: string) {
    database !in serverDatabases
  }

  /** The collection check as written: it warns when the collection IS among the database's collections. */
  predicate CollectionWarningAsWritten(databaseCollections: set<string>, collection: string) {
    collection in databaseCollections
  }

  /** The collection check as intended, matching the database check. */
  predicate CollectionWarning(databaseCollections: set<string>, collection: string) {
    collection !in databaseCollections
  }

  /** The as-written collection check fires exactly when the intended one does not. */
  lemma CollectionWarningAsWrittenIsInverted(databaseCollections: set<string>, collection: string)
    ensures CollectionWarningAsWritten(databaseCollections, collection) <==> !CollectionWarning(databaseCollections, collection)
    ensures CollectionWarningAsWritten({"students"}, "students") && !CollectionWarningAsWritten({}, "students")
  {
  }

  /**
   * `MyMongodb(host, port, database, collection)`, with the source's keyword
   * defaults. The server's database names and the database's collection
   * names, which the source asks the driver for, come first as parameters.
   * Uses the intended collection check.
   */
  function Connect(serverDatabases: set<string>, databaseCollections: set<string>,
                   host: string := DefaultHost, port: int := DefaultPort,
                   database: Option<string> := None, collection: Option<string> := None): (r: Result<Connection, ConfigError>)
    ensures r.Failure? <==> Falsy(database) || Falsy(collection)
    ensures r.Success? ==>
      && database.Some? && collection.Some?
      && r.value.accessor == Accessor(host, port, database.value, collection.value)
      && r.value.accessor.database != "" && r.value.accessor.collection != ""
    ensures r.Success? ==>
      && (DatabaseNotFound(database.value) in r.value.warnings <==> database.value !in serverDatabases)
      && (CollectionNotFound(collection.value) in r.value.warnings <==> collection.value !in databaseCollections)
      && (forall w :: w in r.value.warnings ==> w == DatabaseNotFound(database.value) || w == CollectionNotFound(collection.value))
      && Dedup.Distinct(r.value.warnings)
      && (|r.value.warnings| == 2 ==> r.value.warnings[0].DatabaseNotFound?)
  {
    if Falsy(database) || Falsy(collection) then
      Failure(KeyError)
    else
      var db := database.value;
      var coll := collection.value;
      var warnings :=
        (if DatabaseWarning(serverDatabases, db) then [DatabaseNotFound(db)] else []) +
        (if CollectionWarning(databaseCollections, coll) then [CollectionNotFound(coll)] else []);
      Success(Connection(Accessor(host, port, db, coll), warnings))
  }

  /** Without a database or collection name, construction raises `KeyError`. */
  lemma ConnectWithoutNamesFails(serverDatabases: set<string>, databaseCollections: set<string>)
    ensures Connect(serverDatabases, databaseCollections) == Failure(KeyError)
    ensures Connect(serverDatabases, databaseCollections, database := Some("local")) == Failure(KeyError)
  {
  }

  // ---------------------------------------------------------------------------
  // Driver calls

  /** The single call an operation hands to the collection handle. */
  datatype DriverCall =
    | InsertOne(document: Record)
    | InsertMany(documents: seq<Record>, ordered: bool)
    | Find(filter: Record, limit: int, skip: int)
    | DeleteMany(filter: Record)
    | DeleteOne(filter: Record)
    | UpdateMany(filter: Record, update: Record)
    | UpdateOne(filter: Record, update: Record)

  // ---------------------------------------------------------------------------
  // insert

  /** The branch of `insert` on the deduplicated records. */
  function InsertDispatch(unique: seq<Record>, ordered: bool): DriverCall {
    if |unique| == 1 then InsertOne(unique[0]) else InsertMany(unique, ordered)
  }

  /**
   * `insert(insert_data, ordered)`: deduplicate, then insert one document
   * when exactly one distinct document remains, and otherwise (no document,
   * or several) insert the distinct documents in order of first occurrence,
   * passing the caller's `ordered` flag.
   */
  function InsertCall(records: seq<Record>, ordered: bool := DefaultOrdered): (c: DriverCall)
    ensures c.InsertOne? || c.InsertMany?
    ensures c.InsertOne? <==> records != [] && forall i :: 0 <= i < |records| ==> records[i] == records[0]
    ensures c.InsertOne? ==> c.document == records[0]
    ensures c.InsertMany? ==> c.ordered == ordered && |c.documents| != 1 && Dedup.FirstOccurrenceOrder(records, c.documents)
    ensures records == [] ==> c == InsertMany([], ordered)
  {
    Dedup.UniqueIsSingleton(records);
    Dedup.UniqueSatisfiesFirstOccurrenceOrder(records);
    InsertDispatch(Dedup.Unique(records), ordered)
  }

  /** `insert` as the source runs it: the deduplication loop, then the dispatch. */
  method Insert(records: seq<Record>, ordered: bool := DefaultOrdered) returns (c: DriverCall)
    ensures c == InsertCall(records, ordered)
  {
    var unique := Dedup.RemoveDuplicates(records);
    c := InsertDispatch(unique, ordered);
  }

  /** Inserting an already deduplicated list issues the same call: duplicates never reach the driver. */
  lemma {:induction false} InsertIgnoresDuplicates(records: seq<Record>, ordered: bool)
    ensures InsertCall(Dedup.Unique(records), ordered) == InsertCall(records, ordered)
  {
    Dedup.UniqueIdempotent(records);
  }

  /** Without the `ordered` argument, a multi-record insert is unordered. */
  lemma InsertDefaultIsUnordered(records: seq<Record>)
    ensures InsertCall(records).InsertMany? ==> !InsertCall(records).ordered
  {
  }

  /** A one-record list goes through the single-record path, whatever the flag. */
  lemma InsertOfOneRecord(record: Record, ordered: bool, n: nat)
    requires n > 0
    ensures InsertCall(seq(n, _ => record), ordered) == InsertOne(record)
  {
    var records := seq(n, _ => record);
    assert records[0] == record;
  }

  // ---------------------------------------------------------------------------
  // find_data

  /** The filter `find_data` builds from key, value and the optional operator token. */
  function FindFilter(key: string, value: Value, optional: Option<string>): Record {
    if Falsy(optional) then map[key := value] else map[key := Doc(map[optional.value := value])]
  }

  /**
   * `find_data(key, value, optional, limit_num, skip_num)`: one query on the
   * single-field filter `{key: value}` when no operator is given and
   * `{key: {optional: value}}` otherwise, with the limit and skip as given.
   */
  function FindCall(key: string, value: Value, optional: Option<string> := None,
                    limit: int := DefaultLimit, skip: int := DefaultSkip): (c: DriverCall)
    ensures c.Find? && c.limit == limit && c.skip == skip
    ensures c.filter.Keys == {key}
    ensures Falsy(optional) ==> c.filter[key] == value
    ensures !Falsy(optional) ==> c.filter[key] == Doc(map[optional.value := value])
  {
    Find(FindFilter(key, value, optional), limit, skip)
  }

  /**
   * Two queries of the same form (both equality, or both with an operator)
   * issue the same filter only when key, value and operator agree.
   */
  lemma FindFilterDeterminesQuery(key1: string, value1: Value, optional1: Option<string>,
                                  key2: string, value2: Value, optional2: Option<string>)
    requires Falsy(optional1) == Falsy(optional2)
    requires FindFilter(key1, value1, optional1) == FindFilter(key2, value2, optional2)
    ensures key1 == key2 && value1 == value2
    ensures !Falsy(optional1) ==> optional1 == optional2
  {
    var f := FindFilter(key1, value1, optional1);
    assert f.Keys == {key1} == {key2};
    assert key1 in {key2};
    if !Falsy(optional1) {
      var d1 := map[optional1.value := value1];
      var d2 := map[optional2.value := value2];
      assert Doc(d1) == f[key1] == Doc(d2);
      assert d1.Keys == {optional1.value} == {optional2.value};
      assert optional1.value in {optional2.value};
    }
  }

  /**
   * The operator token is passed through unchecked: an equality query whose
   * value is a one-field document `{op: v}` issues the same filter as the
   * operator query `op` on `v`.
   */
  lemma FindOperatorIsIndistinguishableFromDocumentValue(key: string, op: string, value: Value, limit: int, skip: int)
    requires op != ""
    ensures FindCall(key, Doc(map[op := value]), None, limit, skip) == FindCall(key, value, Some(op), limit, skip)
  {
  }

  /** Without an operator, limit or skip, `find_data` queries `{key: value}` for at most 99999 documents, skipping none. */
  lemma FindDefaults(key: string, value: Value)
    ensures FindCall(key, value) == Find(map[key := value], 99999, 0)
  {
  }

  // ---------------------------------------------------------------------------
  // delete and update

  /** The two accepted values of `impact_data`. */
  datatype Scope = All | Single

  /** The scope an `impact_data` string selects; any other string selects none. */
  function ParseScope(impact: string): (s: Option<Scope>)
    ensures s == Some(All) <==> impact == "all"
    ensures s == Some(Single) <==> impact == "single"
    ensures s == None <==> impact != "all" && impact != "single"
  {
    if impact == "all" then Some(All)
    else if impact == "single" then Some(Single)
    else None
  }

  /** The `impact_data` string that names a scope. */
  function ScopeName(s: Scope): string {
    match s
    case All => "all"
    case Single => "single"
  }

  /** Naming a scope and parsing the name back gives the scope, and only its name parses to it. */
  lemma ParseScopeName(s: Scope, impact: string)
    ensures ParseScope(ScopeName(s)) == Some(s)
    ensures ParseScope(impact) == Some(s) ==> impact == ScopeName(s)
  {
  }

  /**
   * What delete and update do: issue one call, or, for an unknown
   * `impact_data`, log an error and issue nothing, raising no exception.
   */
  datatype Outcome = Issued(call: DriverCall) | ScopeRejected

  /** `delete(filter, impact_data)`: "all" deletes every match, "single" the first. */
  function DeleteCall(filter: Record, impact: string := DefaultImpact): (o: Outcome)
    ensures o.Issued? <==> impact == "all" || impact == "single"
    ensures impact == "all" ==> o == Issued(DeleteMany(filter))
    ensures impact == "single" ==> o == Issued(DeleteOne(filter))
  {
    match ParseScope(impact)
    case Some(All) => Issued(DeleteMany(filter))
    case Some(Single) => Issued(DeleteOne(filter))
    case None => ScopeRejected
  }

  /** `update(filter, update, impact_data)`: "all" updates every match, "single" the first. */
  function UpdateCall(filter: Record, update: Record, impact: string := DefaultImpact): (o: Outcome)
    ensures o.Issued? <==> impact == "all" || impact == "single"
    ensures impact == "all" ==> o == Issued(UpdateMany(filter, update))
    ensures impact == "single" ==> o == Issued(UpdateOne(filter, update))
  {
    match ParseScope(impact)
    case Some(All) => Issued(UpdateMany(filter, update))
    case Some(Single) => Issued(UpdateOne(filter, update))
    case None => ScopeRejected
  }

  /**
   * Delete and update read `impact_data` the same way: both issue a call for
   * the same strings, both choose the many-variant for the same strings, and
   * both pass the caller's filter through.
   */
  lemma DeleteAndUpdateAgreeOnScope(filter: Record, update: Record, impact: string)
    ensures DeleteCall(filter, impact).Issued? <==> UpdateCall(filter, update, impact).Issued?
    ensures DeleteCall(filter, impact) == Issued(DeleteMany(filter)) <==> UpdateCall(filter, update, impact) == Issued(UpdateMany(filter, update))
    ensures DeleteCall(filter, impact).Issued? ==> DeleteCall(filter, impact).call.filter == filter
  {
  }

  /** With the default `impact_data`, delete and update act on every match. */
  lemma DefaultImpactIsMany(filter: Record, update: Record)
    ensures DeleteCall(filter) == Issued(DeleteMany(filter))
    ensures UpdateCall(filter, update) == Issued(UpdateMany(filter, update))
  {
  }
}
