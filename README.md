# MyMongodb accessor: deduplication and driver-call decisions

`MyMongodb` is a thin accessor class over the `pymongo` driver. Each operation
turns its parameters into one call on the collection handle and logs the
result. This project models what the class decides before it hands a call to
the driver:

- `remove_duplicates`: the order-preserving deduplication of a list. It is
  modelled as the method `Dedup.RemoveDuplicates`, whose loop is proved
  against the functional specification `Dedup.Unique`. `Unique` is shown to
  equal an independent reference definition, `Dedup.FirstOccurrenceOrder`:
  the output holds no value twice, holds exactly the input's values, and
  lists them in order of first occurrence.
- Construction (`__init__`): a missing or empty database or collection name
  raises `KeyError`. Otherwise an accessor is built, along with the advisory
  warnings for a database or collection the server does not list.
- `insert`: deduplicate, then call `insert_one` when exactly one distinct record
  remains, and otherwise call `insert_many` with the caller's `ordered` flag.
- `find_data`: build the filter `{key: value}`, or `{key: {optional: value}}`
  when an operator token is given, and issue a query with the given limit and
  skip.
- `delete` and `update`: `impact_data` `"all"` selects the many-variant and
  `"single"` selects the one-variant. Any other string issues no call; the
  source logs an error and raises nothing.

Modules:
- `Wrappers`: `Option` and `Result`.
- `Records`: document values. A record is a map from field names to values,
  compared structurally, as Python compares dictionaries.
- `Dedup`: deduplication. It is generic over any type with equality.
- `MyMongodb`: the accessor's decisions, written as functions that return a
  `DriverCall` value.

The accessor is a datatype, not a class. `__init__` sets its handles once and
no method reassigns them. The keyword defaults (`host='localhost'`,
`port=27017`, `ordered=False`, `limit_num=99999`, `skip_num=0`,
`impact_data='all'`, and `None` for the database and collection names) are
the default values of the corresponding parameters, given by the constants
`DefaultHost`, `DefaultPort`, `DefaultOrdered`, `DefaultLimit`, `DefaultSkip`
and `DefaultImpact`.

A missing name raises `KeyError`. An empty list passed to `insert` is not
refused: it reaches `insert_many` with no documents. The collection-existence
check at MyMongodb.py:46 is inverted; `Connect` uses the intended rule, and
the inversion is recorded under Findings.

## Model

| member | source | states |
|---|---|---|
| `Dedup.RemoveDuplicates` | MyMongodb.py:53-58 | the loop's result equals `Unique(ori)`, satisfies the first-occurrence reference definition, and is no longer than the input (so empty input gives empty output) |
| `Dedup.Unique` | MyMongodb.py:54-58 | the deduplicated list is no longer than the input, and every input element is in it and every element of it came from the input |
| `Dedup.UniqueIsDistinct` | MyMongodb.py:55-57 | the deduplicated list never holds two equal elements |
| `Dedup.UniqueKeepsFirstOccurrenceOrder` | MyMongodb.py:55-57 | the kept elements appear in strictly increasing order of their first occurrence in the input |
| `Dedup.UniqueSatisfiesFirstOccurrenceOrder` | MyMongodb.py:54-58 | the deduplicated list is distinct, has the input's elements, and is in first-occurrence order |
| `Dedup.FirstOccurrenceOrderDeterminesResult` | MyMongodb.py:54-58 | any list that is distinct, has the input's elements and is in first-occurrence order is exactly the loop's result |
| `Dedup.UniqueCharacterised` | MyMongodb.py:54-58 | a list is the result of deduplication if and only if it satisfies the first-occurrence reference definition |
| `Dedup.UniqueKeepsExactlyFirstOccurrences` | MyMongodb.py:55-57 | the result is a subsequence of the input at increasing positions, each kept position is the first occurrence of its value, and every first occurrence is kept |
| `Dedup.UniqueOfDistinct` | MyMongodb.py:55-57 | a list without duplicates comes back unchanged |
| `Dedup.UniqueIdempotent` | MyMongodb.py:55-57 | deduplicating the output again returns it unchanged |
| `Dedup.UniqueIsSingleton` | MyMongodb.py:66-68 | exactly one record survives deduplication if and only if the input is non-empty and all its records are equal |
| `MyMongodb.Connect` | MyMongodb.py:23-50 | construction fails with `KeyError` exactly when the database or collection name is None or empty; otherwise the accessor keeps host, port and both names; it warns about the database exactly when the server does not list it, and about the collection exactly when the database does not list it; it logs no other warning and none twice, and the database warning comes before the collection warning |
| `MyMongodb.ConnectWithoutNamesFails` | MyMongodb.py:23-40 | with the default names (None), or with only a database name, construction raises `KeyError` |
| `MyMongodb.CollectionWarningAsWrittenIsInverted` | MyMongodb.py:46-48 | the collection check as written fires exactly when the intended check does not; it warns for a collection that exists and stays silent for one that does not |
| `MyMongodb.InsertCall` | MyMongodb.py:60-71 | insert issues `insert_one` of the first record exactly when the input is a non-empty repetition of one record; otherwise it issues `insert_many` carrying the caller's `ordered` flag with the distinct records in first-occurrence order (never exactly one), and an empty input gives `insert_many` of nothing |
| `MyMongodb.Insert` | MyMongodb.py:66-71 | running the deduplication loop and then the dispatch issues exactly the call `InsertCall` describes |
| `MyMongodb.InsertDefaultIsUnordered` | MyMongodb.py:60 | without the `ordered` argument, a multi-record insert is issued with `ordered` false |
| `MyMongodb.InsertIgnoresDuplicates` | MyMongodb.py:66 | inserting the already-deduplicated list issues the same call as inserting the original list |
| `MyMongodb.InsertOfOneRecord` | MyMongodb.py:68-69 | any non-empty repetition of one record is inserted by `insert_one` of that record, whatever the `ordered` flag |
| `MyMongodb.FindCall` | MyMongodb.py:76-108 | the query's filter has the single field `key`; that field holds `value` when the operator is None or empty, and `{optional: value}` otherwise; the limit and skip are passed through unchanged |
| `MyMongodb.FindDefaults` | MyMongodb.py:76-108 | without operator, limit and skip, `find_data` queries `{key: value}` with limit 99999 and skip 0 |
| `MyMongodb.FindFilterDeterminesQuery` | MyMongodb.py:104-108 | two queries of the same form produce the same filter only when their key, value and operator are equal |
| `MyMongodb.FindOperatorIsIndistinguishableFromDocumentValue` | MyMongodb.py:104-108 | an operator token is passed through unchecked: an equality query on the value `{op: v}` produces the same filter as the operator query `op` on `v` |
| `MyMongodb.ParseScope` | MyMongodb.py:141-146 | `"all"` selects the many-scope, `"single"` the one-scope, and every other string selects no scope |
| `MyMongodb.ParseScopeName` | MyMongodb.py:138 | the two accepted `impact_data` strings parse back to their scopes, and no other string parses to a scope |
| `MyMongodb.DeleteCall` | MyMongodb.py:134-146 | delete issues a call exactly when `impact_data` is `"all"` or `"single"`: `delete_many` for `"all"`, `delete_one` for `"single"`, each with the caller's filter; otherwise it issues nothing and raises nothing |
| `MyMongodb.UpdateCall` | MyMongodb.py:150-163 | update issues a call exactly when `impact_data` is `"all"` or `"single"`: `update_many` for `"all"`, `update_one` for `"single"`, each with the caller's filter and update; otherwise it issues nothing and raises nothing |
| `MyMongodb.DeleteAndUpdateAgreeOnScope` | MyMongodb.py:140-164 | delete and update accept the same `impact_data` strings and choose the many-variant for the same strings |
| `MyMongodb.DefaultImpactIsMany` | MyMongodb.py:134-159 | without the `impact_data` argument, delete calls `delete_many` and update calls `update_many` |

## Left out

- Connecting to the server is not modelled: `MongoClient`, `get_database` and
  `get_collection` are driver calls, as are `list_database_names` and
  `list_collection_names`. `Connect` takes the two name lists those calls
  return as parameters. The client is created before the name check, so a
  `KeyError` follows client creation; the model has no client.
- Executing queries, inserts, deletes and updates is not modelled, and neither
  are their results (`deleted_count`, `matched_count`, write errors). These
  belong to the driver and the server, so the model stops at the `DriverCall`.
  For the same reason it does not say how many documents a "single" or "all"
  scope affects.
- The driver's handling of `insert_many` with an empty list is not modelled.
  The model issues that call, as the source does.
- `sort_data` is not modelled. It clones the cursor and calls the driver's
  sort, which the server performs.
- Cursor semantics are not modelled: the order in which `limit` and `skip`
  apply, and the count at line 109, which iterates the returned cursor.
  `FindCall` records the limit and skip only.
- Logging is not modelled: `basicConfig`, the info and error lines, and the
  format string at line 165, which has two `%d` for one argument. The one
  exception is construction, where the two advisory warnings are part of
  `Connect`'s result.
- The `__main__` demo and its sample records are not modelled.
- Python's equality across numeric types (`1 == 1.0 == True`) is not
  modelled. `Records.Value` keeps integers and booleans apart and has no
  floats. `Dedup` is generic over any type with equality, so another notion
  of equality can be supplied by choosing the type.
- The identity shortcut in list membership (`x is y` before `x == y`) is not
  modelled. It matters only for values not equal to themselves, such as NaN.
- The O(n²) cost of the membership scan is not modelled; only the result is.
- `Falsy`: covers only None and the empty string for the name and operator
  arguments. Those arguments are typed `str`, and other falsy Python values
  are not modelled.

## Findings

| source | as written | input that shows it | evidently intended | confidence | as-written member | corrected member |
|---|---|---|---|---|---|---|
| MyMongodb.py:46-48 | warns "Collection … not exists" when the collection name IS in the database's collection list | collection `students` in a database listing `["students"]` warns; in a database listing nothing, no warning | warn when the collection is NOT listed, as the database check at line 41 does | high (not executed) | `MyMongodb.CollectionWarningAsWrittenIsInverted` | `MyMongodb.Connect` |
