/**
 * The documents the accessor passes to the driver: Python dictionaries from
 * field names to dynamically typed values, compared structurally.
 */
module Records {

  /** A field value: a scalar, a list, or a nested document. */
  datatype Value =
    | Null
    | Bool(b: bool)
    | Int(i: int)
    | Str(s: string)
    | List(items: seq<Value>)
    | Doc(fields: map<string, Value>)

  /** A document (record, filter or update specification). */
  type Record = map<string, Value>
}
