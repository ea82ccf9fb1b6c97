/**
 Records and their indexed fields, as the table layer sees them: an id and named values.
 */
module Records {
  import opened Values

  datatype Rec = Rec(id: Value, fields: map<string, Value>)

  /** The value of a field; a missing field reads as nil. */
  function Field(r: Rec, name: string): Value {
    if name in r.fields then r.fields[name] else Nil
  }

  datatype IndexMeta = IndexMeta(name: string, field: string, unique: bool)

  type Table = map<Value, Rec>

  /** Every record is filed under its own id, which is not nil. */
  ghost predicate Filed(t: Table) {
    forall k :: k in t ==> t[k].id == k && k != Nil
  }
}
