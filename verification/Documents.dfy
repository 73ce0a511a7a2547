/** Documents and the values in their fields (internal/search/domain/types.go). */
module Documents {

  /** What a field of Go type `any` holds. A value that is neither absent nor a string is known
      by how `fmt.Sprint` prints it, which is all the index ever asks of it. */
  datatype Value = Nil | Text(text: string) | Other(printed: string)

  function Sprint(v: Value): string
  {
    match v
    case Nil => "<nil>"
    case Text(s) => s
    case Other(p) => p
  }

  datatype Document = Document(id: string, tenant: string, collection: string, fields: map<string, Value>,
                               version: nat, schemaVersion: nat, deleted: bool, createdAt: int, updatedAt: int)

  function Field(d: Document, name: string): Value
  {
    if name in d.fields then d.fields[name] else Nil
  }
}
