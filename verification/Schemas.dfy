/** Collections and their schemas (internal/search/domain/types.go). Both are Go struct values: a caller updates its own
    copy, so an update is a function from the old value to the new one. */
module Schemas {

  datatype FieldType = TextField | KeywordField | NumberField | DateField | BoolField | UnsupportedField(name: string)

  datatype Field = Field(name: string, kind: FieldType, analyzer: string, searchable: bool, stored: bool,
                         sortable: bool, required: bool, boost: real)

  datatype Schema = Schema(version: nat, fields: seq<Field>, createdAt: int, createdBy: string)

  datatype CollectionState = Creating | Active | Frozen | Deleting

  datatype Collection = Collection(id: string, tenant: string, name: string, state: CollectionState, schema: Schema,
                                   shards: int, retentionDays: int, version: nat, createdAt: int, updatedAt: int,
                                   createdBy: string, updatedBy: string)

  datatype Result<T> = Ok(value: T) | Err(error: Error)

  datatype Error =
    | MissingParts
    | BadField(name: string, reason: FieldError)
    | DuplicateField(name: string)
    | BadShards
    | VersionMismatch
    | SchemaSkipsVersion
    | SchemaLocked

  datatype FieldError = BadName | UnsupportedType | AnalyzerOnNonText | BadBoost

  /** `blank` says of a string whether `strings.TrimSpace` leaves nothing of it. */
  function ValidateField(blank: string -> bool, f: Field): Result<()>
  {
    if blank(f.name) || ' ' in f.name || '.' in f.name || '/' in f.name then Err(BadField(f.name, BadName))
    else if f.kind.UnsupportedField? then Err(BadField(f.name, UnsupportedType))
    else if !f.kind.TextField? && f.analyzer != "" then Err(BadField(f.name, AnalyzerOnNonText))
    else if f.boost < 0.0 || f.boost > 100.0 then Err(BadField(f.name, BadBoost))
    else Ok(())
  }

  predicate DistinctNames(fields: seq<Field>)
  {
    forall i, j :: 0 <= i < j < |fields| ==> fields[i].name != fields[j].name
  }

  predicate AllFieldsValid(blank: string -> bool, fields: seq<Field>)
  {
    forall i :: 0 <= i < |fields| ==> ValidateField(blank, fields[i]).Ok?
  }

  /** What the constructor of schemas lets through. */
  predicate SchemaAccepted(blank: string -> bool, version: nat, fields: seq<Field>, actor: string)
  {
    && version > 0 && fields != [] && !blank(actor)
    && AllFieldsValid(blank, fields) && DistinctNames(fields)
  }

  /** A schema is built exactly if version, fields and actor are there, every field is valid and no two share a name;
      otherwise the first field that is invalid or repeats a name is reported. */
  method NewSchema(blank: string -> bool, version: nat, fields: seq<Field>, actor: string, now: int)
    returns (r: Result<Schema>)
    ensures r.Ok? <==> SchemaAccepted(blank, version, fields, actor)
    ensures r.Ok? ==> r.value == Schema(version, fields, now, actor)
    ensures r.Err? && r.error != MissingParts ==> exists i ::
      0 <= i < |fields| && FirstToBlame(blank, fields, i, r.error)
  {
    if version == 0 || fields == [] || blank(actor) {
      return Err(MissingParts);
    }
    var seen: set<string> := {};
    for i := 0 to |fields|
      invariant AllFieldsValid(blank, fields[..i]) && DistinctNames(fields[..i])
      invariant seen == set j | 0 <= j < i :: fields[j].name
    {
      var field := fields[i];
      var checked := ValidateField(blank, field);
      if checked.Err? {
        assert FirstToBlame(blank, fields, i, checked.error);
        return Err(checked.error);
      }
      if field.name in seen {
        assert FirstToBlame(blank, fields, i, DuplicateField(field.name));
        return Err(DuplicateField(field.name));
      }
      seen := seen + {field.name};
    }
    assert fields[..|fields|] == fields;
    r := Ok(Schema(version, fields, now, actor));
  }

  ghost predicate FirstToBlame(blank: string -> bool, fields: seq<Field>, i: nat, error: Error)
    requires i < |fields|
  {
    && AllFieldsValid(blank, fields[..i]) && DistinctNames(fields[..i])
    && if ValidateField(blank, fields[i]).Err? then error == ValidateField(blank, fields[i]).error
       else error == DuplicateField(fields[i].name) && exists j :: 0 <= j < i && fields[j].name == fields[i].name
  }

  function NewCollection(blank: string -> bool, id: string, tenant: string, name: string, schema: Schema, shards: int,
                         actor: string, now: int): Result<Collection>
  {
    if blank(id) || blank(tenant) || blank(name) then Err(MissingParts)
    else if shards < 1 || shards > 128 then Err(BadShards)
    else Ok(Collection(id, tenant, name, Active, schema, shards, 0, 1, now, now, actor, actor))
  }

  function ReplaceSchema(c: Collection, next: Schema, expected: nat, actor: string, now: int): Result<Collection>
  {
    if c.version != expected then Err(VersionMismatch)
    else if next.version != c.schema.version + 1 then Err(SchemaSkipsVersion)
    else if c.state != Active && c.state != Frozen then Err(SchemaLocked)
    else Ok(c.(schema := next, version := c.version + 1, updatedAt := now, updatedBy := actor))
  }

  /** A field is valid exactly if its name is there without spaces, dots and slashes, its type is known, only text has
      an analyzer, and its boost lies between 0 and 100. */
  ghost predicate IsGoodField(blank: string -> bool, f: Field)
  {
    && !blank(f.name) && (forall k :: 0 <= k < |f.name| ==> f.name[k] !in {' ', '.', '/'})
    && f.kind in {TextField, KeywordField, NumberField, DateField, BoolField}
    && (f.analyzer == "" || f.kind == TextField)
    && 0.0 <= f.boost <= 100.0
  }

  lemma ValidateFieldIff(blank: string -> bool, f: Field)
    ensures ValidateField(blank, f).Ok? <==> IsGoodField(blank, f)
  {
    assert forall c :: c in f.name <==> exists k :: 0 <= k < |f.name| && f.name[k] == c;
  }
}
