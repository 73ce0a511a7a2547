/** The ingest service of internal/ingest/service.go: every write is logged first and applied to the engine after. */
module Ingest {
  import Collections
  import opened Documents
  import opened IndexEngine
  import opened Options
  import opened ReplayInto
  import opened Store
  import opened WriteAheadLog

  datatype Ingested =
    | CollectionMissing
    | EngineUnavailable
    | InvalidDocument
    | NotEncodable
    | AppendFailed
    | Rejected(status: Status)
    | Accepted

  function NewDocument(tenant: string, collection: string, id: string, fields: map<string, Value>, version: nat,
                       schema: nat, now: int): Document
  {
    Document(id, tenant, collection, fields, version, schema, false, now, now)
  }

  function UpsertRecord(d: Document, payload: string): Record
  {
    Record(0, UpsertOperation, d.tenant, d.collection, d.id, d.version, payload, 0, "")
  }

  function DeleteRecord(tenant: string, collection: string, id: string, version: nat): Record
  {
    Record(0, DeleteOperation, tenant, collection, id, version, "", 0, "")
  }

  class Service {
    const wal: WAL
    const payloads: Payloads
    const accepts: (Document, nat) -> bool  // `Document.Validate` against the schema of that version
    var engines: map<string, Engine>

    constructor (wal: WAL, payloads: Payloads, accepts: (Document, nat) -> bool)
      ensures this.wal == wal && this.payloads == payloads && this.accepts == accepts && engines == map[]
    {
      this.wal := wal;
      this.payloads := payloads;
      this.accepts := accepts;
      engines := map[];
    }

    /** The engine that serves a collection, if one is registered. */
    function EngineOf(tenant: string, collection: string): Option<Engine>
      reads this
    {
      if Collections.Key(tenant, collection) in engines
        then Some(engines[Collections.Key(tenant, collection)]) else None
    }

    /** From now on the engine serves this collection, and every other pair whose key is different is served as before;
        without a NUL in the tenants' names that is every other collection. */
    method RegisterEngine(tenant: string, collection: string, engine: Engine)
      modifies this
      ensures EngineOf(tenant, collection) == Some(engine)
      ensures forall t, c ::
        Collections.Key(t, c) != Collections.Key(tenant, collection) ==> EngineOf(t, c) == old(EngineOf(t, c))
      ensures forall t, c :: '\0' !in tenant && '\0' !in t && (t, c) != (tenant, collection) ==>
        EngineOf(t, c) == old(EngineOf(t, c))
    {
      forall t, c | '\0' !in tenant && '\0' !in t && Collections.Key(t, c) == Collections.Key(tenant, collection)
        ensures t == tenant && c == collection
      {
        Collections.KeysOfPlainTenants(t, c, tenant, collection);
      }
      hide Collections.Key;
      engines := engines[Collections.Key(tenant, collection) := engine];
    }

    /** `schema` is the outcome of the collection lookup, `outcome` that of the append. The record is in the log before
        the engine sees the write, and stays there even if the engine refuses it. */
    method Upsert(tenant: string, collection: string, id: string, fields: map<string, Value>, version: nat,
                  schema: Option<nat>, outcome: AppendOutcome, now: int) returns (r: Ingested)
      requires Collections.Key(tenant, collection) in engines ==> engines[Collections.Key(tenant, collection)].Valid()
      modifies wal, if Collections.Key(tenant, collection) in engines
        then {engines[Collections.Key(tenant, collection)]} else {}
      ensures schema.None? ==> r == CollectionMissing
      ensures schema.Some? && Collections.Key(tenant, collection) !in engines ==> r == EngineUnavailable
      ensures schema.None? || Collections.Key(tenant, collection) !in engines ==> unchanged(wal)
      ensures Collections.Key(tenant, collection) in engines && schema.None? ==>
        var e := engines[Collections.Key(tenant, collection)];
        e.Valid() && e.StateOf() == old(e.StateOf())
      ensures schema.Some? && Collections.Key(tenant, collection) in engines ==>
        var e := engines[Collections.Key(tenant, collection)];
        var d := NewDocument(tenant, collection, id, fields, version, schema.value, now);
        var (s', status) := Upserted(old(e.StateOf()), d);
        && e.Valid()
        && (!accepts(d, schema.value) ==> r == InvalidDocument && unchanged(wal) && e.StateOf() == old(e.StateOf()))
        && (accepts(d, schema.value) && payloads.encode(d).None? ==>
             r == NotEncodable && unchanged(wal) && e.StateOf() == old(e.StateOf()))
        && (accepts(d, schema.value) && payloads.encode(d).Some? ==>
             && wal.sequence == old(wal.sequence) + (if outcome.Cancelled? then 0 else 1)
             && wal.file == old(wal.file) + (if Lands(outcome)
                  then Line(wal.lib, Numbered(wal.lib, UpsertRecord(d, payloads.encode(d).value), wal.sequence, now))
                  else "")
             && r == (if !outcome.Synced? then AppendFailed else if status == Done then Accepted else Rejected(status))
             && e.StateOf() == (if outcome.Synced? then s' else old(e.StateOf())))
    {
      if schema.None? {
        return CollectionMissing;
      }
      if Collections.Key(tenant, collection) !in engines {
        return EngineUnavailable;
      }
      var e := engines[Collections.Key(tenant, collection)];
      var d := NewDocument(tenant, collection, id, fields, version, schema.value, now);
      if !accepts(d, schema.value) {
        return InvalidDocument;
      }
      var payload := payloads.encode(d);
      if payload.None? {
        return NotEncodable;
      }
      hide *;
      var sequence := wal.Append(UpsertRecord(d, payload.value), outcome, now);
      if sequence.None? {
        return AppendFailed;
      }
      var status := e.Upsert(d);
      r := if status == Done then Accepted else Rejected(status);
    }

    method Delete(tenant: string, collection: string, id: string, version: nat, outcome: AppendOutcome, now: int)
      returns (r: Ingested)
      requires Collections.Key(tenant, collection) in engines ==> engines[Collections.Key(tenant, collection)].Valid()
      modifies wal, if Collections.Key(tenant, collection) in engines
        then {engines[Collections.Key(tenant, collection)]} else {}
      ensures r.EngineUnavailable? <==> Collections.Key(tenant, collection) !in engines
      ensures r.EngineUnavailable? ==> unchanged(wal)
      ensures Collections.Key(tenant, collection) in engines ==>
        var e := engines[Collections.Key(tenant, collection)];
        && e.Valid()
        && (r.AppendFailed? <==> !outcome.Synced?)
        && (outcome.Synced? ==>
             var (s', status) := Deleted(old(e.StateOf()), id, version, now);
             e.StateOf() == s' && r == if status == Done then Accepted else Rejected(status))
        && (!outcome.Synced? ==> e.StateOf() == old(e.StateOf()))
        && wal.sequence == old(wal.sequence) + (if outcome.Cancelled? then 0 else 1)
        && wal.file == old(wal.file) + if Lands(outcome)
             then Line(wal.lib, Numbered(wal.lib, DeleteRecord(tenant, collection, id, version), wal.sequence, now))
             else ""
    {
      if Collections.Key(tenant, collection) !in engines {
        return EngineUnavailable;
      }
      var e := engines[Collections.Key(tenant, collection)];
      hide *;
      var sequence := wal.Append(DeleteRecord(tenant, collection, id, version), outcome, now);
      if sequence.None? {
        return AppendFailed;
      }
      var status := e.Delete(id, version, now);
      r := if status == Done then Accepted else Rejected(status);
    }
  }
}
