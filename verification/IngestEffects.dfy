/** What a caller of the ingest service gets: what is shown and what is logged after its write, in its own terms
    (internal/ingest/service.go). */
module IngestEffects {
  import Collections
  import opened Documents
  import opened IndexEngine
  import opened Ingest
  import opened LogIntegrity
  import opened Options
  import opened ReplayInto
  import opened Store
  import opened StoreEffects
  import opened WriteAheadLog

  /** Nothing but this document may differ. */
  ghost predicate SameElsewhere(view: map<string, Document>, view': map<string, Document>, id: string)
  {
    forall x :: x != id ==> (x in view <==> x in view') && (x in view ==> view[x] == view'[x])
  }

  /** The line of a record that reads back as an upsert of this document. */
  ghost predicate LogsUpsert(lib: Library, p: Payloads, line: string, d: Document, sequence: nat, now: int)
  {
    exists r: Record ::
      && line == lib.marshal(r) + "\n" && r.operation == UpsertOperation
      && r.tenant == d.tenant && r.collection == d.collection && r.documentId == d.id && r.version == d.version
      && r.sequence == sequence && r.timestamp == now
      && r.checksum == lib.digest(lib.marshal(r.(checksum := "")))
      && p.decode(r.payload) == Some(d)
  }

  ghost predicate LogsDelete(lib: Library, line: string, tenant: string, collection: string, id: string, version: nat,
                             sequence: nat, now: int)
  {
    exists r: Record ::
      && line == lib.marshal(r) + "\n" && r.operation == DeleteOperation && r.payload == ""
      && r.tenant == tenant && r.collection == collection && r.documentId == id && r.version == version
      && r.sequence == sequence && r.timestamp == now
      && r.checksum == lib.digest(lib.marshal(r.(checksum := "")))
  }

  lemma UpsertIsLogged(lib: Library, p: Payloads, d: Document, sequence: nat, now: int)
    requires PayloadLaws(lib, p) && p.encode(d).Some?
    ensures
      LogsUpsert(lib, p, Line(lib, Numbered(lib, UpsertRecord(d, p.encode(d).value), sequence, now)), d, sequence, now)
  {
    var r := Numbered(lib, UpsertRecord(d, p.encode(d).value), sequence, now);
    NumberedIs(lib, UpsertRecord(d, p.encode(d).value), sequence, now);
    assert r.(checksum := "")
      == UpsertRecord(d, p.encode(d).value).(sequence := sequence, timestamp := now, checksum := "");
    hide Numbered;
  }

  lemma DeleteIsLogged(lib: Library, tenant: string, collection: string, id: string, version: nat, sequence: nat,
                       now: int)
    ensures
      LogsDelete(lib, Line(lib, Numbered(lib, DeleteRecord(tenant, collection, id, version), sequence, now)),
                 tenant, collection, id, version, sequence, now)
  {
    var record := DeleteRecord(tenant, collection, id, version);
    var r := Numbered(lib, record, sequence, now);
    NumberedIs(lib, record, sequence, now);
    assert r.(checksum := "") == record.(sequence := sequence, timestamp := now, checksum := "");
    hide Numbered;
  }

  /** The document is the caller's, not deleted, and as old as the call. */
  ghost predicate IsCallers(d: Document, tenant: string, collection: string, id: string, fields: map<string, Value>,
                            version: nat, schema: nat, now: int)
  {
    && d.id == id && d.tenant == tenant && d.collection == collection && d.fields == fields
    && d.version == version && d.schemaVersion == schema && !d.deleted && d.createdAt == now && d.updatedAt == now
  }

  /** The file has grown by one line. */
  ghost predicate Grown(file: string, file': string, line: string)
  {
    file' == file + line
  }

  /** What the log and the view are like after an accepted upsert. */
  ghost predicate ShownAndLogged(lib: Library, p: Payloads, view: map<string, Document>, file: string, file': string,
                                 tenant: string, collection: string, id: string, fields: map<string, Value>,
                                 version: nat, schema: nat, sequence: nat, now: int)
  {
    && id in view && IsCallers(view[id], tenant, collection, id, fields, version, schema, now)
    && exists line :: Grown(file, file', line) && LogsUpsert(lib, p, line, view[id], sequence, now)
  }

  lemma UpsertMeans(lib: Library, p: Payloads, s: State, s': State, file: string, file': string, tenant: string,
                    collection: string, id: string, fields: map<string, Value>, version: nat, schema: nat,
                    sequence: nat, now: int)
    requires PayloadLaws(lib, p)
    requires
      var d := NewDocument(tenant, collection, id, fields, version, schema, now);
      && p.encode(d).Some? && Upserted(s, d) == (s', Done)
      && file' == file + Line(lib, Numbered(lib, UpsertRecord(d, p.encode(d).value), sequence, now))
    ensures
      ShownAndLogged(lib, p, View(s'), file, file', tenant, collection, id, fields, version, schema, sequence, now)
  {
    var d := NewDocument(tenant, collection, id, fields, version, schema, now);
    DocumentIs(tenant, collection, id, fields, version, schema, now);
    PutEffect(s, d);
    UpsertIsLogged(lib, p, d, sequence, now);
    hide Upserted, View, Numbered, Line, LogsUpsert, UpsertRecord, NewDocument, PayloadLaws;
    assert Grown(file, file', Line(lib, Numbered(lib, UpsertRecord(d, p.encode(d).value), sequence, now)));
  }

  /** An upsert that is accepted shows the caller's document, in the caller's version and the schema's, and logs just
      that; one that is not accepted shows nothing new. Nothing else changes. An upsert in a version above that of
      what is shown is never rejected. */
  ghost predicate UpsertedFor(lib: Library, p: Payloads, view: map<string, Document>, view': map<string, Document>,
                              file: string, file': string, sequence: nat, sequence': nat, tenant: string,
                              collection: string, id: string, fields: map<string, Value>, version: nat, schema: nat,
                              now: int, r: Ingested)
  {
    && SameElsewhere(view, view', id)
    && (r.Accepted? ==>
         && sequence' == sequence + 1
         && ShownAndLogged(lib, p, view', file, file', tenant, collection, id, fields, version, schema, sequence', now))
    && (!r.Accepted? ==> view' == view)
    && (id !in view || view[id].version < version ==> !r.Rejected?)
  }

  /** The service's contract, on the values before and after, amounts to that. */
  lemma UpsertOutcome(lib: Library, p: Payloads, s: State, s': State, file: string, file': string, sequence: nat,
                      sequence': nat, tenant: string, collection: string, id: string, fields: map<string, Value>,
                      version: nat, schema: nat, outcome: AppendOutcome, now: int, r: Ingested)
    requires PayloadLaws(lib, p)
    requires
      var d := NewDocument(tenant, collection, id, fields, version, schema, now);
      var (t, status) := Upserted(s, d);
      || (r in {InvalidDocument, NotEncodable} && s' == s)
      || (&& p.encode(d).Some?
          && sequence' == sequence + (if outcome.Cancelled? then 0 else 1)
          && file' == file + (if Lands(outcome)
               then Line(lib, Numbered(lib, UpsertRecord(d, p.encode(d).value), sequence', now)) else "")
          && r == (if !outcome.Synced? then AppendFailed else if status == Done then Accepted else Rejected(status))
          && s' == (if outcome.Synced? then t else s))
    ensures
      UpsertedFor(lib, p, View(s), View(s'), file, file', sequence, sequence', tenant, collection, id, fields, version,
                  schema, now, r)
  {
    DocumentIs(tenant, collection, id, fields, version, schema, now);
    PutEffect(s, NewDocument(tenant, collection, id, fields, version, schema, now));
    NothingElse(View(s), id);
    SyncedLands();
    hide View, Upserted, NewDocument, Numbered, Line, UpsertRecord, PayloadLaws, ShownAndLogged, SameElsewhere, Lands;
    if r.Accepted? {
      UpsertMeans(lib, p, s, s', file, file', tenant, collection, id, fields, version, schema, sequence', now);
    }
  }

  method UpsertShows(s: Service, tenant: string, collection: string, id: string, fields: map<string, Value>,
                     version: nat, schema: nat, outcome: AppendOutcome, now: int) returns (r: Ingested)
    requires Collections.Key(tenant, collection) in s.engines && s.engines[Collections.Key(tenant, collection)].Valid()
    requires PayloadLaws(s.wal.lib, s.payloads)
    modifies s.wal, s.engines[Collections.Key(tenant, collection)]
    ensures
      var e := s.engines[Collections.Key(tenant, collection)];
      && e.Valid()
      && UpsertedFor(s.wal.lib, s.payloads, old(View(e.StateOf())), View(e.StateOf()), old(s.wal.file), s.wal.file,
                     old(s.wal.sequence), s.wal.sequence, tenant, collection, id, fields, version, schema, now, r)
  {
    ghost var e := s.engines[Collections.Key(tenant, collection)];
    ghost var before, file, sequence := e.StateOf(), s.wal.file, s.wal.sequence;
    hide *;
    r := s.Upsert(tenant, collection, id, fields, version, Some(schema), outcome, now);
    UpsertOutcome(s.wal.lib, s.payloads, before, e.StateOf(), file, s.wal.file, sequence, s.wal.sequence, tenant,
                  collection, id, fields, version, schema, outcome, now, r);
  }

  lemma GrownIf(file: string, file': string, line: string)
    requires file' == file + line
    ensures Grown(file, file', line)
  {
  }

  lemma SyncedLands()
    ensures Lands(Synced)
  {
  }

  lemma DocumentIs(tenant: string, collection: string, id: string, fields: map<string, Value>, version: nat,
                   schema: nat, now: int)
    ensures NewDocument(tenant, collection, id, fields, version, schema, now)
         == Document(id, tenant, collection, fields, version, schema, false, now, now)
  {
  }

  lemma NothingElse(view: map<string, Document>, id: string)
    ensures SameElsewhere(view, view, id)
  {
  }

  lemma PutEffect(s: State, d: Document)
    ensures
      var (s', status) := Upserted(s, d);
      && SameElsewhere(View(s), View(s'), d.id)
      && (status == Done ==> d.id in View(s') && View(s')[d.id] == d)
      && (status != Done ==> View(s') == View(s))
      && (d.id !in View(s) || View(s)[d.id].version < d.version ==> status == Done)
  {
    UpsertEffect(s, d);
    ViewMeans(s, d.id);
    hide View, Upserted;
  }

  /** The document is shown as deleted, in this version and with this time; nothing else of it changed. */
  ghost predicate IsDeletedCopy(view: map<string, Document>, view': map<string, Document>, id: string, version: nat,
                                now: int)
  {
    && id in view && id in view'
    && var d, t := view[id], view'[id];
       && t.deleted && t.version == version && t.updatedAt == now && t.createdAt == d.createdAt && t.id == d.id
       && t.tenant == d.tenant && t.collection == d.collection && t.fields == d.fields
       && t.schemaVersion == d.schemaVersion
  }

  lemma RemoveEffect(s: State, id: string, version: nat, now: int)
    ensures
      var (s', status) := Deleted(s, id, version, now);
      && SameElsewhere(View(s), View(s'), id)
      && (status == Done <==> id in View(s) && View(s)[id].version < version)
      && (status == NotFound <==> id !in View(s))
      && (status != Done ==> View(s') == View(s))
      && (status == Done ==> IsDeletedCopy(View(s), View(s'), id, version, now))
  {
    DeleteEffect(s, id, version, now);
    hide View, Deleted;
  }

  /** A deletion that is accepted shows the document as deleted, in the caller's version; it is accepted exactly if the
      document is shown in an older version and the log can be written. */
  ghost predicate DeletedFor(lib: Library, view: map<string, Document>, view': map<string, Document>, file: string,
                             file': string, sequence: nat, sequence': nat, tenant: string, collection: string,
                             id: string, version: nat, outcome: AppendOutcome, now: int, r: Ingested)
  {
    && SameElsewhere(view, view', id)
    && (r.Accepted? <==> outcome.Synced? && id in view && view[id].version < version)
    && (r == Rejected(NotFound) <==> outcome.Synced? && id !in view)
    && (!r.Accepted? ==> view' == view)
    && (r.Accepted? ==> IsDeletedCopy(view, view', id, version, now))
    && (outcome.Synced? ==>
         && sequence' == sequence + 1
         && exists line :: Grown(file, file', line)
              && LogsDelete(lib, line, tenant, collection, id, version, sequence', now))
  }

  lemma DeleteOutcome(lib: Library, s: State, s': State, file: string, file': string, sequence: nat, sequence': nat,
                      tenant: string, collection: string, id: string, version: nat, outcome: AppendOutcome, now: int,
                      r: Ingested)
    requires !r.EngineUnavailable? && (r.AppendFailed? <==> !outcome.Synced?)
    requires outcome.Synced? ==>
      var (t, status) := Deleted(s, id, version, now);
      s' == t && r == if status == Done then Accepted else Rejected(status)
    requires !outcome.Synced? ==> s' == s
    requires sequence' == sequence + (if outcome.Cancelled? then 0 else 1)
    requires file' == file + if Lands(outcome)
      then Line(lib, Numbered(lib, DeleteRecord(tenant, collection, id, version), sequence', now)) else ""
    ensures
      DeletedFor(lib, View(s), View(s'), file, file', sequence, sequence', tenant, collection, id, version, outcome,
                 now, r)
  {
    RemoveEffect(s, id, version, now);
    NothingElse(View(s), id);
    SyncedLands();
    hide View, Deleted, Numbered, Line, DeleteRecord, SameElsewhere, LogsDelete, IsDeletedCopy, Grown, Lands;
    if outcome.Synced? {
      DeleteIsLogged(lib, tenant, collection, id, version, sequence', now);
      GrownIf(file, file', Line(lib, Numbered(lib, DeleteRecord(tenant, collection, id, version), sequence', now)));
    }
  }

  method DeleteShows(s: Service, tenant: string, collection: string, id: string, version: nat, outcome: AppendOutcome,
                     now: int) returns (r: Ingested)
    requires Collections.Key(tenant, collection) in s.engines && s.engines[Collections.Key(tenant, collection)].Valid()
    modifies s.wal, s.engines[Collections.Key(tenant, collection)]
    ensures
      var e := s.engines[Collections.Key(tenant, collection)];
      && e.Valid()
      && DeletedFor(s.wal.lib, old(View(e.StateOf())), View(e.StateOf()), old(s.wal.file), s.wal.file,
                    old(s.wal.sequence), s.wal.sequence, tenant, collection, id, version, outcome, now, r)
  {
    ghost var e := s.engines[Collections.Key(tenant, collection)];
    ghost var before, file, sequence := e.StateOf(), s.wal.file, s.wal.sequence;
    hide *;
    r := s.Delete(tenant, collection, id, version, outcome, now);
    DeleteOutcome(s.wal.lib, before, e.StateOf(), file, s.wal.file, sequence, s.wal.sequence, tenant, collection, id,
                  version, outcome, now, r);
  }
}
