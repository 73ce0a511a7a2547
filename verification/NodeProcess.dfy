/** The service, the log and the engine, as objects, live the life of a node that Lifecycle describes. */
module NodeProcess {
  import opened Analyzer
  import Collections
  import opened Cursors
  import opened Documents
  import opened IndexEngine
  import opened Ingest
  import opened Lifecycle
  import opened Options
  import opened ReplayInto
  import opened Store
  import opened WalLaws
  import opened WriteAheadLog

  /** The log object and the engine are in the state of the node. */
  ghost predicate Embodies(wal: WAL, engine: Engine, n: Node)
    reads wal, engine, engine.segments
  {
    && wal.file == Encoded(wal.lib, n.log.records) && wal.sequence == n.log.sequence
    && engine.Valid() && engine.StateOf() == n.engine
  }

  lemma EmbodiesIff(wal: WAL, engine: Engine, n: Node)
    ensures Embodies(wal, engine, n) <==>
      && wal.file == Encoded(wal.lib, n.log.records) && wal.sequence == n.log.sequence
      && engine.Valid() && engine.StateOf() == n.engine
  {
  }

  lemma EncodedAfter(lib: Library, log: LogState, record: Record, outcome: AppendOutcome, now: int)
    ensures
      var after := Step(lib, log, Appending(record, outcome, now)).value;
      && after.sequence == log.sequence + (if outcome.Cancelled? then 0 else 1)
      && Encoded(lib, after.records) == Encoded(lib, log.records) +
           if Lands(outcome) then Line(lib, Numbered(lib, record, log.sequence + 1, now)) else ""
  {
    if Lands(outcome) {
      EncodedSnoc(lib, log.records, Numbered(lib, record, log.sequence + 1, now));
    }
    hide Encoded, Numbered, Line;
    assert Encoded(lib, log.records) + "" == Encoded(lib, log.records);
  }

  // ----- the two halves of a call, each under its own lock

  /** The first half: the append. */
  method LogWrite(w: WAL, engine: Engine, p: Payloads, e: Event, ghost n: Node) returns (logged: bool)
    requires ReachesLog(p, e) && Embodies(w, engine, n)
    modifies w
    ensures Embodies(w, engine, Handle(w.lib, p, n, e).value)
    ensures logged <==> e.outcome.Synced?
    ensures logged ==> Handle(w.lib, p, n, e).value.pending == n.pending + [OpFor(e)]
  {
    var record := RecordOf(p, e);
    EncodedAfter(w.lib, n.log, record, e.outcome, e.now);
    HandleOfWrite(w.lib, p, n, e);
    EmbodiesIff(w, engine, n);
    ghost var n' := Handle(w.lib, p, n, e).value;
    var outcome, now := e.outcome, e.now;
    hide *;
    var sequence := w.Append(record, outcome, now);
    EmbodiesIff(w, engine, n');
    logged := sequence.Some?;
  }

  /** The second half: the engine takes the k-th of the writes that wait. */
  method TakeWrite(w: WAL, engine: Engine, op: Op, k: nat, now: int, ghost n: Node) returns (status: Status)
    requires Embodies(w, engine, n) && k < |n.pending| && n.pending[k] == op && !op.Flush?
    modifies engine
    ensures Embodies(w, engine, Taken(n, k, now))
    ensures status == Done <==> Taken(n, k, now).acknowledged == n.acknowledged + [op]
  {
    TakenIs(n, k, now);
    EmbodiesIff(w, engine, n);
    ghost var n' := Taken(n, k, now);
    var stamped := Stamped(op, now);
    hide *;
    status := engine.Apply(stamped);
    EmbodiesIff(w, engine, n');
  }

  lemma HandleOfWrite(lib: Library, p: Payloads, n: Node, e: Event)
    requires ReachesLog(p, e)
    ensures Handle(lib, p, n, e).Some?
    ensures
      var n' := Handle(lib, p, n, e).value;
      && n'.log == Step(lib, n.log, Appending(RecordOf(p, e), e.outcome, e.now)).value
      && n'.engine == n.engine && n'.acknowledged == n.acknowledged
      && n'.pending == if e.outcome.Synced? then n.pending + [OpFor(e)] else n.pending
  {
    hide Step, RecordOf;
  }

  lemma TakenIs(n: Node, k: nat, now: int)
    requires k < |n.pending|
    ensures
      var n' := Taken(n, k, now);
      var (engine, status) := Apply(n.engine, Stamped(n.pending[k], now));
      && n'.log == n.log && n'.engine == engine
      && (status == Done <==> n'.acknowledged == n.acknowledged + [n.pending[k]])
  {
    hide Apply;
  }

  // ----- a call that nobody overtakes

  /** Both halves, one right after the other. */
  function AtOnce(lib: Library, p: Payloads, n: Node, e: Event): Node
    requires IsWrite(e)
  {
    var n' := Handle(lib, p, n, e).value;
    if ReachesLog(p, e) && e.outcome.Synced? then Taken(n', |n.pending|, e.now) else n'
  }

  /** What the objects say after a whole call is what the node's state says. */
  lemma WriteIsHandled(lib: Library, p: Payloads, n: Node, e: Event, file: string, sequence: nat, engine: State,
                       r: Ingested)
    requires ReachesLog(p, e)
    requires sequence == n.log.sequence + (if e.outcome.Cancelled? then 0 else 1)
    requires file == Encoded(lib, n.log.records) + if Lands(e.outcome)
      then Line(lib, Numbered(lib, RecordOf(p, e), sequence, e.now)) else ""
    requires e.outcome.Synced? ==>
      var (s', status) := Apply(n.engine, OpFor(e));
      engine == s' && r == if status == Done then Accepted else Rejected(status)
    requires !e.outcome.Synced? ==> engine == n.engine && r == AppendFailed
    ensures
      var n' := AtOnce(lib, p, n, e);
      && file == Encoded(lib, n'.log.records) && sequence == n'.log.sequence && engine == n'.engine
      && (r.Accepted? <==> n'.acknowledged == n.acknowledged + [OpFor(e)])
  {
    EncodedAfter(lib, n.log, RecordOf(p, e), e.outcome, e.now);
    HandleOfWrite(lib, p, n, e);
    var n' := Handle(lib, p, n, e).value;
    StampedOnce(e);
    hide Apply, Step, Encoded, Numbered, Line, RecordOf, OpFor, ReachesLog, Handle, Stamped, Taken;
    if e.outcome.Synced? {
      assert n'.pending[|n.pending|] == OpFor(e);
      TakenIs(n', |n.pending|, e.now);
    }
  }

  lemma StampedOnce(e: Event)
    requires IsWrite(e)
    ensures Stamped(OpFor(e), e.now) == OpFor(e)
  {
  }

  lemma HandleOfRestart(lib: Library, p: Payloads, n: Node, e: Event)
    requires e.Restart?
    ensures
      match ScanSequence(lib, Encoded(lib, n.log.records), 0)
      case ScanFailed(_) => Handle(lib, p, n, e).None?
      case Sequence(k) =>
        var delivery := Replayed(lib, Encoded(lib, n.log.records), 0);
        var (engine, failure) := Recovered(p, Empty(e.maxMutable), delivery, e.clock);
        Handle(lib, p, n, e) ==
          if failure.Some? then None
          else Some(Node(LogState(n.log.records, k), engine, [], n.acknowledged))
  {
    hide Recovered, ScanSequence, Replayed, Encoded;
  }

  /** A whole upsert of a document that fits the schema. */
  method PerformPut(s: Service, tenant: string, collection: string, id: string, fields: map<string, Value>,
                    version: nat, schema: nat, outcome: AppendOutcome, now: int, ghost n: Node) returns (r: Ingested)
    requires Collections.Key(tenant, collection) in s.engines
      && Embodies(s.wal, s.engines[Collections.Key(tenant, collection)], n)
    requires s.accepts(NewDocument(tenant, collection, id, fields, version, schema, now), schema)
    modifies s.wal, s.engines[Collections.Key(tenant, collection)]
    ensures
      var doc := NewDocument(tenant, collection, id, fields, version, schema, now);
      var n' := AtOnce(s.wal.lib, s.payloads, n, Put(doc, outcome, now));
      && Embodies(s.wal, s.engines[Collections.Key(tenant, collection)], n')
      && (r.Accepted? <==> n'.acknowledged == n.acknowledged + [OpFor(Put(doc, outcome, now))])
  {
    ghost var engine := s.engines[Collections.Key(tenant, collection)];
    ghost var doc := NewDocument(tenant, collection, id, fields, version, schema, now);
    ghost var e := Put(doc, outcome, now);
    assert Apply(n.engine, OpFor(e)) == Upserted(n.engine, doc);
    assert s.payloads.encode(doc).Some? ==>
      RecordOf(s.payloads, e) == UpsertRecord(doc, s.payloads.encode(doc).value) && ReachesLog(s.payloads, e);
    assert s.payloads.encode(doc).None? ==> AtOnce(s.wal.lib, s.payloads, n, e) == n;
    EmbodiesIff(s.wal, engine, n);
    hide *;
    r := s.Upsert(tenant, collection, id, fields, version, Some(schema), outcome, now);
    if s.payloads.encode(doc).Some? {
      WriteIsHandled(s.wal.lib, s.payloads, n, e, s.wal.file, s.wal.sequence, engine.StateOf(), r);
    }
    EmbodiesIff(s.wal, engine, AtOnce(s.wal.lib, s.payloads, n, e));
  }

  method PerformRemove(s: Service, tenant: string, collection: string, id: string, version: nat, outcome: AppendOutcome,
                       now: int, ghost n: Node) returns (r: Ingested)
    requires Collections.Key(tenant, collection) in s.engines
      && Embodies(s.wal, s.engines[Collections.Key(tenant, collection)], n)
    modifies s.wal, s.engines[Collections.Key(tenant, collection)]
    ensures
      var n' := AtOnce(s.wal.lib, s.payloads, n, Remove(tenant, collection, id, version, outcome, now));
      && Embodies(s.wal, s.engines[Collections.Key(tenant, collection)], n')
      && (r.Accepted? <==>
           n'.acknowledged == n.acknowledged + [OpFor(Remove(tenant, collection, id, version, outcome, now))])
  {
    ghost var engine := s.engines[Collections.Key(tenant, collection)];
    ghost var e := Remove(tenant, collection, id, version, outcome, now);
    assert ReachesLog(s.payloads, e);
    assert RecordOf(s.payloads, e) == DeleteRecord(tenant, collection, id, version)
      && Apply(n.engine, OpFor(e)) == Deleted(n.engine, id, version, now);
    EmbodiesIff(s.wal, engine, n);
    hide *;
    r := s.Delete(tenant, collection, id, version, outcome, now);
    WriteIsHandled(s.wal.lib, s.payloads, n, e, s.wal.file, s.wal.sequence, engine.StateOf(), r);
    EmbodiesIff(s.wal, engine, AtOnce(s.wal.lib, s.payloads, n, e));
  }

  datatype Revived = Revived(wal: WAL, engine: Engine) | Dead

  /** Starting over: the file is all that is left. It comes up exactly if the node does. */
  method PerformRestart(lib: Library, file: string, p: Payloads, analyzer: Pipeline, log: real -> real, codec: Codec,
                        maxMutable: nat, clock: nat -> int, ghost n: Node) returns (r: Revived)
    requires maxMutable >= 1 && file == Encoded(lib, n.log.records)
    ensures
      match Handle(lib, p, n, Restart(maxMutable, clock))
      case None => r.Dead?
      case Some(n') => r.Revived? && r.wal.lib == lib && Embodies(r.wal, r.engine, n')
  {
    HandleOfRestart(lib, p, n, Restart(maxMutable, clock));
    hide Handle, Encoded, Recovered, Replayed, ScanSequence, Empty, Engine.Valid, Engine.StateOf;
    var o := OpenWAL(lib, file);
    if o.OpenFailed? {
      return Dead;
    }
    var wal := o.wal;
    var engine := new Engine(analyzer, log, codec, maxMutable);
    var failure := Replay(wal, engine, p, 0, clock);
    r := if failure.Some? then Dead else Revived(wal, engine);
  }
}
