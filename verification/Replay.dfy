/** `ReplayInto` (internal/storage/recovery.go): the records of a log, applied one by one to an engine. */
module ReplayInto {
  import opened Documents
  import opened IndexEngine
  import opened Options
  import opened Store
  import opened WriteAheadLog

  /** encoding/json on documents: some values cannot be encoded. */
  datatype Payloads = Payloads(encode: Document -> Option<string>, decode: string -> Option<Document>)

  /** What could be encoded reads back, and is written into a record as it is. */
  ghost predicate PayloadLaws(lib: Library, p: Payloads)
  {
    forall d: Document :: p.encode(d).Some? ==>
      p.decode(p.encode(d).value) == Some(d) && lib.compact(p.encode(d).value)
  }

  datatype RecoveryError = BadPayload | Refused(status: Status) | LogBroken(error: LogError)

  type Failure = Option<RecoveryError>

  /** What a record asks of its target. Anything that is not a deletion is taken as an upsert of the payload. */
  function OpOf(p: Payloads, r: Record, clock: nat -> int): Option<Op>
  {
    if r.operation.DeleteOperation? then Some(Delete(r.documentId, r.version, clock(r.sequence)))
    else
      match p.decode(r.payload)
      case None => None
      case Some(doc) => Some(Upsert(doc))
  }

  /** Applies the records until one cannot be read or is refused. */
  function RecoverAll(p: Payloads, s: State, records: seq<Record>, clock: nat -> int): (State, Failure)
    decreases |records|
  {
    if records == [] then (s, None)
    else
      match OpOf(p, records[0], clock)
      case None => (s, Some(BadPayload))
      case Some(op) =>
        var (s', status) := Apply(s, op);
        if status != Done then (s', Some(Refused(status))) else RecoverAll(p, s', records[1..], clock)
  }

  /** The same for what a replay delivers; the log's own error comes last. */
  function Recovered(p: Payloads, s: State, d: Delivery, clock: nat -> int): (State, Failure)
  {
    var (s', failure) := RecoverAll(p, s, d.records, clock);
    (s', if failure.None? && d.error.Some? then Some(LogBroken(d.error.value)) else failure)
  }

  /** A replay, line by line. */
  lemma ReplayedByLine(lib: Library, data: string, after: nat)
    ensures data == "" ==> Replayed(lib, data, after) == Delivery([], None)
    ensures data != "" && NewlineAt(data) >= MAX_LINE ==> Replayed(lib, data, after) == Delivery([], Some(TooLong))
    ensures data != "" && NewlineAt(data) < MAX_LINE ==>
      match ReadLine(lib, data[..NewlineAt(data)])
      case Bad(e) => Replayed(lib, data, after) == Delivery([], Some(e))
      case Good(r) =>
        var rest := Replayed(lib, AfterLine(data), after);
        Replayed(lib, data, after) == if r.sequence > after then Delivery([r] + rest.records, rest.error) else rest
  {
    hide ReadLine, NewlineAt;
  }

  lemma NothingToRecover(p: Payloads, s: State, error: Option<LogError>, clock: nat -> int)
    ensures Recovered(p, s, Delivery([], error), clock) ==
      (s, if error.Some? then Some(LogBroken(error.value)) else None)
  {
  }

  lemma RecoveredByRecord(p: Payloads, s: State, r: Record, rest: Delivery, clock: nat -> int)
    ensures
      Recovered(p, s, Delivery([r] + rest.records, rest.error), clock) ==
        match OpOf(p, r, clock)
        case None => (s, Some(BadPayload))
        case Some(op) =>
          var (s', status) := Apply(s, op);
          if status != Done then (s', Some(Refused(status))) else Recovered(p, s', rest, clock)
  {
    hide Apply, OpOf;
    assert ([r] + rest.records)[1..] == rest.records;
  }

  /** Applies one record to the engine. */
  method ApplyRecord(e: Engine, p: Payloads, r: Record, clock: nat -> int) returns (failure: Failure)
    requires e.Valid()
    modifies e
    ensures e.Valid()
    ensures
      match OpOf(p, r, clock)
      case None => e.StateOf() == old(e.StateOf()) && failure == Some(BadPayload)
      case Some(op) =>
        var (s', status) := Apply(old(e.StateOf()), op);
        e.StateOf() == s' && failure == if status != Done then Some(Refused(status)) else None
  {
    hide Apply;
    var status;
    if r.operation.DeleteOperation? {
      status := e.Delete(r.documentId, r.version, clock(r.sequence));
      DeleteIsApply(old(e.StateOf()), r.documentId, r.version, clock(r.sequence));
    } else {
      var doc := p.decode(r.payload);
      if doc.None? {
        return Some(BadPayload);
      }
      status := e.Upsert(doc.value);
      UpsertIsApply(old(e.StateOf()), doc.value);
    }
    failure := if status != Done then Some(Refused(status)) else None;
  }

  lemma DeleteIsApply(s: State, id: string, version: nat, now: int)
    ensures Apply(s, Delete(id, version, now)) == Deleted(s, id, version, now)
  {
  }

  lemma UpsertIsApply(s: State, doc: Document)
    ensures Apply(s, Upsert(doc)) == Upserted(s, doc)
  {
  }

  method Replay(w: WAL, e: Engine, p: Payloads, after: nat, clock: nat -> int) returns (failure: Failure)
    requires e.Valid()
    modifies e
    ensures e.Valid()
    ensures (e.StateOf(), failure) == Recovered(p, old(e.StateOf()), Replayed(w.lib, w.file, after), clock)
  {
    hide *;
    ghost var start := e.StateOf();
    var data := w.file;
    while data != ""
      invariant e.Valid()
      invariant Recovered(p, start, Replayed(w.lib, w.file, after), clock)
             == Recovered(p, e.StateOf(), Replayed(w.lib, data, after), clock)
      decreases |data|
    {
      ReplayedByLine(w.lib, data, after);
      var i := FindNewline(data);
      if i >= MAX_LINE {
        NothingToRecover(p, e.StateOf(), Some(TooLong), clock);
        return Some(LogBroken(TooLong));
      }
      var line := ReadLine(w.lib, data[..i]);
      if line.Bad? {
        NothingToRecover(p, e.StateOf(), Some(line.error), clock);
        return Some(LogBroken(line.error));
      }
      NextLine(data);
      if line.record.sequence > after {
        RecoveredByRecord(p, e.StateOf(), line.record, Replayed(w.lib, AfterLine(data), after), clock);
        failure := ApplyRecord(e, p, line.record, clock);
        if failure.Some? {
          return;
        }
      }
      data := if i < |data| then data[i + 1..] else "";
    }
    ReplayedByLine(w.lib, data, after);
    NothingToRecover(p, e.StateOf(), None, clock);
    failure := None;
  }

  lemma NextLine(data: string)
    requires data != ""
    ensures |AfterLine(data)| < |data|
    ensures AfterLine(data) == if NewlineAt(data) < |data| then data[NewlineAt(data) + 1..] else ""
  {
    AfterLineShrinks(data);
  }
}
