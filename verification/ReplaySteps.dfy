/** What a replay into an engine does, record by record (`ReplayInto` in internal/storage/recovery.go). */
module ReplaySteps {
  import opened Documents
  import opened Options
  import opened ReplayInto
  import opened Store
  import opened StoreEffects
  import opened WriteAheadLog

  /** What the engine answers to a record: a deletion deletes its document in its version, and anything else upserts
      just the document that its payload holds. */
  ghost predicate Answers(p: Payloads, r: Record, clock: nat -> int, s: State, s': State, status: Status)
  {
    if r.operation.DeleteOperation? then Deleted(s, r.documentId, r.version, clock(r.sequence)) == (s', status)
    else p.decode(r.payload).Some? && Upserted(s, p.decode(r.payload).value) == (s', status)
  }

  /** The engine takes these records one after another, from states[0] to states[|records|]. */
  ghost predicate TakesAll(p: Payloads, records: seq<Record>, clock: nat -> int, states: seq<State>)
  {
    && |states| == |records| + 1
    && forall i :: 0 <= i < |records| ==> Answers(p, records[i], clock, states[i], states[i + 1], Done)
  }

  /** Why a replay ended in this state after k records: the log gave no more, the next record is neither a deletion
      nor holds a document, or the engine refuses it. */
  ghost predicate EndsAt(p: Payloads, d: Delivery, clock: nat -> int, k: nat, last: State, failure: Failure)
  {
    if k >= |d.records| then
      k == |d.records| && failure == (if d.error.Some? then Some(LogBroken(d.error.value)) else None)
    else if !d.records[k].operation.DeleteOperation? && p.decode(d.records[k].payload).None? then
      failure == Some(BadPayload)
    else
      && failure.Some? && failure.value.Refused? && failure.value.status != Done
      && Answers(p, d.records[k], clock, last, last, failure.value.status)
  }

  lemma RefusalChangesNothing(s: State, op: Op)
    ensures Apply(s, op).1 != Done ==> Apply(s, op).0 == s
  {
    match op
    case Upsert(doc) => UpsertEffect(s, doc);
    case Delete(id, version, now) => DeleteEffect(s, id, version, now);
    case Flush =>
  }

  lemma OneRecord(p: Payloads, s: State, r: Record, clock: nat -> int)
    ensures OpOf(p, r, clock).None? <==> !r.operation.DeleteOperation? && p.decode(r.payload).None?
    ensures OpOf(p, r, clock).Some? ==>
      var (s', status) := Apply(s, OpOf(p, r, clock).value);
      Answers(p, r, clock, s, s', status) && (status != Done ==> s' == s)
  {
    hide Deleted, Upserted;
    if OpOf(p, r, clock).Some? {
      RefusalChangesNothing(s, OpOf(p, r, clock).value);
    }
  }

  lemma TakesOneMore(p: Payloads, r: Record, records: seq<Record>, clock: nat -> int, s: State, states: seq<State>)
    requires TakesAll(p, records, clock, states) && Answers(p, r, clock, s, states[0], Done)
    ensures |states| == |records| + 1 && TakesAll(p, [r] + records, clock, [s] + states)
  {
    hide Answers;
  }

  /** Is the first of the delivered records taken? */
  ghost predicate TakesFirst(p: Payloads, s: State, d: Delivery, clock: nat -> int)
  {
    && d.records != [] && OpOf(p, d.records[0], clock).Some?
    && Apply(s, OpOf(p, d.records[0], clock).value).1 == Done
  }

  lemma FirstIsTaken(p: Payloads, s: State, d: Delivery, clock: nat -> int) returns (s': State)
    requires TakesFirst(p, s, d, clock)
    ensures d.records != [] && Answers(p, d.records[0], clock, s, s', Done)
    ensures Recovered(p, s, d, clock) == Recovered(p, s', Delivery(d.records[1..], d.error), clock)
  {
    var r, rest := d.records[0], Delivery(d.records[1..], d.error);
    assert d == Delivery([r] + rest.records, rest.error);
    OneRecord(p, s, r, clock);
    RecoveredByRecord(p, s, r, rest, clock);
    hide Recovered, OpOf, Apply, Answers;
    s' := Apply(s, OpOf(p, r, clock).value).0;
  }

  lemma StopsAtOnce(p: Payloads, s: State, d: Delivery, clock: nat -> int)
    requires !TakesFirst(p, s, d, clock)
    ensures Recovered(p, s, d, clock).0 == s && EndsAt(p, d, clock, 0, s, Recovered(p, s, d, clock).1)
    ensures TakesAll(p, [], clock, [s])
  {
    if d.records == [] {
      NothingToRecover(p, s, d.error, clock);
    } else {
      var r, rest := d.records[0], Delivery(d.records[1..], d.error);
      assert d == Delivery([r] + rest.records, rest.error);
      OneRecord(p, s, r, clock);
      RecoveredByRecord(p, s, r, rest, clock);
    }
    hide Recovered, OpOf, Apply, Answers;
  }

  /** A replay takes the delivered records in order, each once, up to the first that cannot be read or is refused, and
      then the log's own error. */
  lemma {:induction false} RecoveredMeans(p: Payloads, s: State, d: Delivery, clock: nat -> int)
    returns (k: nat, states: seq<State>)
    ensures k <= |d.records| && |states| == k + 1 && TakesAll(p, d.records[..k], clock, states)
    ensures states[0] == s && states[k] == Recovered(p, s, d, clock).0
    ensures EndsAt(p, d, clock, k, states[k], Recovered(p, s, d, clock).1)
    decreases |d.records|
  {
    hide *;
    k, states := 0, [s];
    if TakesFirst(p, s, d, clock) {
      var s' := FirstIsTaken(p, s, d, clock);
      var rest := Delivery(d.records[1..], d.error);
      var j, later := RecoveredMeans(p, s', rest, clock);
      k, states := j + 1, [s] + later;
      TakesOneMore(p, d.records[0], rest.records[..j], clock, s, later);
      assert d.records[..k] == [d.records[0]] + rest.records[..j];
      EndsLater(p, d, rest, clock, j, states[k], Recovered(p, s, d, clock).1);
    } else {
      StopsAtOnce(p, s, d, clock);
      assert d.records[..0] == [];
    }
  }

  lemma EndsLater(p: Payloads, d: Delivery, rest: Delivery, clock: nat -> int, j: nat, last: State, failure: Failure)
    requires d.records != [] && rest == Delivery(d.records[1..], d.error)
    ensures EndsAt(p, rest, clock, j, last, failure) ==> EndsAt(p, d, clock, j + 1, last, failure)
  {
    hide Answers;
  }
}
