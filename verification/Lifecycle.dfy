/** One collection's node over its whole life: writes are logged and later applied, under different locks and so by
    many callers at once (internal/ingest/service.go), the engine flushes when it likes, and now and then the process
    starts over: the log is reopened (internal/storage/wal.go) and replayed into a fresh engine
    (internal/storage/recovery.go). */
module Lifecycle {
  import opened Documents
  import opened Durability
  import opened Ingest
  import opened LastWrites
  import opened Options
  import opened Recovery
  import opened ReplayInto
  import opened Store
  import opened WalLaws
  import opened WriteAheadLog

  /** The log, the engine, the writes that are logged and wait for the engine's lock, and those acknowledged so far. */
  datatype Node = Node(log: LogState, engine: State, pending: seq<Op>, acknowledged: seq<Op>)

  /** Put and Remove are the first half of a call, up to the end of the append. Take is the second half of some call
      that waits: the engine applies its write, and the caller learns the outcome. A restart drops the calls that
      wait. */
  datatype Event =
    | Put(doc: Document, outcome: AppendOutcome, now: int)
    | Remove(tenant: string, collection: string, id: string, version: nat, outcome: AppendOutcome, now: int)
    | Take(k: nat, at: int)
    | FlushNow
    | Restart(maxMutable: nat, clock: nat -> int)

  predicate IsWrite(e: Event)
  {
    e.Put? || e.Remove?
  }

  /** A document that cannot be encoded is turned away before the log. */
  predicate ReachesLog(p: Payloads, e: Event)
  {
    IsWrite(e) && (e.Put? ==> p.encode(e.doc).Some?)
  }

  function RecordOf(p: Payloads, e: Event): Record
    requires ReachesLog(p, e)
  {
    if e.Put? then UpsertRecord(e.doc, p.encode(e.doc).value) else DeleteRecord(e.tenant, e.collection, e.id, e.version)
  }

  function OpFor(e: Event): (op: Op)
    requires IsWrite(e)
    ensures !op.Flush?
  {
    if e.Put? then Op.Upsert(e.doc) else Op.Delete(e.id, e.version, e.now)
  }

  /** The engine reads its own clock when it applies a deletion. */
  function Stamped(op: Op, now: int): Op
  {
    if op.Delete? then op.(now := now) else op
  }

  function Without(pending: seq<Op>, k: nat): seq<Op>
    requires k < |pending|
  {
    pending[..k] + pending[k + 1..]
  }

  /** The engine takes the k-th write that waits. */
  function Taken(n: Node, k: nat, now: int): Node
    requires k < |n.pending|
  {
    var op := n.pending[k];
    var (engine, status) := Apply(n.engine, Stamped(op, now));
    Node(n.log, engine, Without(n.pending, k), if status == Done then n.acknowledged + [op] else n.acknowledged)
  }

  /** What the node is after an event; None if it does not come up again. */
  function Handle(lib: Library, p: Payloads, n: Node, e: Event): Option<Node>
  {
    if ReachesLog(p, e) then
      var log := Step(lib, n.log, Appending(RecordOf(p, e), e.outcome, e.now)).value;
      Some(n.(log := log, pending := if e.outcome.Synced? then n.pending + [OpFor(e)] else n.pending))
    else if IsWrite(e) then Some(n)
    else if e.Take? then Some(if e.k < |n.pending| then Taken(n, e.k, e.at) else n)
    else if e.FlushNow? then Some(n.(engine := Flushed(n.engine)))
    else
      match Step(lib, n.log, Reopening)
      case None => None
      case Some(log) =>
        var delivery := Replayed(lib, Encoded(lib, log.records), 0);
        var (engine, failure) := Recovered(p, Empty(e.maxMutable), delivery, e.clock);
        if failure.Some? then None else Some(Node(log, engine, [], n.acknowledged))
  }

  function Born(maxMutable: nat): Node
  {
    Node(LogState([], 0), Empty(maxMutable), [], [])
  }

  function Life(lib: Library, p: Payloads, maxMutable: nat, events: seq<Event>): Option<Node>
    decreases |events|
  {
    if events == [] then Some(Born(maxMutable))
    else
      match Life(lib, p, maxMutable, events[..|events| - 1])
      case None => None
      case Some(n) => Handle(lib, p, n, events[|events| - 1])
  }

  lemma LifeSnoc(lib: Library, p: Payloads, maxMutable: nat, events: seq<Event>, e: Event)
    ensures Life(lib, p, maxMutable, []) == Some(Born(maxMutable))
    ensures Life(lib, p, maxMutable, events + [e]) ==
      match Life(lib, p, maxMutable, events)
      case None => None
      case Some(n) => Handle(lib, p, n, e)
  {
    assert (events + [e])[..|events|] == events;
  }

  // ----- what is in the log

  /** The event leaves a line in the file, whether or not the write is acknowledged. */
  predicate Logs(p: Payloads, e: Event)
  {
    ReachesLog(p, e) && Lands(e.outcome)
  }

  /** The writes that end up in the log: acknowledged, refused by the engine, or left unsynced. */
  function Logged(p: Payloads, events: seq<Event>): (r: seq<Op>)
    ensures forall op :: op in r ==> !op.Flush?
    decreases |events|
  {
    if events == [] then []
    else
      var last := events[|events| - 1];
      Logged(p, events[..|events| - 1]) + if Logs(p, last) then [OpFor(last)] else []
  }

  lemma LoggedSnoc(p: Payloads, events: seq<Event>, e: Event)
    ensures Logged(p, []) == []
    ensures Logged(p, events + [e]) == if Logs(p, e) then Logged(p, events) + [OpFor(e)] else Logged(p, events)
  {
    assert (events + [e])[..|events|] == events;
  }

  lemma LoggedIsNoFlush(p: Payloads, events: seq<Event>)
    ensures NoFlush(Logged(p, events))
  {
    hide Logged;
    var logged := Logged(p, events);
    forall i | 0 <= i < |logged|
      ensures !logged[i].Flush?
    {
      assert logged[i] in logged;
    }
  }

  /** A line that gets into the file is identified and not too long for the scanner. */
  ghost predicate Traceable(lib: Library, p: Payloads, n: Node, e: Event)
  {
    Logs(p, e) ==>
      && WellIdentified(RecordOf(p, e))
      && Short(lib, Numbered(lib, RecordOf(p, e), n.log.sequence + 1, e.now))
  }

  ghost predicate TraceableLife(lib: Library, p: Payloads, maxMutable: nat, events: seq<Event>)
    decreases |events|
  {
    events == [] ||
    var rest := events[..|events| - 1];
    && TraceableLife(lib, p, maxMutable, rest)
    && (Life(lib, p, maxMutable, rest).Some? ==>
      Traceable(lib, p, Life(lib, p, maxMutable, rest).value, events[|events| - 1]))
  }

  ghost predicate Holds(p: Payloads, records: seq<Record>, logged: seq<Op>)
  {
    forall clock :: HoldsAt(p, records, logged, clock)
  }

  /** At any time the records ask for exactly these writes, in their order. */
  ghost predicate HoldsAt(p: Payloads, records: seq<Record>, logged: seq<Op>, clock: nat -> int)
  {
    OpsOf(p, records, clock).Some? && SameButClock(logged, OpsOf(p, records, clock).value)
  }

  ghost predicate GoodLog(lib: Library, log: LogState)
  {
    && AllCompact(lib, log.records) && AllValid(lib, log.records) && AllShort(lib, log.records)
    && WellNumbered(log)
  }

  /** The log is in order and holds the logged writes, all that wait and all acknowledged ones among them. */
  ghost predicate Recorded(lib: Library, p: Payloads, n: Node, logged: seq<Op>)
  {
    && GoodLog(lib, n.log)
    && Holds(p, n.log.records, logged)
    && (forall w :: w in n.acknowledged ==> w in logged)
    && (forall w :: w in n.pending ==> w in logged)
  }

  lemma LogGrows(lib: Library, log: LogState, record: Record, outcome: AppendOutcome, now: int)
    requires GoodLog(lib, log) && lib.compact(record.payload)
    requires Lands(outcome) ==> WellIdentified(record) && Short(lib, Numbered(lib, record, log.sequence + 1, now))
    ensures GoodLog(lib, Step(lib, log, Appending(record, outcome, now)).value)
  {
    hide AllValid, AllCompact, WellNumbered, Short, Numbered, Encoded, WellIdentified;
    AppendKeepsNumbers(lib, log, record, outcome, now);
    AppendKeepsCompact(lib, log, record, outcome, now);
    if Lands(outcome) {
      AppendKeepsValid(lib, log, record, outcome, now);
    } else {
      LogUntouched(lib, log, record, outcome, now);
    }
  }

  lemma LogUntouched(lib: Library, log: LogState, record: Record, outcome: AppendOutcome, now: int)
    requires !Lands(outcome)
    ensures Step(lib, log, Appending(record, outcome, now)).value.records == log.records
  {
  }

  lemma OpsOfSnoc(p: Payloads, records: seq<Record>, r: Record, clock: nat -> int)
    ensures OpsOf(p, [], clock) == Some([])
    ensures OpsOf(p, records, clock).Some? && OpOf(p, r, clock).Some? ==>
      OpsOf(p, records + [r], clock) == Some(OpsOf(p, records, clock).value + [OpOf(p, r, clock).value])
  {
    hide OpOf;
    assert (records + [r])[..|records|] == records;
  }

  /** The logged record asks for the write it was made of. */
  lemma RecordAsks(lib: Library, p: Payloads, e: Event, sequence: nat, clock: nat -> int)
    requires PayloadLaws(lib, p) && ReachesLog(p, e)
    ensures
      var op := OpOf(p, Numbered(lib, RecordOf(p, e), sequence, e.now), clock);
      op.Some? && Undated(op.value) == Undated(OpFor(e))
  {
  }

  lemma RecordIsCompact(lib: Library, p: Payloads, e: Event)
    requires Laws(lib) && PayloadLaws(lib, p) && ReachesLog(p, e)
    ensures lib.compact(RecordOf(p, e).payload)
  {
  }

  lemma HoldsOneMore(p: Payloads, records: seq<Record>, logged: seq<Op>, r: Record, op: Op)
    requires Holds(p, records, logged)
    requires forall clock :: OpOf(p, r, clock).Some? && Undated(OpOf(p, r, clock).value) == Undated(op)
    ensures Holds(p, records + [r], logged + [op])
  {
    hide OpOf, Undated, OpsOf;
    forall clock
      ensures HoldsAt(p, records + [r], logged + [op], clock)
    {
      assert HoldsAt(p, records, logged, clock);
      OpsOfSnoc(p, records, r, clock);
    }
  }

  lemma WriteIsRecorded(lib: Library, p: Payloads, n: Node, e: Event, logged: seq<Op>)
    requires Laws(lib) && PayloadLaws(lib, p) && Recorded(lib, p, n, logged) && ReachesLog(p, e)
      && Traceable(lib, p, n, e)
    ensures Recorded(lib, p, Handle(lib, p, n, e).value, if Logs(p, e) then logged + [OpFor(e)] else logged)
  {
    assert IsWrite(e);
    hide GoodLog, Holds, WellIdentified, Short, Laws, PayloadLaws, RecordOf, ReachesLog, OpFor;
    var record := RecordOf(p, e);
    RecordIsCompact(lib, p, e);
    LogGrows(lib, n.log, record, e.outcome, e.now);
    if Lands(e.outcome) {
      var op, numbered := OpFor(e), Numbered(lib, record, n.log.sequence + 1, e.now);
      forall clock
        ensures OpOf(p, numbered, clock).Some? && Undated(OpOf(p, numbered, clock).value) == Undated(op)
      {
        RecordAsks(lib, p, e, n.log.sequence + 1, clock);
      }
      hide Numbered, OpOf, Undated;
      HoldsOneMore(p, n.log.records, logged, numbered, op);
    } else {
      LogUntouched(lib, n.log, record, e.outcome, e.now);
    }
  }

  /** A restart from a recorded node is a replay of its records. */
  lemma RestartIsReplay(lib: Library, p: Payloads, n: Node, e: Event, logged: seq<Op>)
    requires Laws(lib) && Recorded(lib, p, n, logged) && e.Restart?
    ensures
      var (engine, failure) := RecoverAll(p, Empty(e.maxMutable), n.log.records, e.clock);
      match Handle(lib, p, n, e)
      case None => failure.Some?
      case Some(n') =>
        && failure.None? && n'.engine == engine && n'.pending == [] && n'.acknowledged == n.acknowledged
        && Recorded(lib, p, n', logged)
  {
    hide Holds, AllCompact, AllValid, AllShort, WellNumbered, Encoded, Replayed, RecoverAll, Laws;
    ReopeningKeepsNumbersIffAllShort(lib, n.log);
    var log := Step(lib, n.log, Reopening).value;
    hide Step;
    var _ := ReplayDeliversSuffix(lib, log, 0);
  }

  /** Over any life, whatever fails and whatever overtakes what on the way, the log stays in order and holds every
      write that reached it. */
  lemma {:induction false} StaysRecorded(lib: Library, p: Payloads, maxMutable: nat, events: seq<Event>)
    requires Laws(lib) && PayloadLaws(lib, p) && TraceableLife(lib, p, maxMutable, events)
    requires Life(lib, p, maxMutable, events).Some?
    ensures Recorded(lib, p, Life(lib, p, maxMutable, events).value, Logged(p, events))
    decreases |events|
  {
    if events == [] {
      BornRecorded(lib, p, maxMutable);
    } else {
      var rest, e := events[..|events| - 1], events[|events| - 1];
      assert events == rest + [e];
      LifeSnoc(lib, p, maxMutable, rest, e);
      LoggedSnoc(p, rest, e);
      StaysRecorded(lib, p, maxMutable, rest);
      hide Recorded, Handle, Laws, PayloadLaws, Traceable, Logs, Logged, Life;
      EventIsRecorded(lib, p, Life(lib, p, maxMutable, rest).value, e, Logged(p, rest));
    }
  }

  lemma BornRecorded(lib: Library, p: Payloads, maxMutable: nat)
    ensures Recorded(lib, p, Born(maxMutable), [])
  {
    forall clock
      ensures HoldsAt(p, [], [], clock)
    {
      OpsOfSnoc(p, [], Record(0, DeleteOperation, "", "", "", 0, "", 0, ""), clock);
    }
  }

  lemma EventIsRecorded(lib: Library, p: Payloads, n: Node, e: Event, logged: seq<Op>)
    requires Laws(lib) && PayloadLaws(lib, p) && Recorded(lib, p, n, logged) && Traceable(lib, p, n, e)
    requires Handle(lib, p, n, e).Some?
    ensures Recorded(lib, p, Handle(lib, p, n, e).value, if Logs(p, e) then logged + [OpFor(e)] else logged)
  {
    hide Laws, PayloadLaws, Traceable;
    if ReachesLog(p, e) {
      WriteIsRecorded(lib, p, n, e, logged);
    } else if e.Restart? {
      RestartIsReplay(lib, p, n, e, logged);
    } else {
      hide GoodLog, Holds, Flushed, Apply, ReachesLog;
    }
  }

  // ----- when a node comes up again

  lemma HeldAt(p: Payloads, records: seq<Record>, logged: seq<Op>, clock: nat -> int) returns (ops: seq<Op>)
    requires Holds(p, records, logged)
    ensures OpsOf(p, records, clock) == Some(ops) && SameButClock(logged, ops)
  {
    hide OpsOf, SameButClock;
    assert HoldsAt(p, records, logged, clock);
    ops := OpsOf(p, records, clock).value;
  }

  /** If the log is replayable, every replay completes and shows what the logged writes make of a plain map. */
  lemma ReplayableRestarts(p: Payloads, records: seq<Record>, logged: seq<Op>, maxMutable: nat, clock: nat -> int)
    requires Holds(p, records, logged) && NoFlush(logged) && Replayable(logged)
    ensures RecoverAll(p, Empty(maxMutable), records, clock).1.None?
    ensures Timeless(View(RecoverAll(p, Empty(maxMutable), records, clock).0)) == Timeless(WriteAll(map[], logged).0)
  {
    hide *;
    var ops := HeldAt(p, records, logged, clock);
    OpsOfPrefix(p, records, clock, 0);
    ReplayableButClock(logged, ops);
    PrefixIsShown(p, records, clock, maxMutable);
    SameRunButClock(logged, ops);
  }

  /** If it is not, some replay stops. */
  lemma IrregularStops(p: Payloads, records: seq<Record>, logged: seq<Op>, clock: nat -> int)
    requires Holds(p, records, logged) && NoFlush(logged) && !Replayable(logged)
    ensures RecoverAll(p, Empty(|records| + 1), records, clock).1.Some?
  {
    hide *;
    var ops := HeldAt(p, records, logged, clock);
    var room := |records| + 1;
    OpsOfPrefix(p, records, clock, 0);
    ReplayableButClock(logged, ops);
    var k := ReplayStopsAtFirstIrregular(p, records, clock, room);
    StoppedShowsPrefix(p, records, clock, room, k);
  }

  ghost predicate AlwaysRestarts(lib: Library, p: Payloads, maxMutable: nat, events: seq<Event>)
  {
    forall m: nat, clock :: Life(lib, p, maxMutable, events + [Restart(m, clock)]).Some?
  }

  /** What an event adds to the log is a write, if anything. */
  lemma LoggedEarlier(p: Payloads, events: seq<Event>, e: Event)
    requires Replayable(Logged(p, events + [e]))
    ensures Replayable(Logged(p, events))
    ensures Logs(p, e) ==> MayFollow(Logged(p, events), OpFor(e))
  {
    hide Replayable, MayFollow, Logged;
    LoggedSnoc(p, events, e);
    if Logs(p, e) {
      ReplayableSnoc(Logged(p, events), OpFor(e));
    }
  }

  /** As long as the log is replayable the node has come up every time. */
  lemma {:induction false} StaysUp(lib: Library, p: Payloads, maxMutable: nat, events: seq<Event>)
    requires Laws(lib) && PayloadLaws(lib, p) && TraceableLife(lib, p, maxMutable, events)
    requires Replayable(Logged(p, events))
    ensures Life(lib, p, maxMutable, events).Some?
    decreases |events|
  {
    if events != [] {
      var rest, e := events[..|events| - 1], events[|events| - 1];
      assert events == rest + [e];
      LifeSnoc(lib, p, maxMutable, rest, e);
      LoggedEarlier(p, rest, e);
      StaysUp(lib, p, maxMutable, rest);
      StaysRecorded(lib, p, maxMutable, rest);
      LoggedIsNoFlush(p, rest);
      var n := Life(lib, p, maxMutable, rest).value;
      if e.Restart? {
        hide Laws, PayloadLaws, Life, Logged, Handle, RecoverAll, Replayable, NoFlush;
        RestartIsReplay(lib, p, n, e, Logged(p, rest));
        ReplayableRestarts(p, n.log.records, Logged(p, rest), e.maxMutable, e.clock);
      }
    }
  }

  /** When a node comes up again: over any life, with concurrent writes, with writes that failed, that were left
      unsynced, or that were logged and then refused, the node can be restarted with every buffer size if and only if
      the logged writes are replayable: versions increase per document and every deletion is of a document written
      before. */
  lemma RestartsIffReplayable(lib: Library, p: Payloads, maxMutable: nat, events: seq<Event>)
    requires Laws(lib) && PayloadLaws(lib, p) && TraceableLife(lib, p, maxMutable, events)
    ensures AlwaysRestarts(lib, p, maxMutable, events) <==> Replayable(Logged(p, events))
  {
    hide Laws, PayloadLaws, Life, Logged, Handle, RecoverAll, Replayable, TraceableLife, NoFlush;
    LoggedIsNoFlush(p, events);
    var clock: nat -> int := _ => 0;
    LifeSnoc(lib, p, maxMutable, events, Restart(0, clock));
    if Replayable(Logged(p, events)) {
      StaysUp(lib, p, maxMutable, events);
    }
    if Life(lib, p, maxMutable, events).Some? {
      var n := Life(lib, p, maxMutable, events).value;
      StaysRecorded(lib, p, maxMutable, events);
      if Replayable(Logged(p, events)) {
        forall m: nat, clock
          ensures Life(lib, p, maxMutable, events + [Restart(m, clock)]).Some?
        {
          LifeSnoc(lib, p, maxMutable, events, Restart(m, clock));
          RestartIsReplay(lib, p, n, Restart(m, clock), Logged(p, events));
          ReplayableRestarts(p, n.log.records, Logged(p, events), m, clock);
        }
      } else {
        var m := |n.log.records| + 1;
        LifeSnoc(lib, p, maxMutable, events, Restart(m, clock));
        RestartIsReplay(lib, p, n, Restart(m, clock), Logged(p, events));
        IrregularStops(p, n.log.records, Logged(p, events), clock);
      }
    } else {
      assert Life(lib, p, maxMutable, events + [Restart(0, clock)]).None?;
    }
  }

  /** A replay into an engine of a given size. */
  lemma ReplaysAtSizeIff(p: Payloads, records: seq<Record>, logged: seq<Op>, maxMutable: nat, clock: nat -> int)
    requires Holds(p, records, logged) && NoFlush(logged)
    ensures RecoverAll(p, Empty(maxMutable), records, clock).1.None? <==>
      DeletesApply(logged) && Fits(logged, maxMutable)
    ensures RecoverAll(p, Empty(maxMutable), records, clock).1.None? ==>
      Timeless(View(RecoverAll(p, Empty(maxMutable), records, clock).0)) == Timeless(Overwritten(logged))
  {
    hide *;
    var ops := HeldAt(p, records, logged, clock);
    RecoveryIsRun(p, Empty(maxMutable), records, clock);
    OverwrittenButClock(logged, ops);
    FitsButClock(logged, ops, maxMutable);
    AcceptedAtSizeIff(maxMutable, ops);
    if RecoverAll(p, Empty(maxMutable), records, clock).1.None? {
      NoFlushWrites(ops);
      AcceptedRunShows(maxMutable, ops);
    }
  }

  /** When a node comes up again with one given buffer size, and what it shows then: if and only if every logged
      deletion finds its document in an older version and every logged upsert of a document in the buffer is newer;
      and it shows what the logged writes leave behind, be that newer or older than what was shown before. */
  lemma RestartsAtSizeIff(lib: Library, p: Payloads, maxMutable: nat, events: seq<Event>, m: nat, clock: nat -> int)
    requires Laws(lib) && PayloadLaws(lib, p) && TraceableLife(lib, p, maxMutable, events)
    requires Life(lib, p, maxMutable, events).Some?
    ensures
      var again := Life(lib, p, maxMutable, events + [Restart(m, clock)]);
      && (again.Some? <==> DeletesApply(Logged(p, events)) && Fits(Logged(p, events), m))
      && (again.Some? ==> Timeless(View(again.value.engine)) == Timeless(Overwritten(Logged(p, events))))
  {
    hide *;
    var n := Life(lib, p, maxMutable, events).value;
    LoggedIsNoFlush(p, events);
    LifeSnoc(lib, p, maxMutable, events, Restart(m, clock));
    StaysRecorded(lib, p, maxMutable, events);
    RecordedHolds(lib, p, n, Logged(p, events));
    RestartIsReplay(lib, p, n, Restart(m, clock), Logged(p, events));
    ReplaysAtSizeIff(p, n.log.records, Logged(p, events), m, clock);
  }

  lemma RecordedHolds(lib: Library, p: Payloads, n: Node, logged: seq<Op>)
    requires Recorded(lib, p, n, logged)
    ensures Holds(p, n.log.records, logged)
  {
  }

  /** A write that was left unsynced and is tried again with the same version blocks restarts for good. */
  lemma RetryBlocksRestart(lib: Library, p: Payloads, maxMutable: nat, events: seq<Event>, doc: Document, t1: int,
                           t2: int)
    requires Laws(lib) && PayloadLaws(lib, p) && p.encode(doc).Some?
    requires TraceableLife(lib, p, maxMutable, events + [Put(doc, NotSynced, t1)] + [Put(doc, Synced, t2)])
    ensures !AlwaysRestarts(lib, p, maxMutable, events + [Put(doc, NotSynced, t1)] + [Put(doc, Synced, t2)])
  {
    var first := events + [Put(doc, NotSynced, t1)];
    var second := first + [Put(doc, Synced, t2)];
    RestartsIffReplayable(lib, p, maxMutable, second);
    LoggedSnoc(p, events, Put(doc, NotSynced, t1));
    LoggedSnoc(p, first, Put(doc, Synced, t2));
    hide Logged;
    var logged := Logged(p, events);
    assert Logged(p, second) == logged + [Op.Upsert(doc)] + [Op.Upsert(doc)];
    hide *;
    TwiceIsIrregular(logged, doc);
  }

  lemma TwiceIsIrregular(logged: seq<Op>, doc: Document)
    ensures !Replayable(logged + [Op.Upsert(doc)] + [Op.Upsert(doc)])
  {
    var once := logged + [Op.Upsert(doc)];
    assert once[|logged|] == Op.Upsert(doc);
    hide Replayable;
    ReplayableSnoc(once, Op.Upsert(doc));
  }
}
