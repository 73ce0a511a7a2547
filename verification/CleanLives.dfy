/** Lives in which nothing goes wrong half way: every logged write is synced, and the writes about each document are
    taken in the order of the log, whatever happens between them (internal/ingest/service.go,
    internal/storage/recovery.go). */
module CleanLives {
  import opened Documents
  import opened Lifecycle
  import opened Recovery
  import opened Reordering
  import opened ReplayInto
  import opened Store
  import opened Survival
  import opened WriteAheadLog

  /** The engine shows what the writes make of a plain map, up to the time stamps of tombstones. */
  ghost predicate Faithful(engine: State, writes: seq<Op>)
  {
    Timeless(View(engine)) == Timeless(WriteAll(map[], writes).0)
  }

  lemma SameFreshness(m: map<string, Document>, m': map<string, Document>, doc: Document)
    requires Timeless(m) == Timeless(m')
    ensures Fresh(m, doc) <==> Fresh(m', doc)
  {
    assert m.Keys == Timeless(m).Keys && m'.Keys == Timeless(m').Keys;
    if doc.id in m {
      assert Timeless(m)[doc.id].version == m[doc.id].version && Timeless(m')[doc.id].version == m'[doc.id].version;
    }
  }

  lemma EngineFollows(engine: State, writes: seq<Op>, op: Op)
    requires Faithful(engine, writes) && !op.Flush?
    requires Write(WriteAll(map[], writes).0, op).1 == Done
    ensures Faithful(Apply(engine, op).0, writes + [op]) && Apply(engine, op).1 == Done
  {
    var m := WriteAll(map[], writes).0;
    AcceptedIsFresh(m, op);
    hide View, Timeless, WriteAll, Write, Apply, Fresh;
    if op.Upsert? {
      SameFreshness(View(engine), m, op.doc);
    }
    StepLikeTheMap(engine, op);
    SameWriteButClock(View(engine), m, op, op);
    WriteAllSnoc(map[], writes, op);
  }

  lemma AcceptedIsFresh(m: map<string, Document>, op: Op)
    ensures op.Upsert? && Write(m, op).1 == Done ==> Fresh(m, op.doc)
  {
  }

  /** The engine accepts every write that may follow a replayable history it shows, whatever its clock. */
  lemma MayFollowIsAccepted(engine: State, writes: seq<Op>, op: Op, now: int)
    requires NoFlush(writes) && Replayable(writes) && Faithful(engine, writes) && !op.Flush? && MayFollow(writes, op)
    ensures Apply(engine, Stamped(op, now)).1 == Done
    ensures Faithful(Apply(engine, Stamped(op, now)).0, writes + [op]) && Replayable(writes + [op])
  {
    hide Replayable, MayFollow, MapOf, Faithful, WriteAll, AllDone, Apply, Write;
    MapAcceptsIffReplayable(writes);
    var m, stamped := WriteAll(map[], writes).0, Stamped(op, now);
    AcceptedIffMayFollow(writes, m, op);
    StampedSame(op, now);
    SameWriteButClock(m, m, op, stamped);
    EngineFollows(engine, writes, stamped);
    FaithfulButClock(Apply(engine, stamped).0, writes, op, stamped);
    ReplayableSnoc(writes, op);
  }

  lemma FaithfulButClock(engine: State, writes: seq<Op>, op: Op, stamped: Op)
    requires Undated(op) == Undated(stamped) && Faithful(engine, writes + [stamped])
    ensures Faithful(engine, writes + [op])
  {
    hide View, Timeless, WriteAll, Write, Undated;
    var m := WriteAll(map[], writes).0;
    WriteAllSnoc(map[], writes, op);
    WriteAllSnoc(map[], writes, stamped);
    SameWriteButClock(m, m, op, stamped);
  }

  // ----- the writes the engine shows

  /** What the engine of this process has been given: the log it was started from, and the writes it has accepted. */
  function Shown(lib: Library, p: Payloads, maxMutable: nat, events: seq<Event>): seq<Op>
    decreases |events|
  {
    if events == [] then []
    else
      var rest, e := events[..|events| - 1], events[|events| - 1];
      var before, n := Shown(lib, p, maxMutable, rest), Life(lib, p, maxMutable, rest);
      if e.Restart? then Logged(p, rest)
      else if n.Some? && Accepts(n.value, e) then before + [n.value.pending[e.k]]
      else before
  }

  /** The event is a write that is taken and accepted. */
  predicate Accepts(n: Node, e: Event)
  {
    e.Take? && e.k < |n.pending| && Apply(n.engine, Stamped(n.pending[e.k], e.at)).1 == Done
  }

  lemma ShownSnoc(lib: Library, p: Payloads, maxMutable: nat, events: seq<Event>, e: Event)
    ensures Shown(lib, p, maxMutable, []) == []
    ensures Shown(lib, p, maxMutable, events + [e]) ==
      var before, n := Shown(lib, p, maxMutable, events), Life(lib, p, maxMutable, events);
      if e.Restart? then Logged(p, events)
      else if n.Some? && Accepts(n.value, e) then before + [n.value.pending[e.k]]
      else before
  {
    assert (events + [e])[..|events|] == events;
  }

  /** Document by document, the log holds what is shown and then what waits. */
  ghost predicate Split(logged: seq<Op>, shown: seq<Op>, pending: seq<Op>)
  {
    forall id :: SplitAt(logged, shown, pending, id)
  }

  ghost predicate SplitAt(logged: seq<Op>, shown: seq<Op>, pending: seq<Op>, id: string)
  {
    About(logged, id) == About(shown, id) + About(pending, id)
  }

  lemma {:induction false} AboutConcat(a: seq<Op>, b: seq<Op>, id: string)
    requires NoFlush(b)
    ensures About(a + b, id) == About(a, id) + About(b, id)
    decreases |b|
  {
    if b == [] {
      assert a + b == a;
    } else {
      hide About, OpId;
      var rest, last := b[..|b| - 1], b[|b| - 1];
      LastSplit(b);
      AboutConcat(a, rest, id);
      AboutOneMore(a, rest, last, id);
    }
  }

  lemma AboutOneMore(a: seq<Op>, rest: seq<Op>, last: Op, id: string)
    requires About(a + rest, id) == About(a, id) + About(rest, id) && !last.Flush?
    ensures About(a + (rest + [last]), id) == About(a, id) + About(rest + [last], id)
  {
    hide About, OpId;
    assert a + (rest + [last]) == (a + rest) + [last];
    AboutSnoc(a + rest, last, id);
    AboutSnoc(rest, last, id);
  }

  lemma {:induction false} AboutNone(ops: seq<Op>, id: string)
    requires forall i :: 0 <= i < |ops| && !ops[i].Flush? ==> OpId(ops[i]) != id
    ensures About(ops, id) == []
    decreases |ops|
  {
    if ops != [] {
      AboutNone(ops[..|ops| - 1], id);
    }
  }

  lemma AboutMiddle(before: seq<Op>, op: Op, after: seq<Op>, id: string)
    requires NoFlush(after) && !op.Flush?
    requires forall i :: 0 <= i < |before| && !before[i].Flush? ==> OpId(before[i]) != OpId(op)
    ensures About(before + [op] + after, id) ==
      if id == OpId(op) then [op] + About(before + after, id) else About(before + after, id)
  {
    hide About, OpId;
    AboutConcat(before + [op], after, id);
    AboutConcat(before, after, id);
    AboutSnoc(before, op, id);
    if id == OpId(op) {
      AboutNone(before, id);
      assert [] + [op] + About(after, id) == [op] + ([] + About(after, id));
    }
  }

  lemma MoveOver<T>(s: seq<T>, x: T, t: seq<T>)
    ensures s + ([x] + t) == s + [x] + t
  {
  }

  /** Taking the first write about its document moves it from those that wait to those shown. */
  lemma TakingSplits(logged: seq<Op>, shown: seq<Op>, pending: seq<Op>, k: nat, id: string)
    requires NoFlush(pending) && k < |pending| && SplitAt(logged, shown, pending, id)
    requires forall i :: 0 <= i < k ==> OpId(pending[i]) != OpId(pending[k])
    ensures SplitAt(logged, shown + [pending[k]], Without(pending, k), id)
    ensures id == OpId(pending[k]) ==>
      About(logged, id) == About(shown, id) + [pending[k]] + About(Without(pending, k), id)
  {
    var op, before, after, rest := pending[k], pending[..k], pending[k + 1..], Without(pending, k);
    assert pending == before + [op] + after && !op.Flush? && NoFlush(after);
    hide About, OpId, NoFlush;
    AboutMiddle(before, op, after, id);
    hide Without;
    AboutSnoc(shown, op, id);
    MoveOver(About(shown, id), op, About(rest, id));
  }

  lemma LoggingSplits(logged: seq<Op>, shown: seq<Op>, pending: seq<Op>, op: Op)
    requires Split(logged, shown, pending) && !op.Flush?
    ensures Split(logged + [op], shown, pending + [op])
  {
    hide About;
    forall id
      ensures SplitAt(logged + [op], shown, pending + [op], id)
    {
      assert SplitAt(logged, shown, pending, id);
      AboutSnoc(logged, op, id);
      AboutSnoc(pending, op, id);
    }
  }

  lemma AllShown(logged: seq<Op>)
    ensures Split(logged, logged, [])
  {
    forall id
      ensures SplitAt(logged, logged, [], id)
    {
      assert About([], id) == [];
    }
  }

  // ----- a write in turn may follow what is shown

  lemma AboutIsNoFlush(ops: seq<Op>, id: string)
    ensures NoFlush(About(ops, id))
  {
    hide About, OpId;
    forall i | 0 <= i < |About(ops, id)|
      ensures !About(ops, id)[i].Flush?
    {
      assert About(ops, id)[i] in About(ops, id);
    }
  }

  /** A replayable log is replayable document by document. */
  lemma ReplayableAbout(logged: seq<Op>, id: string)
    requires NoFlush(logged) && Replayable(logged)
    ensures Replayable(About(logged, id))
  {
    AboutIsNoFlush(logged, id);
    hide Replayable, WriteAll, AllDone, MapOf, About, NoFlush;
    MapAcceptsIffReplayable(logged);
    AcceptedPerDocument(logged);
    assert AcceptedAbout(logged, id);
    MapAcceptsIffReplayable(About(logged, id));
  }

  /** Whether a write may follow others depends on those about its document. */
  lemma MayFollowIsLocal(ops: seq<Op>, op: Op)
    requires NoFlush(ops) && !op.Flush? && MayFollow(About(ops, OpId(op)), op)
    ensures MayFollow(ops, op)
  {
    var mine := About(ops, OpId(op));
    hide About, OpVersion;
    forall i | 0 <= i < |ops| && !ops[i].Flush? && OpId(ops[i]) == OpId(op)
      ensures OpVersion(ops[i]) < OpVersion(op)
    {
      assert ops[i] in mine;
      var j :| 0 <= j < |mine| && mine[j] == ops[i];
    }
    if op.Delete? {
      var j :| 0 <= j < |mine| && !mine[j].Flush? && OpId(mine[j]) == op.id;
      assert mine[j] in ops;
      var i :| 0 <= i < |ops| && ops[i] == mine[j];
    }
  }

  lemma InTurnMayFollow(logged: seq<Op>, shown: seq<Op>, pending: seq<Op>, k: nat)
    requires NoFlush(logged) && NoFlush(shown) && NoFlush(pending) && Replayable(logged)
    requires Split(logged, shown, pending) && k < |pending|
    requires forall i :: 0 <= i < k ==> OpId(pending[i]) != OpId(pending[k])
    ensures MayFollow(shown, pending[k])
  {
    var op := pending[k];
    var id := OpId(op);
    assert SplitAt(logged, shown, pending, id);
    TakingSplits(logged, shown, pending, k, id);
    ReplayableAbout(logged, id);
    var upTo, all := About(shown, id) + [op], About(logged, id);
    AboutIsNoFlush(logged, id);
    hide About, Replayable, MayFollow, OpId, Split, SplitAt;
    assert all[..|upTo|] == upTo;
    ReplayablePrefix(all, |upTo|);
    ReplayableSnoc(About(shown, id), op);
    MayFollowIsLocal(shown, op);
  }

  // ----- clean lives

  /** Every write that gets into the log is synced. */
  ghost predicate AllSynced(p: Payloads, events: seq<Event>)
  {
    forall e :: e in events && Logs(p, e) ==> e.outcome.Synced?
  }

  ghost predicate Clear(n: Node, logged: seq<Op>, shown: seq<Op>)
  {
    && NoFlush(n.pending) && NoFlush(shown) && Replayable(shown) && Faithful(n.engine, shown)
    && Split(logged, shown, n.pending)
  }

  lemma NoFlushSnoc(ops: seq<Op>, op: Op)
    requires NoFlush(ops) && !op.Flush?
    ensures NoFlush(ops + [op])
  {
  }

  lemma NoFlushWithout(ops: seq<Op>, k: nat)
    requires NoFlush(ops) && k < |ops|
    ensures NoFlush(Without(ops, k))
  {
  }

  lemma TakeIsClear(n: Node, logged: seq<Op>, shown: seq<Op>, k: nat, now: int)
    requires NoFlush(logged) && Replayable(logged) && Clear(n, logged, shown)
    requires k < |n.pending| && InTurn(n, Take(k, now))
    ensures Accepts(n, Take(k, now)) && Clear(Taken(n, k, now), logged, shown + [n.pending[k]])
  {
    var op := n.pending[k];
    InTurnMayFollow(logged, shown, n.pending, k);
    NoFlushSnoc(shown, op);
    NoFlushWithout(n.pending, k);
    forall id
      ensures SplitAt(logged, shown + [op], Without(n.pending, k), id)
    {
      assert SplitAt(logged, shown, n.pending, id);
      TakingSplits(logged, shown, n.pending, k, id);
    }
    assert !op.Flush?;
    hide Apply, Replayable, Faithful, MayFollow, NoFlush, SplitAt, Stamped;
    MayFollowIsAccepted(n.engine, shown, op, now);
  }

  lemma EventIsClear(lib: Library, p: Payloads, n: Node, e: Event, logged: seq<Op>, shown: seq<Op>)
    requires Laws(lib) && Sound(lib, p, n, logged) && Clear(n, logged, shown) && InTurn(n, e)
    requires Logs(p, e) ==> e.outcome.Synced?
    requires Handle(lib, p, n, e).Some?
    ensures e.Take? && e.k < |n.pending| ==> Accepts(n, e)
    ensures
      var logged' := if Logs(p, e) then logged + [OpFor(e)] else logged;
      var shown' := if e.Restart? then logged else if Accepts(n, e) then shown + [n.pending[e.k]] else shown;
      Clear(Handle(lib, p, n, e).value, logged', shown')
  {
    hide Laws, Replayable, NoFlush, Apply, OpFor, GoodLog, Holds, Standing, Split, Faithful, InTurn;
    if Logs(p, e) {
      LoggingSplits(logged, shown, n.pending, OpFor(e));
      NoFlushSnoc(n.pending, OpFor(e));
    } else if e.Restart? {
      RestartIsReplay(lib, p, n, e, logged);
      hide Handle, RecoverAll;
      ReplayableRestarts(p, n.log.records, logged, e.maxMutable, e.clock);
      FaithfulIf(Handle(lib, p, n, e).value.engine, logged);
      AllShown(logged);
      NoFlushOfNothing();
    } else if e.FlushNow? {
      FlushKeepsView(n.engine);
      FaithfulFlushed(n.engine, shown);
    } else if e.Take? && e.k < |n.pending| {
      hide Taken, Accepts, Clear;
      TakeIsClear(n, logged, shown, e.k, e.at);
    }
  }

  lemma NoFlushOfNothing()
    ensures NoFlush([])
  {
  }

  lemma FaithfulIf(engine: State, writes: seq<Op>)
    requires Timeless(View(engine)) == Timeless(WriteAll(map[], writes).0)
    ensures Faithful(engine, writes)
  {
  }

  lemma FaithfulFlushed(engine: State, writes: seq<Op>)
    requires Faithful(engine, writes)
    ensures Faithful(Flushed(engine), writes)
  {
    FlushKeepsView(engine);
    hide View, Timeless, WriteAll;
  }

  /** Every write that is taken is accepted. */
  ghost predicate AlwaysAccepted(lib: Library, p: Payloads, maxMutable: nat, events: seq<Event>)
    decreases |events|
  {
    events == [] ||
    var rest, e := events[..|events| - 1], events[|events| - 1];
    && AlwaysAccepted(lib, p, maxMutable, rest)
    && var n := Life(lib, p, maxMutable, rest);
       n.Some? && (e.Take? && e.k < |n.value.pending| ==> Accepts(n.value, e))
  }

  /** In a clean life whose log is replayable the engine accepts every write it takes, the node always comes up again,
      and it always shows exactly what its writes make of a plain map, up to the time stamps of tombstones: those it
      has accepted on top of the log it was started from. Document by document these are the log but for what still
      waits. */
  lemma {:induction false} NothingAcknowledgedIsLost(lib: Library, p: Payloads, maxMutable: nat, events: seq<Event>)
    requires Laws(lib) && PayloadLaws(lib, p) && TraceableLife(lib, p, maxMutable, events)
    requires Replayable(Logged(p, events)) && AllSynced(p, events) && OrderlyLife(lib, p, maxMutable, events)
    ensures AlwaysAccepted(lib, p, maxMutable, events)
    ensures Life(lib, p, maxMutable, events).Some?
    ensures Clear(Life(lib, p, maxMutable, events).value, Logged(p, events), Shown(lib, p, maxMutable, events))
    decreases |events|
  {
    StaysUp(lib, p, maxMutable, events);
    if events == [] {
      EmptyShowsNothing(maxMutable);
      AllShown([]);
      ReplayableSnoc([], Op.Delete("", 0, 0));
    } else {
      var rest, e := events[..|events| - 1], events[|events| - 1];
      assert events == rest + [e];
      assert e in events && forall x :: x in rest ==> x in events;
      LifeSnoc(lib, p, maxMutable, rest, e);
      LoggedSnoc(p, rest, e);
      LoggedEarlier(p, rest, e);
      ShownSnoc(lib, p, maxMutable, rest, e);
      NothingAcknowledgedIsLost(lib, p, maxMutable, rest);
      StaysSound(lib, p, maxMutable, rest);
      hide Laws, PayloadLaws, Life, Logged, Shown, Handle, Replayable, TraceableLife, Sound, Clear, InTurn, Logs,
        MayFollow,
        Accepts;
      EventIsClear(lib, p, Life(lib, p, maxMutable, rest).value, e, Logged(p, rest), Shown(lib, p, maxMutable, rest));
    }
  }

  /** When no call is under way, a clean node shows exactly what its log makes of a plain map. */
  lemma IdleNodeShowsItsLog(lib: Library, p: Payloads, maxMutable: nat, events: seq<Event>)
    requires Laws(lib) && PayloadLaws(lib, p) && TraceableLife(lib, p, maxMutable, events)
    requires Replayable(Logged(p, events)) && AllSynced(p, events) && OrderlyLife(lib, p, maxMutable, events)
    ensures Life(lib, p, maxMutable, events).Some?
    ensures Life(lib, p, maxMutable, events).value.pending == [] ==>
      Faithful(Life(lib, p, maxMutable, events).value.engine, Logged(p, events))
  {
    NothingAcknowledgedIsLost(lib, p, maxMutable, events);
    LoggedIsNoFlush(p, events);
    hide Laws, PayloadLaws, Life, Logged, Shown, TraceableLife, AllSynced, OrderlyLife, AlwaysAccepted, Replayable;
    var n := Life(lib, p, maxMutable, events).value;
    if n.pending == [] {
      NothingLeftToShow(n.engine, Logged(p, events), Shown(lib, p, maxMutable, events));
    }
  }

  lemma NothingLeftToShow(engine: State, logged: seq<Op>, shown: seq<Op>)
    requires NoFlush(logged) && NoFlush(shown) && Split(logged, shown, []) && Faithful(engine, shown)
    ensures Faithful(engine, logged)
  {
    forall id
      ensures SameButClock(About(shown, id), About(logged, id))
    {
      assert SplitAt(logged, shown, [], id) && About([], id) == [];
      assert About(shown, id) + [] == About(shown, id);
    }
    hide About, SameButClock, WriteAll, View, Timeless, NoFlush, Split;
    SamePerDocumentSameMap(shown, logged);
  }
}
