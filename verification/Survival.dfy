/** What a node shows of the writes it has acknowledged, over lives in which writes overtake each other, fail, are left
    unsynced or are refused (internal/ingest/service.go, internal/storage/recovery.go). */
module Survival {
  import opened Documents
  import opened Durability
  import opened LastWrites
  import opened Lifecycle
  import opened Options
  import opened Recovery
  import opened Reordering
  import opened ReplayInto
  import opened Store
  import opened WriteAheadLog

  /** The same document up to the time stamp of a tombstone. */
  predicate SameButTime(d: Document, d': Document)
  {
    if d.deleted then d'.deleted && d.(updatedAt := 0) == d'.(updatedAt := 0) else d == d'
  }

  predicate Shows(d: Document, op: Op)
    requires !op.Flush?
  {
    if op.Upsert? then SameButTime(op.doc, d) else d.deleted && d.version == op.version
  }

  /** The write is shown, or a newer one of its document is. */
  predicate Reflected(view: map<string, Document>, op: Op)
    requires !op.Flush?
  {
    OpId(op) in view && (OpVersion(op) < view[OpId(op)].version || Shows(view[OpId(op)], op))
  }

  ghost predicate AllReflected(view: map<string, Document>, ops: seq<Op>)
  {
    forall op :: op in ops && !op.Flush? ==> Reflected(view, op)
  }

  /** Nothing shown is newer than what was logged about it. */
  ghost predicate NotAbove(view: map<string, Document>, logged: seq<Op>)
  {
    forall id :: id in view ==>
      exists op :: op in logged && !op.Flush? && OpId(op) == id && view[id].version <= OpVersion(op)
  }

  lemma ReflectedTimeless(view: map<string, Document>, view': map<string, Document>, op: Op)
    requires Timeless(view) == Timeless(view') && !op.Flush?
    ensures Reflected(view, op) ==> Reflected(view', op)
  {
    var id := OpId(op);
    assert id in view <==> id in Timeless(view);
    assert id in view' <==> id in Timeless(view');
    if id in view {
      assert Timeless(view)[id] == Timeless(view')[id];
    }
  }

  lemma AcceptedIsReflected(m: map<string, Document>, op: Op, earlier: Op)
    requires !op.Flush? && !earlier.Flush? && Write(m, op).1 == Done
    ensures Reflected(Write(m, op).0, op)
    ensures Reflected(m, earlier) ==> Reflected(Write(m, op).0, earlier)
  {
  }

  /** A plain map that has accepted a whole log reflects every write of it. */
  lemma {:induction false} MapReflects(writes: seq<Op>)
    requires NoFlush(writes) && AllDone(WriteAll(map[], writes).1)
    ensures AllReflected(WriteAll(map[], writes).0, writes)
    decreases |writes|
  {
    if writes != [] {
      var rest, last := writes[..|writes| - 1], writes[|writes| - 1];
      LastSplit(writes);
      WriteAllSnoc(map[], rest, last);
      var before := WriteAll(map[], rest).0;
      AllDoneSnoc(WriteAll(map[], rest).1, Write(before, last).1);
      MapReflects(rest);
      hide WriteAll, Write, Reflected, AllDone;
      forall op | op in writes && !op.Flush?
        ensures Reflected(Write(before, last).0, op)
      {
        AcceptedIsReflected(before, last, op);
      }
    }
  }

  lemma MapIsNotAbove(writes: seq<Op>, m: map<string, Document>)
    requires MapOf(writes, m)
    ensures NotAbove(m, writes)
  {
    hide OpId, OpVersion;
    forall id | id in m
      ensures exists op :: op in writes && !op.Flush? && OpId(op) == id && m[id].version <= OpVersion(op)
    {
      assert Reached(writes, id, m[id].version);
      var i :| 0 <= i < |writes| && !writes[i].Flush? && OpId(writes[i]) == id && OpVersion(writes[i]) == m[id].version;
      assert writes[i] in writes;
    }
  }

  lemma NotAboveTimeless(view: map<string, Document>, view': map<string, Document>, logged: seq<Op>)
    requires Timeless(view) == Timeless(view') && NotAbove(view, logged)
    ensures NotAbove(view', logged)
  {
    hide OpId, OpVersion;
    forall id | id in view'
      ensures id in view && view[id].version == view'[id].version
    {
      assert id in Timeless(view') && id in Timeless(view);
      assert Timeless(view)[id].version == Timeless(view')[id].version;
    }
  }

  lemma ReplayReflects(engine: State, acknowledged: seq<Op>, logged: seq<Op>)
    requires NoFlush(logged) && Replayable(logged) && forall w :: w in acknowledged ==> w in logged
    requires Timeless(View(engine)) == Timeless(WriteAll(map[], logged).0)
    ensures NotAbove(View(engine), logged) && AllReflected(View(engine), acknowledged)
  {
    hide Timeless, View, WriteAll, MapOf, AllDone, NoFlush, Replayable, Reflected, NotAbove;
    MapAcceptsIffReplayable(logged);
    var m := WriteAll(map[], logged).0;
    MapReflects(logged);
    MapIsNotAbove(logged, m);
    NotAboveTimeless(m, View(engine), logged);
    forall w | w in acknowledged && !w.Flush?
      ensures Reflected(View(engine), w)
    {
      ReflectedTimeless(m, View(engine), w);
    }
  }

  // ----- what is true of every node

  /** A document shown was acknowledged in the version shown, or is older than every write about it that still waits. */
  ghost predicate Accounted(view: map<string, Document>, acknowledged: seq<Op>, pending: seq<Op>)
  {
    forall id :: id in view ==> AckedAt(acknowledged, id, view[id].version) || AllNewer(pending, id, view[id].version)
  }

  ghost predicate AckedAt(acknowledged: seq<Op>, id: string, version: nat)
  {
    exists w :: w in acknowledged && !w.Flush? && OpId(w) == id && OpVersion(w) == version
  }

  ghost predicate AllNewer(pending: seq<Op>, id: string, version: nat)
  {
    forall w :: w in pending && !w.Flush? && OpId(w) == id ==> version < OpVersion(w)
  }

  ghost predicate Standing(n: Node, logged: seq<Op>)
  {
    NotAbove(View(n.engine), logged) && Accounted(View(n.engine), n.acknowledged, n.pending)
  }

  /** A write that may follow the log is newer than anything shown. */
  lemma MayFollowIsFresh(view: map<string, Document>, logged: seq<Op>, op: Op)
    requires NotAbove(view, logged) && !op.Flush? && MayFollow(logged, op)
    ensures OpId(op) in view ==> view[OpId(op)].version < OpVersion(op)
  {
    if OpId(op) in view {
      var w :| w in logged && !w.Flush? && OpId(w) == OpId(op) && view[OpId(op)].version <= OpVersion(w);
      var i :| 0 <= i < |logged| && logged[i] == w;
    }
  }

  lemma LoggingStands(view: map<string, Document>, acknowledged: seq<Op>, pending: seq<Op>, logged: seq<Op>, op: Op)
    requires NotAbove(view, logged) && Accounted(view, acknowledged, pending) && !op.Flush? && MayFollow(logged, op)
    ensures NotAbove(view, logged + [op])
    ensures Accounted(view, acknowledged, pending + [op])
  {
    MayFollowIsFresh(view, logged, op);
    hide MayFollow, OpId, OpVersion, AckedAt;
    assert forall w :: w in logged ==> w in logged + [op];
  }

  lemma OverwrittenAt(view: map<string, Document>, op: Op, id: string)
    requires !op.Flush? && Applies(view, op)
    ensures id in Overwrite(view, op) <==> id in view || id == OpId(op)
    ensures id in Overwrite(view, op) ==>
      Overwrite(view, op)[id].version == if id == OpId(op) then OpVersion(op) else view[id].version
    ensures id in view && id != OpId(op) ==> Overwrite(view, op)[id] == view[id]
  {
  }

  lemma TakingStands(view: map<string, Document>, acknowledged: seq<Op>, pending: seq<Op>, logged: seq<Op>, k: nat,
                     now: int)
    requires NotAbove(view, logged) && Accounted(view, acknowledged, pending)
    requires k < |pending| && !pending[k].Flush? && pending[k] in logged && Applies(view, pending[k])
    ensures NotAbove(Overwrite(view, Stamped(pending[k], now)), logged)
    ensures Accounted(Overwrite(view, Stamped(pending[k], now)), acknowledged + [pending[k]], Without(pending, k))
  {
    var op := pending[k];
    var after := Overwrite(view, Stamped(op, now));
    forall id | id in after
      ensures
        || AckedAt(acknowledged + [op], id, after[id].version)
        || AllNewer(Without(pending, k), id, after[id].version)
      ensures exists w :: w in logged && !w.Flush? && OpId(w) == id && after[id].version <= OpVersion(w)
    {
      OverwrittenAt(view, Stamped(op, now), id);
      assert op in acknowledged + [op];
      hide OpId, OpVersion, Overwrite;
      assert id != OpId(op) && AckedAt(acknowledged, id, view[id].version) ==>
        AckedAt(acknowledged + [op], id, view[id].version);
    }
  }

  lemma WaitingStands(view: map<string, Document>, acknowledged: seq<Op>, pending: seq<Op>, k: nat)
    requires k < |pending| && Accounted(view, acknowledged, pending)
    ensures Accounted(view, acknowledged, Without(pending, k))
  {
    hide OpId, OpVersion, AckedAt;
  }

  /** What taking a write does to the view. */
  lemma TakenView(n: Node, k: nat, now: int)
    requires k < |n.pending| && !n.pending[k].Flush?
    ensures
      var n', op := Taken(n, k, now), Stamped(n.pending[k], now);
      && n'.pending == Without(n.pending, k)
      && if Apply(n.engine, op).1 == Done
         then Applies(View(n.engine), op) && View(n'.engine) == Overwrite(View(n.engine), op)
           && n'.acknowledged == n.acknowledged + [n.pending[k]]
         else n'.engine == n.engine && n'.acknowledged == n.acknowledged
  {
    var op := Stamped(n.pending[k], now);
    RefusedChangesNothing(n.engine, op);
    hide Apply, View;
    if Apply(n.engine, op).1 == Done {
      AcceptedShows(n.engine, op);
    }
  }

  lemma StampedApplies(view: map<string, Document>, op: Op, now: int)
    ensures Applies(view, Stamped(op, now)) <==> Applies(view, op)
  {
  }

  lemma TakeStands(n: Node, logged: seq<Op>, k: nat, now: int)
    requires Standing(n, logged) && k < |n.pending| && !n.pending[k].Flush? && n.pending[k] in logged
    ensures Standing(Taken(n, k, now), logged)
  {
    TakenView(n, k, now);
    StampedApplies(View(n.engine), n.pending[k], now);
    WaitingStands(View(n.engine), n.acknowledged, n.pending, k);
    hide View, Apply, NotAbove, Accounted, Applies, Overwrite, Stamped, Taken;
    if Apply(n.engine, Stamped(n.pending[k], now)).1 == Done {
      TakingStands(View(n.engine), n.acknowledged, n.pending, logged, k, now);
    }
  }

  /** What holds of every reachable node whose log is replayable so far. */
  ghost predicate Sound(lib: Library, p: Payloads, n: Node, logged: seq<Op>)
  {
    Recorded(lib, p, n, logged) && NoFlush(logged) && Replayable(logged) && Standing(n, logged)
  }

  lemma PendingIsNoFlush(lib: Library, p: Payloads, n: Node, logged: seq<Op>, k: nat)
    requires Recorded(lib, p, n, logged) && NoFlush(logged) && k < |n.pending|
    ensures n.pending[k] in logged && !n.pending[k].Flush?
  {
    hide GoodLog, Holds;
    assert n.pending[k] in n.pending && n.pending[k] in logged;
    var i :| 0 <= i < |logged| && logged[i] == n.pending[k];
  }

  lemma EventStands(lib: Library, p: Payloads, n: Node, e: Event, logged: seq<Op>)
    requires Laws(lib) && Sound(lib, p, n, logged) && (Logs(p, e) ==> MayFollow(logged, OpFor(e)))
    requires Handle(lib, p, n, e).Some?
    ensures Standing(Handle(lib, p, n, e).value, if Logs(p, e) then logged + [OpFor(e)] else logged)
  {
    hide Laws, Replayable, NoFlush, Apply, MayFollow, OpFor, GoodLog, Holds, NotAbove, Accounted, View, Taken;
    if Logs(p, e) {
      LoggingStands(View(n.engine), n.acknowledged, n.pending, logged, OpFor(e));
      LoggingUnwaited(View(n.engine), n.acknowledged, n.pending, OpFor(e));
    } else if e.Restart? {
      RestartIsReplay(lib, p, n, e, logged);
      hide Handle, RecoverAll, WriteAll, Timeless;
      ReplayableRestarts(p, n.log.records, logged, e.maxMutable, e.clock);
      var n' := Handle(lib, p, n, e).value;
      ReplayReflects(n'.engine, n.acknowledged, logged);
      NothingWaits(View(n'.engine), n'.acknowledged);
    } else if e.FlushNow? {
      FlushKeepsView(n.engine);
    } else if e.Take? && e.k < |n.pending| {
      PendingIsNoFlush(lib, p, n, logged, e.k);
      hide Standing;
      TakeStands(n, logged, e.k, e.at);
    }
  }

  lemma LoggingUnwaited(view: map<string, Document>, acknowledged: seq<Op>, pending: seq<Op>, op: Op)
    requires Accounted(view, acknowledged, pending + [op])
    ensures Accounted(view, acknowledged, pending)
  {
    hide OpId, OpVersion, AckedAt;
    assert forall w :: w in pending ==> w in pending + [op];
  }

  lemma NothingWaits(view: map<string, Document>, acknowledged: seq<Op>)
    ensures Accounted(view, acknowledged, [])
  {
  }

  lemma {:induction false} StaysSound(lib: Library, p: Payloads, maxMutable: nat, events: seq<Event>)
    requires Laws(lib) && PayloadLaws(lib, p) && TraceableLife(lib, p, maxMutable, events)
    requires Replayable(Logged(p, events))
    ensures Life(lib, p, maxMutable, events).Some?
    ensures Sound(lib, p, Life(lib, p, maxMutable, events).value, Logged(p, events))
    decreases |events|
  {
    StaysUp(lib, p, maxMutable, events);
    StaysRecorded(lib, p, maxMutable, events);
    LoggedIsNoFlush(p, events);
    if events == [] {
      EmptyShowsNothing(maxMutable);
    } else {
      var rest, e := events[..|events| - 1], events[|events| - 1];
      assert events == rest + [e];
      LifeSnoc(lib, p, maxMutable, rest, e);
      LoggedEarlier(p, rest, e);
      LoggedSnoc(p, rest, e);
      StaysSound(lib, p, maxMutable, rest);
      hide Laws, PayloadLaws, Life, Logged, Handle, Replayable, TraceableLife, Standing, Recorded, NoFlush, Logs,
        MayFollow;
      EventStands(lib, p, Life(lib, p, maxMutable, rest).value, e, Logged(p, rest));
    }
  }

  // ----- what is lost, and when

  /** The document is shown in a newer version, and that one has been flushed: the engine would take the upsert and hide
      the newer version. Holding the engine's lock, a caller could check this before it calls. */
  predicate Overtaken(engine: State, op: Op)
  {
    op.Upsert? && op.doc.id !in engine.buffer && op.doc.id in View(engine)
      && op.doc.version < View(engine)[op.doc.id].version
  }

  /** This is what an accepted upsert that is not fresh is. */
  lemma OvertakenIff(engine: State, op: Op)
    ensures Overtaken(engine, op) <==>
      && op.Upsert? && Apply(engine, op).1 == Done
      && op.doc.id in View(engine) && op.doc.version < View(engine)[op.doc.id].version
  {
    assert op.Upsert? && op.doc.id in engine.buffer ==> View(engine)[op.doc.id] == engine.buffer[op.doc.id];
    hide Flushed;
  }

  lemma TakenIsReflected(view: map<string, Document>, op: Op, now: int)
    requires !op.Flush? && Applies(view, op)
    ensures Reflected(Overwrite(view, Stamped(op, now)), op)
  {
  }

  /** A write that hides nothing newer leaves what is reflected reflected. */
  lemma TakingReflects(view: map<string, Document>, logged: seq<Op>, op: Op, now: int, w: Op)
    requires NoFlush(logged) && IncreasingVersions(logged) && op in logged && w in logged && !op.Flush? && !w.Flush?
    requires Applies(view, op) && Reflected(view, w)
    requires OpId(op) in view ==> view[OpId(op)].version <= OpVersion(op)
    ensures Reflected(Overwrite(view, Stamped(op, now)), w)
  {
    StampedApplies(view, op, now);
    OverwrittenAt(view, Stamped(op, now), OpId(w));
    TakenIsReflected(view, op, now);
    if OpId(w) == OpId(op) && OpVersion(w) == OpVersion(op) {
      OneWritePerVersion(logged, w, op);
    }
    hide Overwrite, Applies, NoFlush, IncreasingVersions;
  }

  /** A write that hides a newer version hides the write of that version. */
  lemma TakingHides(view: map<string, Document>, op: Op, now: int, w: Op)
    requires op.Upsert? && op.doc.id in view && op.doc.version < view[op.doc.id].version
    requires !w.Flush? && OpId(w) == op.doc.id && OpVersion(w) == view[op.doc.id].version
    ensures !Reflected(Overwrite(view, Stamped(op, now)), w)
  {
  }

  lemma AppliesUnlessOlder(view: map<string, Document>, op: Op)
    requires !op.Flush? && Applies(view, op)
    ensures OpId(op) in view && view[OpId(op)].version > OpVersion(op) <==>
      op.Upsert? && op.doc.id in view && op.doc.version < view[op.doc.id].version
  {
  }

  /** Taking a write keeps all acknowledged writes reflected if and only if it is not overtaken. */
  lemma TakeReflectsIff(n: Node, logged: seq<Op>, k: nat, now: int)
    requires NoFlush(logged) && IncreasingVersions(logged) && Standing(n, logged)
    requires forall w :: w in n.acknowledged ==> w in logged
    requires AllReflected(View(n.engine), n.acknowledged)
    requires k < |n.pending| && n.pending[k] in logged && !n.pending[k].Flush?
    ensures
      var n' := Taken(n, k, now);
      AllReflected(View(n'.engine), n'.acknowledged) <==> !Overtaken(n.engine, n.pending[k])
  {
    var op, view := n.pending[k], View(n.engine);
    var n' := Taken(n, k, now);
    TakenView(n, k, now);
    StampedApplies(view, op, now);
    OvertakenIff(n.engine, op);
    StampedUpsert(op, now);
    hide View, Apply, Applies, Overwrite, Stamped, Taken, Overtaken, NoFlush, IncreasingVersions, NotAbove;
    if Apply(n.engine, Stamped(op, now)).1 == Done {
      AppliesUnlessOlder(view, op);
      if Overtaken(n.engine, op) {
        assert op in n.pending && OpId(op) == op.doc.id && OpVersion(op) == op.doc.version;
        assert AckedAt(n.acknowledged, op.doc.id, view[op.doc.id].version);
        var w :| w in n.acknowledged && !w.Flush? && OpId(w) == op.doc.id && OpVersion(w) == view[op.doc.id].version;
        TakingHides(view, op, now, w);
        assert w in n'.acknowledged;
      } else {
        forall w | w in n'.acknowledged && !w.Flush?
          ensures Reflected(View(n'.engine), w)
        {
          TakenIsReflected(view, op, now);
          if w in n.acknowledged {
            TakingReflects(view, logged, op, now, w);
          }
        }
      }
    }
  }

  lemma StampedUpsert(op: Op, now: int)
    ensures op.Upsert? ==> Stamped(op, now) == op
  {
  }

  ghost predicate Overtaking(n: Node, e: Event)
  {
    e.Take? && e.k < |n.pending| && Overtaken(n.engine, n.pending[e.k])
  }

  lemma EventReflectsIff(lib: Library, p: Payloads, n: Node, e: Event, logged: seq<Op>)
    requires Laws(lib) && Sound(lib, p, n, logged) && AllReflected(View(n.engine), n.acknowledged)
    requires Handle(lib, p, n, e).Some?
    ensures
      var n' := Handle(lib, p, n, e).value;
      AllReflected(View(n'.engine), n'.acknowledged) <==> !Overtaking(n, e)
  {
    hide Laws, Replayable, NoFlush, Apply, OpFor, GoodLog, Holds, Standing, View, Taken, Overtaken, AllReflected;
    IncreasingIf(logged);
    if e.Restart? {
      RestartIsReplay(lib, p, n, e, logged);
      hide Handle, RecoverAll, WriteAll, Timeless;
      ReplayableRestarts(p, n.log.records, logged, e.maxMutable, e.clock);
      ReplayReflects(Handle(lib, p, n, e).value.engine, n.acknowledged, logged);
    } else if e.FlushNow? {
      FlushKeepsView(n.engine);
    } else if e.Take? && e.k < |n.pending| {
      PendingIsNoFlush(lib, p, n, logged, e.k);
      TakeReflectsIff(n, logged, e.k, e.at);
    }
  }

  /** At every time of the life, every acknowledged write is shown, or a newer one of its document is. */
  ghost predicate AlwaysReflected(lib: Library, p: Payloads, maxMutable: nat, events: seq<Event>)
    decreases |events|
  {
    && (events == [] || AlwaysReflected(lib, p, maxMutable, events[..|events| - 1]))
    && var n := Life(lib, p, maxMutable, events);
       n.Some? && AllReflected(View(n.value.engine), n.value.acknowledged)
  }

  /** No upsert is taken while a newer version of its document is shown and has been flushed. */
  ghost predicate NeverOvertaken(lib: Library, p: Payloads, maxMutable: nat, events: seq<Event>)
    decreases |events|
  {
    events == [] ||
    var rest := events[..|events| - 1];
    && NeverOvertaken(lib, p, maxMutable, rest)
    && (Life(lib, p, maxMutable, rest).Some? ==>
      !Overtaking(Life(lib, p, maxMutable, rest).value, events[|events| - 1]))
  }

  /** When nothing acknowledged is lost: over any life whose log is replayable, with concurrent, failed, unsynced and
      refused writes, flushes and restarts, every acknowledged write is always shown, or a newer one of its document is,
      if and only if no upsert is overtaken. */
  lemma {:induction false} ReflectedIffNeverOvertaken(lib: Library, p: Payloads, maxMutable: nat, events: seq<Event>)
    requires Laws(lib) && PayloadLaws(lib, p) && TraceableLife(lib, p, maxMutable, events)
    requires Replayable(Logged(p, events))
    ensures AlwaysReflected(lib, p, maxMutable, events) <==> NeverOvertaken(lib, p, maxMutable, events)
    decreases |events|
  {
    StaysUp(lib, p, maxMutable, events);
    if events != [] {
      var rest, e := events[..|events| - 1], events[|events| - 1];
      assert events == rest + [e];
      LifeSnoc(lib, p, maxMutable, rest, e);
      LoggedEarlier(p, rest, e);
      ReflectedIffNeverOvertaken(lib, p, maxMutable, rest);
      StaysSound(lib, p, maxMutable, rest);
      hide Laws, PayloadLaws, Life, Logged, Handle, Replayable, TraceableLife, Sound, Overtaking, AllReflected, Logs,
        View;
      if AlwaysReflected(lib, p, maxMutable, rest) {
        LastReflected(lib, p, maxMutable, rest);
        EventReflectsIff(lib, p, Life(lib, p, maxMutable, rest).value, e, Logged(p, rest));
      }
    }
  }

  lemma LastReflected(lib: Library, p: Payloads, maxMutable: nat, events: seq<Event>)
    requires AlwaysReflected(lib, p, maxMutable, events)
    ensures
      var n := Life(lib, p, maxMutable, events);
      n.Some? && AllReflected(View(n.value.engine), n.value.acknowledged)
  {
  }

  // ----- lives in which writes take their turn

  /** Of the writes about one document that wait, the one logged first is taken first. */
  predicate InTurn(n: Node, e: Event)
  {
    e.Take? && e.k < |n.pending| && !n.pending[e.k].Flush? ==>
      forall i :: 0 <= i < e.k && !n.pending[i].Flush? ==> OpId(n.pending[i]) != OpId(n.pending[e.k])
  }

  ghost predicate OrderlyLife(lib: Library, p: Payloads, maxMutable: nat, events: seq<Event>)
    decreases |events|
  {
    events == [] ||
    var rest := events[..|events| - 1];
    && OrderlyLife(lib, p, maxMutable, rest)
    && (Life(lib, p, maxMutable, rest).Some? ==> InTurn(Life(lib, p, maxMutable, rest).value, events[|events| - 1]))
  }

  /** The versions that wait increase per document, and are above what is shown. */
  ghost predicate InLine(n: Node)
  {
    && IncreasingVersions(n.pending)
    && forall id :: id in View(n.engine) ==> AllNewer(n.pending, id, View(n.engine)[id].version)
  }

  lemma LoggingKeepsLine(n: Node, logged: seq<Op>, op: Op)
    requires NoFlush(logged) && NotAbove(View(n.engine), logged) && InLine(n)
    requires (forall w :: w in n.pending ==> w in logged) && !op.Flush? && MayFollow(logged, op)
    ensures InLine(n.(pending := n.pending + [op]))
  {
    MayFollowIsFresh(View(n.engine), logged, op);
    IncreasingSnoc(n.pending, op);
    hide View, NotAbove, OpId, OpVersion;
    forall i | 0 <= i < |n.pending| && !n.pending[i].Flush? && OpId(n.pending[i]) == OpId(op)
      ensures OpVersion(n.pending[i]) < OpVersion(op)
    {
      assert n.pending[i] in logged;
      var j :| 0 <= j < |logged| && logged[j] == n.pending[i];
    }
  }

  lemma WithoutIncreases(pending: seq<Op>, k: nat)
    requires k < |pending| && IncreasingVersions(pending)
    ensures IncreasingVersions(Without(pending, k))
  {
    hide OpId, OpVersion;
  }

  lemma InTurnIsNewer(pending: seq<Op>, k: nat)
    requires k < |pending| && IncreasingVersions(pending) && !pending[k].Flush?
    requires forall i :: 0 <= i < k && !pending[i].Flush? ==> OpId(pending[i]) != OpId(pending[k])
    ensures AllNewer(Without(pending, k), OpId(pending[k]), OpVersion(pending[k]))
  {
    hide OpId, OpVersion;
    forall w | w in Without(pending, k) && !w.Flush? && OpId(w) == OpId(pending[k])
      ensures OpVersion(pending[k]) < OpVersion(w)
    {
      var i :| 0 <= i < |Without(pending, k)| && Without(pending, k)[i] == w;
      var j := if i < k then i else i + 1;
      assert pending[j] == w;
    }
  }

  lemma WithoutNewer(pending: seq<Op>, k: nat, id: string, version: nat)
    requires k < |pending| && AllNewer(pending, id, version)
    ensures AllNewer(Without(pending, k), id, version)
  {
    hide OpId, OpVersion;
  }

  lemma TakingKeepsLine(n: Node, k: nat, now: int)
    requires InLine(n) && k < |n.pending| && !n.pending[k].Flush? && InTurn(n, Take(k, now))
    ensures InLine(Taken(n, k, now)) && !Overtaken(n.engine, n.pending[k])
  {
    var op, view, n' := n.pending[k], View(n.engine), Taken(n, k, now);
    TakenView(n, k, now);
    OvertakenIff(n.engine, op);
    WithoutIncreases(n.pending, k);
    InTurnIsNewer(n.pending, k);
    assert op.Upsert? && op.doc.id in view ==> op in n.pending && view[op.doc.id].version < op.doc.version;
    hide View, Apply, Taken, Overtaken, IncreasingVersions;
    forall id | id in View(n'.engine)
      ensures AllNewer(n'.pending, id, View(n'.engine)[id].version)
    {
      if id in view {
        WithoutNewer(n.pending, k, id, view[id].version);
      }
      if Apply(n.engine, Stamped(op, now)).1 == Done {
        OverwrittenAt(view, Stamped(op, now), id);
        StampedSame(op, now);
      }
      hide OpId, OpVersion, Overwrite, Applies, AllNewer, Stamped;
    }
  }

  lemma StampedSame(op: Op, now: int)
    ensures Stamped(op, now).Flush? <==> op.Flush?
    ensures !op.Flush? ==> OpId(Stamped(op, now)) == OpId(op) && OpVersion(Stamped(op, now)) == OpVersion(op)
    ensures Undated(Stamped(op, now)) == Undated(op)
  {
  }

  lemma EventKeepsLine(lib: Library, p: Payloads, n: Node, e: Event, logged: seq<Op>)
    requires Laws(lib) && Sound(lib, p, n, logged) && InLine(n) && InTurn(n, e)
    requires (Logs(p, e) ==> MayFollow(logged, OpFor(e))) && Handle(lib, p, n, e).Some?
    ensures InLine(Handle(lib, p, n, e).value) && !Overtaking(n, e)
  {
    hide Laws, Replayable, NoFlush, Apply, MayFollow, OpFor, GoodLog, Holds, NotAbove, Accounted, View, Taken,
      InLine, InTurn;
    if Logs(p, e) {
      LoggingKeepsLine(n, logged, OpFor(e));
      ReadyEitherWay(n, OpFor(e));
    } else if e.Restart? {
      RestartIsReplay(lib, p, n, e, logged);
      NobodyInLine(Handle(lib, p, n, e).value);
    } else if e.FlushNow? {
      FlushKeepsView(n.engine);
      FlushKeepsLine(n);
    } else if e.Take? && e.k < |n.pending| {
      PendingIsNoFlush(lib, p, n, logged, e.k);
      TakingKeepsLine(n, e.k, e.at);
    } else {
      LogKeepsLine(n, Handle(lib, p, n, e).value);
    }
  }

  lemma ReadyEitherWay(n: Node, op: Op)
    requires InLine(n.(pending := n.pending + [op])) && InLine(n)
    ensures forall log :: InLine(n.(log := log)) && InLine(n.(log := log, pending := n.pending + [op]))
  {
    hide View, IncreasingVersions, AllNewer;
  }

  lemma NobodyInLine(n: Node)
    requires n.pending == []
    ensures InLine(n)
  {
    hide View;
  }

  lemma FlushKeepsLine(n: Node)
    requires InLine(n)
    ensures InLine(n.(engine := Flushed(n.engine)))
  {
    FlushKeepsView(n.engine);
    hide View, Flushed, IncreasingVersions, AllNewer;
  }

  lemma LogKeepsLine(n: Node, n': Node)
    requires InLine(n) && n'.engine == n.engine && n'.pending == n.pending
    ensures InLine(n')
  {
  }

  lemma {:induction false} OrderlyIsNeverOvertaken(lib: Library, p: Payloads, maxMutable: nat, events: seq<Event>)
    requires Laws(lib) && PayloadLaws(lib, p) && TraceableLife(lib, p, maxMutable, events)
    requires Replayable(Logged(p, events)) && OrderlyLife(lib, p, maxMutable, events)
    ensures Life(lib, p, maxMutable, events).Some? && InLine(Life(lib, p, maxMutable, events).value)
    ensures NeverOvertaken(lib, p, maxMutable, events)
    decreases |events|
  {
    StaysUp(lib, p, maxMutable, events);
    if events == [] {
      NobodyInLine(Born(maxMutable));
    } else {
      var rest, e := events[..|events| - 1], events[|events| - 1];
      assert events == rest + [e];
      LifeSnoc(lib, p, maxMutable, rest, e);
      LoggedEarlier(p, rest, e);
      OrderlyIsNeverOvertaken(lib, p, maxMutable, rest);
      StaysSound(lib, p, maxMutable, rest);
      hide Laws, PayloadLaws, Life, Logged, Handle, Replayable, TraceableLife, Sound, Overtaking, InLine, InTurn,
        Logs, MayFollow;
      EventKeepsLine(lib, p, Life(lib, p, maxMutable, rest).value, e, Logged(p, rest));
    }
  }

  /** Nothing acknowledged is lost if the writes about each document are taken in the order of the log, as they are when
      calls follow each other. */
  lemma AcknowledgedSurvive(lib: Library, p: Payloads, maxMutable: nat, events: seq<Event>)
    requires Laws(lib) && PayloadLaws(lib, p) && TraceableLife(lib, p, maxMutable, events)
    requires Replayable(Logged(p, events)) && OrderlyLife(lib, p, maxMutable, events)
    ensures AlwaysReflected(lib, p, maxMutable, events)
  {
    hide *;
    OrderlyIsNeverOvertaken(lib, p, maxMutable, events);
    ReflectedIffNeverOvertaken(lib, p, maxMutable, events);
  }

  // ----- the smallest life in which something acknowledged is lost

  lemma AfterPut(lib: Library, p: Payloads, n: Node, doc: Document, now: int)
    requires p.encode(doc).Some?
    ensures Logs(p, Put(doc, Synced, now)) && OpFor(Put(doc, Synced, now)) == Op.Upsert(doc)
    ensures
      var n' := Handle(lib, p, n, Put(doc, Synced, now));
      n'.Some? && n'.value.engine == n.engine && n'.value.pending == n.pending + [Op.Upsert(doc)]
  {
    hide Numbered;
  }

  lemma BothMayBeLogged(older: Document, newer: Document)
    requires older.id == newer.id && older.version < newer.version
    ensures Replayable([Op.Upsert(older), Op.Upsert(newer)])
  {
    hide Replayable;
    ReplayableSnoc([], Op.Upsert(older));
    ReplayableSnoc([Op.Upsert(older)], Op.Upsert(newer));
    assert [] + [Op.Upsert(older)] == [Op.Upsert(older)];
    assert [Op.Upsert(older)] + [Op.Upsert(newer)] == [Op.Upsert(older), Op.Upsert(newer)];
  }

  /** The engine takes the newer upsert first, flushes, and then has the older one before it. */
  lemma NewerThenFlush(n: Node, older: Document, newer: Document, at: int)
    requires n.engine.segments == [] && n.engine.buffer == map[] && n.engine.maxMutable >= 2
    requires n.pending == [Op.Upsert(older), Op.Upsert(newer)] && older.id == newer.id && older.version < newer.version
    ensures
      var n' := Taken(n, 1, at);
      n'.pending == [Op.Upsert(older)] && Overtaken(Flushed(n'.engine), Op.Upsert(older))
  {
    var n' := Taken(n, 1, at);
    FirstUpsert(n.engine, newer);
    StampedUpsert(Op.Upsert(newer), at);
    assert n'.engine == n.engine.(buffer := map[newer.id := newer]);
    assert [Op.Upsert(older), Op.Upsert(newer)][..1] + [] == [Op.Upsert(older)];
    var s := Flushed(n'.engine);
    assert newer.id in n'.engine.buffer && [] + [n'.engine.buffer] == s.segments && s.buffer == map[];
    LayersOf(s);
    hide View, Flushed, Apply;
  }

  /** Two upserts of one document are logged in the order of their versions, the engine takes the newer one, flushes,
      and takes the older one. The log is replayable and both are acknowledged, but the newer one is hidden until the
      next restart. */
  lemma OvertakenUpsertHides(lib: Library, p: Payloads, maxMutable: nat, older: Document, newer: Document, now: int)
    requires Laws(lib) && PayloadLaws(lib, p) && p.encode(older).Some? && p.encode(newer).Some?
    requires maxMutable >= 2 && older.id == newer.id && older.version < newer.version
    requires
      TraceableLife(lib, p, maxMutable,
        [Put(older, Synced, now), Put(newer, Synced, now)] + [Take(1, now)] + [FlushNow] + [Take(0, now)])
    ensures
      var events := [Put(older, Synced, now), Put(newer, Synced, now)] + [Take(1, now)] + [FlushNow] + [Take(0, now)];
      Replayable(Logged(p, events)) && !AlwaysReflected(lib, p, maxMutable, events)
  {
    var e2 := [Put(older, Synced, now), Put(newer, Synced, now)];
    hide *;
    TwoPut(lib, p, maxMutable, older, newer, now);
    EmptyIs(maxMutable);
    NewerThenFlush(Life(lib, p, maxMutable, e2).value, older, newer, now);
    AfterTake(lib, p, maxMutable, e2, 1, now);
    AfterFlush(lib, p, maxMutable, e2 + [Take(1, now)]);
    LoggedNothing(p, e2 + [Take(1, now)] + [FlushNow], Take(0, now));
    BothMayBeLogged(older, newer);
    OvertakingIf(Life(lib, p, maxMutable, e2 + [Take(1, now)] + [FlushNow]).value, now);
    LastIsOvertaken(lib, p, maxMutable, e2 + [Take(1, now)] + [FlushNow], Take(0, now));
    ReflectedIffNeverOvertaken(lib, p, maxMutable, e2 + [Take(1, now)] + [FlushNow] + [Take(0, now)]);
  }

  lemma EmptyIs(maxMutable: nat)
    ensures Empty(maxMutable) == State([], map[], maxMutable)
  {
  }

  lemma OvertakingIf(n: Node, now: int)
    requires |n.pending| > 0 && Overtaken(n.engine, n.pending[0])
    ensures Overtaking(n, Take(0, now))
  {
  }

  lemma LoggedNothing(p: Payloads, events: seq<Event>, e: Event)
    requires e.Take? || e.FlushNow?
    ensures Logged(p, events + [e]) == Logged(p, events)
  {
    hide Logged;
    LoggedSnoc(p, events, e);
  }

  lemma AfterTake(lib: Library, p: Payloads, maxMutable: nat, events: seq<Event>, k: nat, now: int)
    requires Life(lib, p, maxMutable, events).Some? && k < |Life(lib, p, maxMutable, events).value.pending|
    ensures Life(lib, p, maxMutable, events + [Take(k, now)])
      == Some(Taken(Life(lib, p, maxMutable, events).value, k, now))
    ensures Logged(p, events + [Take(k, now)]) == Logged(p, events)
  {
    LoggedNothing(p, events, Take(k, now));
    hide Life, Logged, Taken;
    LifeSnoc(lib, p, maxMutable, events, Take(k, now));
  }

  lemma AfterFlush(lib: Library, p: Payloads, maxMutable: nat, events: seq<Event>)
    requires Life(lib, p, maxMutable, events).Some?
    ensures
      var n := Life(lib, p, maxMutable, events).value;
      Life(lib, p, maxMutable, events + [FlushNow]) == Some(n.(engine := Flushed(n.engine)))
    ensures Logged(p, events + [FlushNow]) == Logged(p, events)
  {
    LoggedNothing(p, events, FlushNow);
    hide Life, Logged, Flushed;
    LifeSnoc(lib, p, maxMutable, events, FlushNow);
  }

  lemma LastIsOvertaken(lib: Library, p: Payloads, maxMutable: nat, events: seq<Event>, e: Event)
    requires Life(lib, p, maxMutable, events).Some? && Overtaking(Life(lib, p, maxMutable, events).value, e)
    ensures !NeverOvertaken(lib, p, maxMutable, events + [e])
  {
    hide Life, Overtaking;
    assert (events + [e])[..|events|] == events;
  }

  lemma TwoPut(lib: Library, p: Payloads, maxMutable: nat, older: Document, newer: Document, now: int)
    requires p.encode(older).Some? && p.encode(newer).Some?
    ensures
      var events := [Put(older, Synced, now), Put(newer, Synced, now)];
      var n := Life(lib, p, maxMutable, events);
      && n.Some? && n.value.engine == Empty(maxMutable)
      && n.value.pending == [Op.Upsert(older), Op.Upsert(newer)]
      && Logged(p, events) == n.value.pending
  {
    var x, y := Put(older, Synced, now), Put(newer, Synced, now);
    LifeSnoc(lib, p, maxMutable, [], x);
    LoggedSnoc(p, [], x);
    assert [] + [x] == [x] && [x] + [y] == [x, y];
    assert [] + [Op.Upsert(older)] == [Op.Upsert(older)];
    assert [Op.Upsert(older)] + [Op.Upsert(newer)] == [Op.Upsert(older), Op.Upsert(newer)];
    assert Born(maxMutable).engine == Empty(maxMutable) && Born(maxMutable).pending == [];
    hide *;
    AfterLogging(lib, p, maxMutable, [], older, now);
    AfterLogging(lib, p, maxMutable, [x], newer, now);
  }

  lemma AfterLogging(lib: Library, p: Payloads, maxMutable: nat, events: seq<Event>, doc: Document, now: int)
    requires p.encode(doc).Some? && Life(lib, p, maxMutable, events).Some?
    ensures
      var n, n' := Life(lib, p, maxMutable, events).value, Life(lib, p, maxMutable, events + [Put(doc, Synced, now)]);
      && n'.Some? && n'.value.engine == n.engine && n'.value.pending == n.pending + [Op.Upsert(doc)]
      && Logged(p, events + [Put(doc, Synced, now)]) == Logged(p, events) + [Op.Upsert(doc)]
  {
    hide Life, Logged, Handle, Logs, OpFor;
    AfterPut(lib, p, Life(lib, p, maxMutable, events).value, doc, now);
    LifeSnoc(lib, p, maxMutable, events, Put(doc, Synced, now));
    LoggedSnoc(p, events, Put(doc, Synced, now));
  }
}
