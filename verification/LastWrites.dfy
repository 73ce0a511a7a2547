/** Exactly when recovery is right although the engine saw the logged writes in another order, or refused some of them
    (internal/ingest/service.go logs and applies under different locks): what counts is the last write of each
    document. */
module LastWrites {
  import opened Documents
  import opened Options
  import opened Recovery
  import opened Reordering
  import opened Store

  // ----- what accepted writes leave behind

  /** What an accepted write does to the view, whatever its version. */
  function Overwrite(m: map<string, Document>, op: Op): map<string, Document>
  {
    match op
    case Upsert(doc) => m[doc.id := doc]
    case Delete(id, version, now) => if id in m then m[id := Tombstone(m[id], version, now)] else m
    case Flush => m
  }

  function Overwritten(writes: seq<Op>): map<string, Document>
    decreases |writes|
  {
    if writes == [] then map[] else Overwrite(Overwritten(writes[..|writes| - 1]), writes[|writes| - 1])
  }

  lemma OverwrittenSnoc(writes: seq<Op>, op: Op)
    ensures Overwritten([]) == map[]
    ensures Overwritten(writes + [op]) == Overwrite(Overwritten(writes), op)
  {
    assert (writes + [op])[..|writes|] == writes;
  }

  /** The deletion finds its document, in an older version. */
  predicate Applies(m: map<string, Document>, op: Op)
  {
    op.Delete? ==> op.id in m && m[op.id].version < op.version
  }

  /** Every deletion finds its document, in an older version. */
  predicate DeletesApply(writes: seq<Op>)
    decreases |writes|
  {
    writes == [] ||
    (DeletesApply(writes[..|writes| - 1]) && Applies(Overwritten(writes[..|writes| - 1]), writes[|writes| - 1]))
  }

  lemma DeletesApplySnoc(writes: seq<Op>, op: Op)
    ensures DeletesApply([])
    ensures DeletesApply(writes + [op]) <==> DeletesApply(writes) && Applies(Overwritten(writes), op)
  {
    assert (writes + [op])[..|writes|] == writes;
  }

  lemma AcceptedShows(s: State, op: Op)
    requires Apply(s, op).1 == Done
    ensures View(Apply(s, op).0) == Overwrite(View(s), op) && Applies(View(s), op)
  {
    match op
    case Upsert(doc) => UpsertShows(s, doc);
    case Delete(id, version, now) =>
      BufferedWriteShows(s, id, Tombstone(View(s)[id], version, now));
      hide View;
    case Flush =>
      FlushKeepsView(s);
      hide View;
  }

  lemma UpsertShows(s: State, doc: Document)
    requires Upserted(s, doc).1 == Done
    ensures View(Upserted(s, doc).0) == View(s)[doc.id := doc]
  {
    BufferedWriteShows(s, doc.id, doc);
    FlushKeepsView(s.(buffer := s.buffer[doc.id := doc]));
    hide View, Flushed;
  }

  /** An accepted run shows what its writes leave behind, under every flush schedule. */
  lemma {:induction false} AcceptedRunShows(maxMutable: nat, ops: seq<Op>)
    requires AllDone(Run(Empty(maxMutable), ops).1)
    ensures View(Run(Empty(maxMutable), ops).0) == Overwritten(Writes(ops)) && DeletesApply(Writes(ops))
    decreases |ops|
  {
    if ops == [] {
      EmptyShowsNothing(maxMutable);
    } else {
      var s, rest, last := Empty(maxMutable), ops[..|ops| - 1], ops[|ops| - 1];
      LastSplit(ops);
      RunSnoc(s, rest, last);
      WritesSnoc(rest, last);
      OverwrittenSnoc(Writes(rest), last);
      DeletesApplySnoc(Writes(rest), last);
      hide Run, Apply, View, Writes, Overwritten, DeletesApply, AllDone;
      var before := Run(s, rest).0;
      FlushIsDone(before);
      if !last.Flush? {
        AllDoneSnoc(Run(s, rest).1, Apply(before, last).1);
      }
      AcceptedRunShows(maxMutable, rest);
      AcceptedShows(before, last);
    }
  }

  lemma FlushIsDone(s: State)
    ensures Apply(s, Flush).1 == Done
  {
  }

  /** The schedule that flushes before every write. */
  function Throughout(writes: seq<Op>): seq<Op>
    decreases |writes|
  {
    if writes == [] then [] else Throughout(writes[..|writes| - 1]) + [Flush] + [writes[|writes| - 1]]
  }

  lemma FlushedAccepts(s: State, op: Op)
    requires !op.Flush? && Applies(View(s), op)
    ensures Apply(Flushed(s), op).1 == Done
  {
    FlushKeepsView(s);
    hide View;
  }

  lemma {:induction false} ThroughoutIsAccepted(writes: seq<Op>)
    requires NoFlush(writes) && DeletesApply(writes)
    ensures Writes(Throughout(writes)) == writes && AllDone(Run(Empty(1), Throughout(writes)).1)
    decreases |writes|
  {
    if writes != [] {
      var s, rest, last := Empty(1), writes[..|writes| - 1], writes[|writes| - 1];
      LastSplit(writes);
      DeletesApplySnoc(rest, last);
      ThroughoutIsAccepted(rest);
      AcceptedRunShows(1, Throughout(rest));
      hide *;
      ThroughoutSnoc(rest, last);
      FlushedStep(s, Throughout(rest), last);
    }
  }

  lemma ThroughoutSnoc(rest: seq<Op>, last: Op)
    requires !last.Flush? && Writes(Throughout(rest)) == rest
    ensures Throughout(rest + [last]) == Throughout(rest) + [Flush] + [last]
    ensures Writes(Throughout(rest + [last])) == rest + [last]
    ensures DeletesApply(rest + [last]) ==> Applies(Overwritten(rest), last)
  {
    assert (rest + [last])[..|rest|] == rest;
    hide Writes;
    WritesSnoc(Throughout(rest), Flush);
    WritesSnoc(Throughout(rest) + [Flush], last);
  }

  lemma FlushedStep(s: State, ops: seq<Op>, op: Op)
    requires AllDone(Run(s, ops).1) && !op.Flush? && Applies(View(Run(s, ops).0), op)
    ensures AllDone(Run(s, ops + [Flush] + [op]).1)
  {
    hide Run, View, AllDone, Flushed, Applies;
    RunSnoc(s, ops, Flush);
    RunSnoc(s, ops + [Flush], op);
    FlushedAccepts(Run(s, ops).0, op);
    AllDoneSnoc(Run(s, ops).1, Apply(Flushed(Run(s, ops).0), op).1);
  }

  lemma OverwriteButClock(m: map<string, Document>, m': map<string, Document>, op: Op, op': Op)
    requires Timeless(m) == Timeless(m') && Undated(op) == Undated(op') && !op.Flush?
    ensures Timeless(Overwrite(m, op)) == Timeless(Overwrite(m', op'))
    ensures Applies(m, op) <==> Applies(m', op')
    ensures OpId(op) in m <==> OpId(op) in m'
    ensures OpId(op) in m ==> m[OpId(op)].version == m'[OpId(op)].version
  {
    var id := OpId(op);
    assert m.Keys == Timeless(m).Keys && m'.Keys == Timeless(m').Keys;
    if id in m {
      assert Timeless(m)[id] == Timeless(m')[id];
    }
    if op.Upsert? {
      TimelessUpdate(m, id, op.doc);
      TimelessUpdate(m', id, op.doc);
    } else if id in m {
      var t, t' := Tombstone(m[id], op.version, op.now), Tombstone(m'[id], op.version, op'.now);
      TimelessUpdate(m, id, t);
      TimelessUpdate(m', id, t');
      assert t.(updatedAt := 0) == t'.(updatedAt := 0);
    }
  }

  /** What writes leave behind does not depend on the clock, up to the time stamps of tombstones. */
  lemma {:induction false} OverwrittenButClock(a: seq<Op>, b: seq<Op>)
    requires NoFlush(a) && SameButClock(a, b)
    ensures NoFlush(b)
    ensures Timeless(Overwritten(a)) == Timeless(Overwritten(b)) && (DeletesApply(a) <==> DeletesApply(b))
    decreases |a|
  {
    SameKinds(a, b);
    if a != [] {
      var a', x := a[..|a| - 1], a[|a| - 1];
      var b', y := b[..|b| - 1], b[|b| - 1];
      assert Undated(x) == Undated(y);
      hide Overwritten, Timeless, Overwrite, Applies, Undated;
      LastSplit(a);
      LastSplit(b);
      OverwrittenButClock(a', b');
      OverwrittenSnoc(a', x);
      OverwrittenSnoc(b', y);
      OverwriteButClock(Overwritten(a'), Overwritten(b'), x, y);
    }
  }

  lemma SameKinds(a: seq<Op>, b: seq<Op>)
    requires NoFlush(a) && SameButClock(a, b)
    ensures NoFlush(b)
  {
    forall i | 0 <= i < |b|
      ensures !b[i].Flush?
    {
      assert Undated(a[i]) == Undated(b[i]);
    }
  }

  ghost predicate SomeScheduleAccepts(writes: seq<Op>)
  {
    exists maxMutable: nat, ops :: Writes(ops) == writes && AllDone(Run(Empty(maxMutable), ops).1)
  }

  /** Some engine accepts the writes in this order if and only if every deletion finds its document, in an older
      version: upserts can always be got through, by flushing. */
  lemma AcceptedIffDeletesApply(writes: seq<Op>)
    requires NoFlush(writes)
    ensures SomeScheduleAccepts(writes) <==> DeletesApply(writes)
  {
    hide Writes, AllDone, Run, DeletesApply, Throughout, View, Overwritten, Empty;
    if DeletesApply(writes) {
      ThroughoutIsAccepted(writes);
      assert Writes(Throughout(writes)) == writes && AllDone(Run(Empty(1), Throughout(writes)).1);
    }
    forall maxMutable: nat, ops | Writes(ops) == writes && AllDone(Run(Empty(maxMutable), ops).1)
      ensures DeletesApply(writes)
    {
      AcceptedRunShows(maxMutable, ops);
    }
  }

  // ----- the last writes

  function LastWrite(writes: seq<Op>, id: string): (r: Option<Op>)
    ensures r.Some? ==> r.value in writes && !r.value.Flush? && OpId(r.value) == id
    ensures r.None? ==> forall op :: op in writes && !op.Flush? ==> OpId(op) != id
    decreases |writes|
  {
    if writes == [] then None
    else
      var last := writes[|writes| - 1];
      LastSplit(writes);
      if !last.Flush? && OpId(last) == id then Some(last) else LastWrite(writes[..|writes| - 1], id)
  }

  function LastUpsert(writes: seq<Op>, id: string): (r: Option<Document>)
    ensures r.Some? ==> Op.Upsert(r.value) in writes && r.value.id == id
    ensures r.None? ==> forall d :: Op.Upsert(d) in writes ==> d.id != id
    decreases |writes|
  {
    if writes == [] then None
    else
      var last := writes[|writes| - 1];
      LastSplit(writes);
      if last.Upsert? && last.doc.id == id then Some(last.doc) else LastUpsert(writes[..|writes| - 1], id)
  }

  lemma LastSnoc(writes: seq<Op>, op: Op, id: string)
    requires !op.Flush?
    ensures LastWrite([], id) == None && LastUpsert([], id) == None
    ensures LastWrite(writes + [op], id) == if OpId(op) == id then Some(op) else LastWrite(writes, id)
    ensures LastUpsert(writes + [op], id)
         == if op.Upsert? && op.doc.id == id then Some(op.doc) else LastUpsert(writes, id)
  {
    assert (writes + [op])[..|writes|] == writes;
  }

  /** The last upsert of a document and a last deletion decide what is left of it. */
  ghost predicate LeftBehind(m: map<string, Document>, id: string, write: Option<Op>, upsert: Option<Document>)
  {
    && (id in m <==> upsert.Some?)
    && (id in m ==>
         && write.Some?
         && match write.value
            case Upsert(doc) => m[id] == doc == upsert.value
            case Delete(_, version, now) => m[id] == Tombstone(upsert.value, version, now)
            case Flush => false)
  }

  lemma {:induction false} OverwrittenIs(writes: seq<Op>, id: string)
    requires NoFlush(writes)
    ensures LeftBehind(Overwritten(writes), id, LastWrite(writes, id), LastUpsert(writes, id))
    decreases |writes|
  {
    if writes == [] {
      OverwrittenSnoc([], Flush);
    } else {
      var rest, last := writes[..|writes| - 1], writes[|writes| - 1];
      LastSplit(writes);
      OverwrittenIs(rest, id);
      OverwrittenSnoc(rest, last);
      LastSnoc(rest, last, id);
      hide *;
      LeftBehindStep(Overwritten(rest), id, LastWrite(rest, id), LastUpsert(rest, id), last);
    }
  }

  lemma LeftBehindStep(m: map<string, Document>, id: string, write: Option<Op>, upsert: Option<Document>, op: Op)
    requires LeftBehind(m, id, write, upsert) && !op.Flush?
    ensures LeftBehind(Overwrite(m, op), id, if OpId(op) == id then Some(op) else write,
      if op.Upsert? && op.doc.id == id then Some(op.doc) else upsert)
  {
  }

  /** Where every deletion applies, a document that was written was upserted. */
  lemma {:induction false} WrittenIsUpserted(writes: seq<Op>, id: string)
    requires NoFlush(writes) && DeletesApply(writes)
    ensures LastWrite(writes, id).Some? ==> LastUpsert(writes, id).Some?
    decreases |writes|
  {
    if writes != [] {
      var rest, last := writes[..|writes| - 1], writes[|writes| - 1];
      LastSplit(writes);
      WrittenIsUpserted(rest, id);
      LastSnoc(rest, last, id);
      OverwrittenIs(rest, id);
      hide Overwritten, LastWrite, LastUpsert;
    }
  }

  predicate SameWrite(x: Option<Op>, y: Option<Op>)
  {
    if x.Some? then y.Some? && Undated(x.value) == Undated(y.value) else y.None?
  }

  /** The two orders agree on the last write of the document; and if that is a deletion, on what it deletes. */
  ghost predicate SameLast(a: seq<Op>, b: seq<Op>, id: string)
  {
    && SameWrite(LastWrite(a, id), LastWrite(b, id))
    && var (write, u, u') := (LastWrite(a, id), LastUpsert(a, id), LastUpsert(b, id));
       write.Some? && write.value.Delete? && u.Some? && u'.Some? ==>
         Tombstone(u.value, 0, 0) == Tombstone(u'.value, 0, 0)
  }

  lemma TimelessIff(m: map<string, Document>, m': map<string, Document>)
    ensures Timeless(m) == Timeless(m') <==> forall id :: TimelessAgree(m, m', id)
  {
    hide Timeless;
    if forall id :: TimelessAgree(m, m', id) {
      TimelessEverywhere(m, m');
    }
  }

  /** Every write of one is a write of the other, at whatever time. */
  ghost predicate Among(a: seq<Op>, log: seq<Op>)
  {
    forall w :: w in a ==> HasWrite(log, w)
  }

  ghost predicate HasWrite(log: seq<Op>, w: Op)
  {
    exists l :: l in log && Undated(l) == Undated(w)
  }

  /** No two writes of a document have the same version. */
  ghost predicate OnePerVersion(log: seq<Op>)
  {
    forall x, y :: x in log && y in log && !x.Flush? && !y.Flush? && OpId(x) == OpId(y) && OpVersion(x) == OpVersion(y)
      ==> x == y
  }

  /** In a log with increasing versions a document's writes are told apart by their versions. */
  lemma OneWritePerVersion(log: seq<Op>, x: Op, y: Op)
    requires NoFlush(log) && IncreasingVersions(log) && x in log && y in log
    requires OpId(x) == OpId(y) && OpVersion(x) == OpVersion(y)
    ensures x == y
  {
    var i :| 0 <= i < |log| && log[i] == x;
    var j :| 0 <= j < |log| && log[j] == y;
    hide OpId, OpVersion;
  }

  lemma IncreasingIsOnePerVersion(log: seq<Op>)
    requires NoFlush(log) && IncreasingVersions(log)
    ensures OnePerVersion(log)
  {
    hide OpId, OpVersion, IncreasingVersions, NoFlush;
    forall x, y
      | x in log && y in log && !x.Flush? && !y.Flush? && OpId(x) == OpId(y) && OpVersion(x) == OpVersion(y)
      ensures x == y
    {
      OneWritePerVersion(log, x, y);
    }
  }

  lemma VersionLeft(m: map<string, Document>, id: string, write: Option<Op>, upsert: Option<Document>)
    requires LeftBehind(m, id, write, upsert) && id in m
    ensures m[id].version == OpVersion(write.value)
  {
  }

  lemma AgreeIfSameLast(m: map<string, Document>, m': map<string, Document>, id: string, w: Option<Op>, w': Option<Op>,
                        u: Option<Document>, u': Option<Document>)
    requires LeftBehind(m, id, w, u) && LeftBehind(m', id, w', u') && u.Some? && u'.Some? && SameWrite(w, w')
    ensures TimelessAgree(m, m', id) <==>
      (w.Some? && w.value.Delete? ==> Tombstone(u.value, 0, 0) == Tombstone(u'.value, 0, 0))
  {
    if id in m && w.value.Delete? {
      var d, d' := Tombstone(u.value, w.value.version, 0), Tombstone(u'.value, w.value.version, 0);
      assert Timeless(m)[id] == d && Timeless(m')[id] == d';
      assert Tombstone(u.value, 0, 0) == d.(version := 0) && Tombstone(u'.value, 0, 0) == d'.(version := 0);
      assert d == Tombstone(u.value, 0, 0).(version := w.value.version);
      assert d' == Tombstone(u'.value, 0, 0).(version := w.value.version);
    }
  }

  lemma UpsertIsAmong(a: seq<Op>, log: seq<Op>, id: string)
    requires Among(a, log)
    ensures LastUpsert(a, id).Some? ==> LastUpsert(log, id).Some?
    ensures LastUpsert(log, id).Some? ==> LastWrite(log, id).Some?
  {
    if LastUpsert(a, id).Some? {
      var op := Op.Upsert(LastUpsert(a, id).value);
      assert HasWrite(log, op);
      var l :| l in log && Undated(l) == Undated(op);
      assert l == op;
    }
    hide LastUpsert, LastWrite;
    if LastUpsert(log, id).Some? {
      assert Op.Upsert(LastUpsert(log, id).value) in log;
    }
  }

  lemma SameVersionSameWrite(a: seq<Op>, log: seq<Op>, w: Op, w': Op)
    requires Among(a, log) && OnePerVersion(log) && w in a && w' in log && !w.Flush? && !w'.Flush?
    requires OpId(w) == OpId(w') && OpVersion(w) == OpVersion(w')
    ensures Undated(w) == Undated(w')
  {
    assert HasWrite(log, w);
    var l :| l in log && Undated(l) == Undated(w);
  }

  lemma AgreeIffSameLast(a: seq<Op>, log: seq<Op>, id: string)
    requires NoFlush(a) && NoFlush(log) && Among(a, log)
    requires DeletesApply(a) && DeletesApply(log) && OnePerVersion(log)
    ensures TimelessAgree(Overwritten(a), Overwritten(log), id) <==> SameLast(a, log, id)
  {
    OverwrittenIs(a, id);
    OverwrittenIs(log, id);
    WrittenIsUpserted(a, id);
    WrittenIsUpserted(log, id);
    UpsertIsAmong(a, log, id);
    var m, m' := Overwritten(a), Overwritten(log);
    var w, w', u, u' := LastWrite(a, id), LastWrite(log, id), LastUpsert(a, id), LastUpsert(log, id);
    hide Overwritten, LastWrite, LastUpsert, OnePerVersion, NoFlush, Among, Timeless, DeletesApply;
    if u.Some? {
      VersionLeft(m, id, w, u);
      VersionLeft(m', id, w', u');
      if SameWrite(w, w') {
        AgreeIfSameLast(m, m', id, w, w', u, u');
      } else if TimelessAgree(m, m', id) {
        SameVersion(m, m', id);
        SameVersionSameWrite(a, log, w.value, w'.value);
      }
    }
  }

  lemma SameVersion(m: map<string, Document>, m': map<string, Document>, id: string)
    requires TimelessAgree(m, m', id) && id in m
    ensures m[id].version == m'[id].version
  {
    assert Timeless(m)[id].version == m[id].version && Timeless(m')[id].version == m'[id].version;
  }

  ghost predicate SameLasts(a: seq<Op>, log: seq<Op>)
  {
    forall id :: SameLast(a, log, id)
  }

  /** Some of the logged writes, in any order, leave the same documents behind as the log if and only if they agree with
      it on the last writes. */
  lemma LeftAlikeIff(a: seq<Op>, log: seq<Op>)
    requires NoFlush(a) && NoFlush(log) && Among(a, log)
    requires DeletesApply(a) && DeletesApply(log) && OnePerVersion(log)
    ensures Timeless(Overwritten(a)) == Timeless(Overwritten(log)) <==> SameLasts(a, log)
  {
    hide Overwritten, OnePerVersion, Among, NoFlush, Timeless, DeletesApply, SameLast, TimelessAgree;
    TimelessIff(Overwritten(a), Overwritten(log));
    forall id
      ensures TimelessAgree(Overwritten(a), Overwritten(log), id) <==> SameLast(a, log, id)
    {
      AgreeIffSameLast(a, log, id);
    }
  }

  // ----- recovery

  /** Whatever engine accepted the writes in this order, and whenever and into whatever engine the log is replayed, the
      replay completes and shows the same documents, up to the time stamps of tombstones. */
  ghost predicate AlwaysRecovers(order: seq<Op>, log: seq<Op>)
  {
    forall max1: nat, live, max2: nat, replay ::
      SameButClock(order, Writes(live)) && AllDone(Run(Empty(max1), live).1) && SameButClock(log, Writes(replay)) ==>
        Restores(max1, live, max2, replay)
  }

  ghost predicate Restores(max1: nat, live: seq<Op>, max2: nat, replay: seq<Op>)
  {
    && AllDone(Run(Empty(max2), replay).1)
    && Timeless(View(Run(Empty(max2), replay).0)) == Timeless(View(Run(Empty(max1), live).0))
  }

  /** What a replay of a replayable log shows. */
  lemma ReplayShows(log: seq<Op>, maxMutable: nat, replay: seq<Op>)
    requires NoFlush(log) && Replayable(log) && SameButClock(log, Writes(replay))
    ensures DeletesApply(log) && OnePerVersion(log)
    ensures AllDone(Run(Empty(maxMutable), replay).1)
    ensures Timeless(View(Run(Empty(maxMutable), replay).0)) == Timeless(Overwritten(log))
  {
    hide Run, WriteAll, View, Writes, Timeless, SameButClock, MapOf, AllDone, Replayable, NoFlush, Overwritten,
      DeletesApply, IncreasingVersions, OnePerVersion;
    MapAcceptsIffReplayable(log);
    NoFlushWrites(log);
    IncreasingIf(log);
    IncreasingIsOnePerVersion(log);
    SameVersionsButClock(log, Writes(replay));
    RunsLikeTheMap(maxMutable, replay);
    SameRunButClock(log, Writes(replay));
    RunsLikeTheMap(maxMutable, log);
    AcceptedRunShows(maxMutable, log);
  }

  lemma IncreasingIf(log: seq<Op>)
    requires Replayable(log)
    ensures IncreasingVersions(log)
  {
  }

  lemma NoFlushWrites(log: seq<Op>)
    requires NoFlush(log)
    ensures Writes(log) == log
  {
    hide Writes;
    WritesOfWrites(log);
  }

  lemma SameAsItself(log: seq<Op>)
    ensures SameButClock(log, log)
  {
  }

  /** What an accepted run shows, whatever the clock. */
  lemma LiveShows(order: seq<Op>, maxMutable: nat, live: seq<Op>)
    requires NoFlush(order) && SameButClock(order, Writes(live)) && AllDone(Run(Empty(maxMutable), live).1)
    ensures DeletesApply(order)
    ensures Timeless(View(Run(Empty(maxMutable), live).0)) == Timeless(Overwritten(order))
  {
    hide Run, View, Writes, Timeless, SameButClock, AllDone, NoFlush, Overwritten, DeletesApply;
    AcceptedRunShows(maxMutable, live);
    OverwrittenButClock(order, Writes(live));
  }

  lemma RecoversIfSameLasts(order: seq<Op>, log: seq<Op>)
    requires NoFlush(order) && NoFlush(log) && Among(order, log)
    requires DeletesApply(order) && Replayable(log) && SameLasts(order, log)
    ensures AlwaysRecovers(order, log)
  {
    hide Run, View, Writes, Timeless, SameButClock, AllDone, Replayable, NoFlush, Overwritten, DeletesApply, SameLasts,
      Among, OnePerVersion;
    forall max1: nat, live, max2: nat, replay
      | SameButClock(order, Writes(live)) && AllDone(Run(Empty(max1), live).1) && SameButClock(log, Writes(replay))
      ensures Restores(max1, live, max2, replay)
    {
      LiveShows(order, max1, live);
      ReplayShows(log, max2, replay);
      LeftAlikeIff(order, log);
    }
  }

  lemma SameLastsIfRecovers(order: seq<Op>, log: seq<Op>)
    requires NoFlush(order) && NoFlush(log) && Among(order, log)
    requires DeletesApply(order) && AlwaysRecovers(order, log)
    ensures Replayable(log) && SameLasts(order, log)
  {
    NoFlushWrites(log);
    SameAsItself(log);
    SameAsItself(order);
    ThroughoutIsAccepted(order);
    var live, room := Throughout(order), |log| + 1;
    hide Run, View, Writes, Timeless, SameButClock, AllDone, Replayable, NoFlush, Overwritten, DeletesApply, SameLasts,
      Throughout, WriteAll, MapOf, Among, OnePerVersion;
    assert Restores(1, live, room, log);
    UnflushedIsTheMap(room, log);
    MapAcceptsIffReplayable(log);
    LiveShows(order, 1, live);
    ReplayShows(log, room, log);
    LeftAlikeIff(order, log);
  }

  /** When recovery is right although the engine accepted the logged writes in another order, and refused some: if
      some engine accepts that order at all, then every engine that does is restored by every replay of the log if and
      only if the log is replayable and the two orders agree on the last write of each document, and on what it
      deletes if it is a deletion. */
  lemma RecoversIffSameLasts(order: seq<Op>, log: seq<Op>)
    requires NoFlush(order) && NoFlush(log) && Among(order, log)
    ensures AlwaysRecovers(order, log) <==> (DeletesApply(order) ==> Replayable(log) && SameLasts(order, log))
  {
    hide Replayable, NoFlush, DeletesApply, SameLasts, AlwaysRecovers, Among;
    if !DeletesApply(order) {
      NobodyToRecover(order, log);
    } else if Replayable(log) && SameLasts(order, log) {
      RecoversIfSameLasts(order, log);
    } else if AlwaysRecovers(order, log) {
      SameLastsIfRecovers(order, log);
    }
  }

  lemma NobodyToRecover(order: seq<Op>, log: seq<Op>)
    requires NoFlush(order) && !DeletesApply(order)
    ensures AlwaysRecovers(order, log)
  {
    hide Run, Writes, SameButClock, AllDone, NoFlush, DeletesApply, Restores, View, Timeless, Overwritten;
    forall max1: nat, live | SameButClock(order, Writes(live))
      ensures !AllDone(Run(Empty(max1), live).1)
    {
      if AllDone(Run(Empty(max1), live).1) {
        LiveShows(order, max1, live);
      }
    }
  }

  // ----- recovery into an engine of a given size

  /** The writes of a run that were accepted. */
  function AcceptedOf(maxMutable: nat, ops: seq<Op>): seq<Op>
    decreases |ops|
  {
    if ops == [] then []
    else
      var rest, last := ops[..|ops| - 1], ops[|ops| - 1];
      AcceptedOf(maxMutable, rest)
      + if !last.Flush? && Apply(Run(Empty(maxMutable), rest).0, last).1 == Done then [last] else []
  }

  lemma AcceptedOfSnoc(maxMutable: nat, ops: seq<Op>, op: Op)
    ensures AcceptedOf(maxMutable, []) == []
    ensures AcceptedOf(maxMutable, ops + [op]) ==
      if !op.Flush? && Apply(Run(Empty(maxMutable), ops).0, op).1 == Done then AcceptedOf(maxMutable, ops) + [op]
      else AcceptedOf(maxMutable, ops)
  {
    assert (ops + [op])[..|ops|] == ops;
  }

  lemma RefusedShows(s: State, op: Op)
    ensures Apply(s, op).1 != Done ==> Apply(s, op).0 == s
    ensures op.Flush? ==> View(Apply(s, op).0) == View(s)
  {
    FlushKeepsView(s);
    hide View, Flushed;
  }

  /** Every run shows what its accepted writes leave behind. */
  lemma {:induction false} RunShowsAccepted(maxMutable: nat, ops: seq<Op>)
    ensures View(Run(Empty(maxMutable), ops).0) == Overwritten(AcceptedOf(maxMutable, ops))
    ensures DeletesApply(AcceptedOf(maxMutable, ops)) && NoFlush(AcceptedOf(maxMutable, ops))
    ensures forall w :: w in AcceptedOf(maxMutable, ops) ==> w in Writes(ops)
    decreases |ops|
  {
    if ops == [] {
      EmptyShowsNothing(maxMutable);
    } else {
      var s, rest, last := Empty(maxMutable), ops[..|ops| - 1], ops[|ops| - 1];
      LastSplit(ops);
      RunShowsAccepted(maxMutable, rest);
      RunSnoc(s, rest, last);
      WritesSnoc(rest, last);
      AcceptedOfSnoc(maxMutable, rest, last);
      OverwrittenSnoc(AcceptedOf(maxMutable, rest), last);
      DeletesApplySnoc(AcceptedOf(maxMutable, rest), last);
      var before := Run(s, rest).0;
      RefusedShows(before, last);
      hide Run, Apply, View, Writes, Overwritten, DeletesApply, AcceptedOf;
      if Apply(before, last).1 == Done {
        AcceptedShows(before, last);
      }
    }
  }

  /** The documents in the buffer after accepted writes, with no flushes but those the buffer's size brings. */
  function Buffered(writes: seq<Op>, maxMutable: nat): set<string>
    decreases |writes|
  {
    if writes == [] then {}
    else
      var rest, last := writes[..|writes| - 1], writes[|writes| - 1];
      if last.Flush? then {}
      else
        var ids := Buffered(rest, maxMutable) + {OpId(last)};
        if last.Upsert? && |ids| >= maxMutable then {} else ids
  }

  /** An upsert of a document that is still in the buffer is newer than what was written about it before. */
  predicate Fits(writes: seq<Op>, maxMutable: nat)
    decreases |writes|
  {
    writes == [] ||
    var rest, last := writes[..|writes| - 1], writes[|writes| - 1];
    Fits(rest, maxMutable) && FitsNext(Overwritten(rest), Buffered(rest, maxMutable), last)
  }

  predicate FitsNext(m: map<string, Document>, buffered: set<string>, op: Op)
  {
    op.Upsert? && op.doc.id in buffered && op.doc.id in m ==> m[op.doc.id].version < op.doc.version
  }

  lemma FitsSnoc(writes: seq<Op>, op: Op, maxMutable: nat)
    requires !op.Flush?
    ensures Fits([], maxMutable) && Buffered([], maxMutable) == {}
    ensures Fits(writes + [op], maxMutable) <==>
      Fits(writes, maxMutable) && FitsNext(Overwritten(writes), Buffered(writes, maxMutable), op)
    ensures Buffered(writes + [op], maxMutable) ==
      var ids := Buffered(writes, maxMutable) + {OpId(op)};
      if op.Upsert? && |ids| >= maxMutable then {} else ids
  {
    assert (writes + [op])[..|writes|] == writes;
  }

  /** One more write, at an engine whose buffer is known. */
  lemma FitsStep(s: State, op: Op)
    requires !op.Flush?
    ensures Apply(s, op).1 == Done <==> Applies(View(s), op) && FitsNext(View(s), s.buffer.Keys, op)
    ensures Apply(s, op).0.maxMutable == s.maxMutable
    ensures Apply(s, op).1 == Done ==>
      var ids := s.buffer.Keys + {OpId(op)};
      Apply(s, op).0.buffer.Keys == if op.Upsert? && |ids| >= s.maxMutable then {} else ids
  {
    hide View;
    match op
    case Upsert(doc) => FitsUpsert(s, doc);
    case Delete(_, _, _) =>
  }

  lemma FitsUpsert(s: State, doc: Document)
    ensures Upserted(s, doc).1 == Done <==> FitsNext(View(s), s.buffer.Keys, Op.Upsert(doc))
    ensures Upserted(s, doc).0.maxMutable == s.maxMutable
    ensures Upserted(s, doc).1 == Done ==>
      var ids := s.buffer.Keys + {doc.id};
      Upserted(s, doc).0.buffer.Keys == if |ids| >= s.maxMutable then {} else ids
  {
    assert doc.id in s.buffer ==> doc.id in View(s) && View(s)[doc.id] == s.buffer[doc.id];
    hide View;
    var buffer := s.buffer[doc.id := doc];
    assert buffer.Keys == s.buffer.Keys + {doc.id} && |buffer| == |buffer.Keys|;
  }

  /** An engine of a given size accepts all writes if and only if every deletion finds its document in an older
      version and every upsert of a document in the buffer is newer. */
  lemma {:induction false} AcceptedAtSizeIff(maxMutable: nat, writes: seq<Op>)
    requires NoFlush(writes)
    ensures AllDone(Run(Empty(maxMutable), writes).1) <==> DeletesApply(writes) && Fits(writes, maxMutable)
    ensures AllDone(Run(Empty(maxMutable), writes).1) ==>
      Run(Empty(maxMutable), writes).0.buffer.Keys == Buffered(writes, maxMutable)
    ensures Run(Empty(maxMutable), writes).0.maxMutable == maxMutable
    decreases |writes|
  {
    if writes != [] {
      var s, rest, last := Empty(maxMutable), writes[..|writes| - 1], writes[|writes| - 1];
      LastSplit(writes);
      assert forall i :: 0 <= i < |rest| ==> rest[i] == writes[i];
      AcceptedAtSizeIff(maxMutable, rest);
      RunSnoc(s, rest, last);
      DeletesApplySnoc(rest, last);
      FitsSnoc(rest, last, maxMutable);
      NoFlushWrites(rest);
      var before := Run(s, rest).0;
      hide Run, Apply, View, Overwritten, DeletesApply, AllDone, Fits, FitsNext, Applies, Buffered, OpId;
      AllDoneSnoc(Run(s, rest).1, Apply(before, last).1);
      FitsStep(before, last);
      if AllDone(Run(s, rest).1) {
        AcceptedRunShows(maxMutable, rest);
      }
    }
  }

  lemma {:induction false} FitsButClock(a: seq<Op>, b: seq<Op>, maxMutable: nat)
    requires NoFlush(a) && SameButClock(a, b)
    ensures Fits(a, maxMutable) <==> Fits(b, maxMutable)
    ensures Buffered(a, maxMutable) == Buffered(b, maxMutable)
    decreases |a|
  {
    SameKinds(a, b);
    if a != [] {
      var a', x := a[..|a| - 1], a[|a| - 1];
      var b', y := b[..|b| - 1], b[|b| - 1];
      assert Undated(x) == Undated(y) && !x.Flush? && !y.Flush?;
      LastSplit(a);
      LastSplit(b);
      assert NoFlush(a') && SameButClock(a', b');
      hide Overwritten, Timeless, Overwrite, Applies, Fits, Buffered, NoFlush, SameButClock;
      FitsButClock(a', b', maxMutable);
      OverwrittenButClock(a', b');
      FitsSnoc(a', x, maxMutable);
      FitsSnoc(b', y, maxMutable);
      OverwriteButClock(Overwritten(a'), Overwritten(b'), x, y);
    }
  }

  /** When a replay into an engine of a given size is right: it completes and shows what the live engine shows,
      whatever that has accepted or refused of the logged writes, in whatever order, if and only if every logged
      deletion finds its document in an older version, every logged upsert of a document in the buffer is newer, and
      the log agrees with the accepted writes on the last writes. */
  lemma RestoredAtSizeIff(maxLive: nat, live: seq<Op>, log: seq<Op>, maxMutable: nat, replay: seq<Op>)
    requires NoFlush(log) && OnePerVersion(log) && Among(Writes(live), log) && SameButClock(log, replay)
    ensures Restores(maxLive, live, maxMutable, replay) <==>
      DeletesApply(log) && Fits(log, maxMutable) && SameLasts(AcceptedOf(maxLive, live), log)
  {
    RunShowsAccepted(maxLive, live);
    assert Among(AcceptedOf(maxLive, live), log);
    hide Run, View, Writes, Timeless, SameButClock, AllDone, NoFlush, Overwritten, DeletesApply, SameLasts, Among, Fits,
      OnePerVersion, AcceptedOf;
    OverwrittenButClock(log, replay);
    FitsButClock(log, replay, maxMutable);
    AcceptedAtSizeIff(maxMutable, replay);
    if AllDone(Run(Empty(maxMutable), replay).1) {
      NoFlushWrites(replay);
      AcceptedRunShows(maxMutable, replay);
      LeftAlikeIff(AcceptedOf(maxLive, live), log);
    }
  }
}
