/** Recovery by replay (internal/storage/recovery.go): when a replay of logged writes completes, and what it rebuilds,
    under any flush schedule. */
module Recovery {
  import opened Documents
  import opened Matching
  import opened Query
  import opened Search
  import opened Store

  ghost predicate AllDone(replies: seq<Status>)
  {
    forall i :: 0 <= i < |replies| ==> replies[i] == Done
  }

  ghost predicate NoFlush(ops: seq<Op>)
  {
    forall i :: 0 <= i < |ops| ==> !ops[i].Flush?
  }

  // ----- which logs can be replayed

  /** Some earlier write of the log is about this document. */
  ghost predicate Mentioned(ops: seq<Op>, id: string)
  {
    exists i :: 0 <= i < |ops| && !ops[i].Flush? && OpId(ops[i]) == id
  }

  /** What can be read off a log: every deletion is of a document written before, and versions of one document strictly
      increase. */
  ghost predicate Replayable(writes: seq<Op>)
  {
    && IncreasingVersions(writes)
    && forall j :: 0 <= j < |writes| && writes[j].Delete? ==> Mentioned(writes[..j], writes[j].id)
  }

  /** The op may follow the log. */
  ghost predicate MayFollow(writes: seq<Op>, op: Op)
    requires !op.Flush?
  {
    && (forall i :: 0 <= i < |writes| && !writes[i].Flush? && OpId(writes[i]) == OpId(op) ==>
      OpVersion(writes[i]) < OpVersion(op))
    && (op.Delete? ==> Mentioned(writes, op.id))
  }

  lemma ReplayableSnoc(writes: seq<Op>, op: Op)
    requires !op.Flush?
    ensures Replayable([])
    ensures Replayable(writes + [op]) <==> Replayable(writes) && MayFollow(writes, op)
  {
    var all := writes + [op];
    IncreasingSnoc(writes, op);
    assert forall j :: 0 <= j < |writes| ==> all[j] == writes[j];
    assert forall j :: 0 <= j <= |writes| ==> all[..j] == writes[..j];
    assert writes[..|writes|] == writes && all[|writes|] == op;
    hide Mentioned, IncreasingVersions;
    if Replayable(all) {
      forall j | 0 <= j < |writes| && writes[j].Delete?
        ensures Mentioned(writes[..j], writes[j].id)
      {
        assert all[j].Delete? && Mentioned(all[..j], all[j].id);
      }
    }
  }

  lemma IncreasingSnoc(ops: seq<Op>, op: Op)
    requires !op.Flush?
    ensures IncreasingVersions(ops + [op]) <==>
      && IncreasingVersions(ops)
      && (forall i ::
        0 <= i < |ops| && !ops[i].Flush? && OpId(ops[i]) == OpId(op) ==> OpVersion(ops[i]) < OpVersion(op))
  {
    hide OpId, OpVersion;
    var all := ops + [op];
    assert forall j :: 0 <= j < |ops| ==> all[j] == ops[j];
    assert all[|ops|] == op;
  }

  /** After writes that were all accepted the map holds exactly the documents mentioned, each at the highest version
      mentioned. */
  ghost predicate MapOf(writes: seq<Op>, m: map<string, Document>)
  {
    && (forall id :: id in m <==> Mentioned(writes, id))
    && NoneAbove(writes, m)
    && (forall id :: id in m ==> Reached(writes, id, m[id].version))
  }

  ghost predicate NoneAbove(writes: seq<Op>, m: map<string, Document>)
  {
    forall i :: 0 <= i < |writes| && !writes[i].Flush? && OpId(writes[i]) in m
      ==> OpVersion(writes[i]) <= m[OpId(writes[i])].version
  }

  ghost predicate Reached(writes: seq<Op>, id: string, version: nat)
  {
    exists i :: 0 <= i < |writes| && !writes[i].Flush? && OpId(writes[i]) == id && OpVersion(writes[i]) == version
  }

  lemma AcceptedIffMayFollow(writes: seq<Op>, m: map<string, Document>, op: Op)
    requires MapOf(writes, m) && !op.Flush?
    ensures Write(m, op).1 == Done <==> MayFollow(writes, op)
  {
    var id := OpId(op);
    if id in m {
      var i :| 0 <= i < |writes| && !writes[i].Flush? && OpId(writes[i]) == id && OpVersion(writes[i]) == m[id].version;
      assert Mentioned(writes, id);
    }
  }

  lemma MentionedSnoc(writes: seq<Op>, op: Op, id: string)
    requires !op.Flush?
    ensures Mentioned(writes + [op], id) <==> Mentioned(writes, id) || OpId(op) == id
  {
    var all := writes + [op];
    assert all[|writes|] == op;
    if Mentioned(writes, id) {
      var i :| 0 <= i < |writes| && !writes[i].Flush? && OpId(writes[i]) == id;
      assert all[i] == writes[i];
    }
  }

  lemma AcceptedWriteIs(m: map<string, Document>, op: Op)
    requires !op.Flush? && Write(m, op).1 == Done
    ensures
      var m' := Write(m, op).0;
      && m'.Keys == m.Keys + {OpId(op)} && m'[OpId(op)].version == OpVersion(op)
      && (OpId(op) in m ==> m[OpId(op)].version < OpVersion(op))
      && forall id :: id in m && id != OpId(op) ==> m'[id] == m[id]
  {
  }

  lemma ReachedSnoc(writes: seq<Op>, op: Op, id: string, version: nat)
    requires !op.Flush?
    requires Reached(writes, id, version) || (OpId(op) == id && OpVersion(op) == version)
    ensures Reached(writes + [op], id, version)
  {
    var all := writes + [op];
    assert all[|writes|] == op;
    if Reached(writes, id, version) {
      var i :| 0 <= i < |writes| && !writes[i].Flush? && OpId(writes[i]) == id && OpVersion(writes[i]) == version;
      assert all[i] == writes[i];
    }
  }

  lemma NoneAboveSnoc(writes: seq<Op>, m: map<string, Document>, op: Op, m': map<string, Document>)
    requires NoneAbove(writes, m) && !op.Flush? && (forall id :: id in m <==> Mentioned(writes, id))
    requires OpId(op) in m' && m'[OpId(op)].version == OpVersion(op)
    requires OpId(op) in m ==> m[OpId(op)].version < OpVersion(op)
    requires forall id :: id in m && id != OpId(op) ==> id in m' && m'[id] == m[id]
    ensures NoneAbove(writes + [op], m')
  {
    hide OpId, OpVersion;
    var all := writes + [op];
    forall i | 0 <= i < |all| && !all[i].Flush? && OpId(all[i]) in m'
      ensures OpVersion(all[i]) <= m'[OpId(all[i])].version
    {
      if i < |writes| {
        assert all[i] == writes[i];
        assert Mentioned(writes, OpId(writes[i]));
      }
    }
  }

  lemma MapOfSnoc(writes: seq<Op>, m: map<string, Document>, op: Op)
    requires MapOf(writes, m) && !op.Flush? && Write(m, op).1 == Done
    ensures MapOf(writes + [op], Write(m, op).0)
  {
    var m' := Write(m, op).0;
    AcceptedWriteIs(m, op);
    hide Write, OpId, OpVersion, Mentioned, Reached, NoneAbove;
    NoneAboveSnoc(writes, m, op, m');
    forall id
      ensures id in m' <==> Mentioned(writes + [op], id)
    {
      MentionedSnoc(writes, op, id);
    }
    forall id | id in m'
      ensures Reached(writes + [op], id, m'[id].version)
    {
      ReachedSnoc(writes, op, id, m'[id].version);
    }
  }

  lemma AllDoneSnoc(replies: seq<Status>, reply: Status)
    ensures AllDone([])
    ensures AllDone(replies + [reply]) <==> AllDone(replies) && reply == Done
  {
    var all := replies + [reply];
    assert all[|replies|] == reply && forall i :: 0 <= i < |replies| ==> all[i] == replies[i];
  }

  /** The plain map accepts a whole log exactly if it is replayable. */
  lemma {:induction false} MapAcceptsIffReplayable(writes: seq<Op>)
    requires NoFlush(writes)
    ensures AllDone(WriteAll(map[], writes).1) <==> Replayable(writes)
    ensures AllDone(WriteAll(map[], writes).1) ==> MapOf(writes, WriteAll(map[], writes).0)
    decreases |writes|
  {
    if writes == [] {
      return;
    }
    var rest, last := writes[..|writes| - 1], writes[|writes| - 1];
    LastSplit(writes);
    assert forall i :: 0 <= i < |rest| ==> rest[i] == writes[i];
    MapAcceptsIffReplayable(rest);
    WriteAllSnoc(map[], rest, last);
    hide WriteAll, Write, MapOf, Replayable, AllDone, MayFollow;
    AllDoneSnoc(WriteAll(map[], rest).1, Write(WriteAll(map[], rest).0, last).1);
    ReplayableSnoc(rest, last);
    if AllDone(WriteAll(map[], rest).1) {
      AcceptedIffMayFollow(rest, WriteAll(map[], rest).0, last);
      if Write(WriteAll(map[], rest).0, last).1 == Done {
        MapOfSnoc(rest, WriteAll(map[], rest).0, last);
      }
    }
  }

  /** A store that never flushes is the plain map. */
  lemma {:induction false} UnflushedIsTheMap(maxMutable: nat, writes: seq<Op>)
    requires NoFlush(writes) && |writes| < maxMutable
    ensures
      var (end, replies) := Run(Empty(maxMutable), writes);
      && end.segments == [] && |end.buffer| <= |writes| && end.maxMutable == maxMutable
      && (end.buffer, replies) == WriteAll(map[], writes)
    decreases |writes|
  {
    if writes == [] {
      return;
    }
    var rest, last := writes[..|writes| - 1], writes[|writes| - 1];
    LastSplit(writes);
    UnflushedIsTheMap(maxMutable, rest);
    RunSnoc(Empty(maxMutable), rest, last);
    WriteAllSnoc(map[], rest, last);
    hide Run, WriteAll;
    UnflushedStep(Run(Empty(maxMutable), rest).0, last);
  }

  lemma UnflushedStep(s: State, op: Op)
    requires s.segments == [] && |s.buffer| + 1 < s.maxMutable && !op.Flush?
    ensures
      var s' := Apply(s, op).0;
      && s'.segments == [] && |s'.buffer| <= |s.buffer| + 1 && s'.maxMutable == s.maxMutable
      && (s'.buffer, Apply(s, op).1) == Write(s.buffer, op)
  {
    ViewOfUnflushed(s);
    hide View, Flushed;
    match op
    case Upsert(doc) => OneMoreEntry(s.buffer, doc.id, doc);
    case Delete(id, version, now) =>
      if id in s.buffer {
        OneMoreEntry(s.buffer, id, Tombstone(s.buffer[id], version, now));
      }
  }

  lemma ViewOfUnflushed(s: State)
    requires s.segments == []
    ensures View(s) == s.buffer
  {
    assert map[] + s.buffer == s.buffer;
  }

  lemma OneMoreEntry(m: map<string, Document>, id: string, d: Document)
    ensures |m[id := d]| <= |m| + 1
  {
    assert (m[id := d]).Keys == m.Keys + {id};
    assert |m[id := d]| == |(m[id := d]).Keys| && |m| == |m.Keys|;
  }

  /** A log can be replayed into a fresh engine under every flush schedule if and only if it is replayable: the code
      stops a replay at the first refused record. */
  lemma ReplayCompletesIff(writes: seq<Op>)
    requires NoFlush(writes)
    ensures
      (forall maxMutable: nat, ops :: Writes(ops) == writes ==> AllDone(Run(Empty(maxMutable), ops).1))
      <==> Replayable(writes)
  {
    MapAcceptsIffReplayable(writes);
    if Replayable(writes) {
      forall maxMutable: nat, ops | Writes(ops) == writes
        ensures AllDone(Run(Empty(maxMutable), ops).1)
      {
        RunsLikeTheMap(maxMutable, ops);
      }
    } else {
      var room := |writes| + 1;
      UnflushedIsTheMap(room, writes);
      WritesOfWrites(writes);
      assert !AllDone(Run(Empty(room), writes).1);
    }
  }

  /** What may be replayed may be replayed up to any point. */
  lemma {:induction false} ReplayablePrefix(writes: seq<Op>, k: nat)
    requires NoFlush(writes) && Replayable(writes) && k <= |writes|
    ensures Replayable(writes[..k])
    decreases |writes|
  {
    if k == |writes| {
      assert writes[..k] == writes;
    } else {
      var rest, last := writes[..|writes| - 1], writes[|writes| - 1];
      LastSplit(writes);
      hide Replayable, MayFollow;
      ReplayableSnoc(rest, last);
      assert rest[..k] == writes[..k];
      ReplayablePrefix(rest, k);
    }
  }

  /** The first write that may not follow those before it. */
  lemma {:induction false} FirstIrregular(writes: seq<Op>) returns (k: nat)
    requires NoFlush(writes) && !Replayable(writes)
    ensures k < |writes| && Replayable(writes[..k]) && !MayFollow(writes[..k], writes[k])
    decreases |writes|
  {
    if writes == [] {
      ReplayableSnoc([], Op.Delete("", 0, 0));
      assert false;
    } else {
      var rest, last := writes[..|writes| - 1], writes[|writes| - 1];
      LastSplit(writes);
      hide Replayable, MayFollow;
      ReplayableSnoc(rest, last);
      if Replayable(rest) {
        k := |rest|;
      } else {
        k := FirstIrregular(rest);
        assert rest[..k] == writes[..k];
      }
    }
  }

  lemma RunsLikeTheMap(maxMutable: nat, ops: seq<Op>)
    requires IncreasingVersions(Writes(ops))
    ensures Run(Empty(maxMutable), ops).1 == WriteAll(map[], Writes(ops)).1
    ensures View(Run(Empty(maxMutable), ops).0) == WriteAll(map[], Writes(ops)).0
  {
    EmptyShowsNothing(maxMutable);
    hide Run, WriteAll, View, Writes, NoStaleUpsert, IncreasingVersions;
    IncreasingIsNeverStale(Writes(ops));
    NoStaleWithFlushes(map[], ops);
    WritesDecide(map[], ops);
    RefinesTheMap(Empty(maxMutable), ops);
  }

  // ----- what a replay rebuilds

  /** The same operation whenever it happens: only a deletion's time stamp depends on the clock. */
  function Undated(op: Op): Op
  {
    if op.Delete? then op.(now := 0) else op
  }

  ghost predicate SameButClock(a: seq<Op>, b: seq<Op>)
  {
    |a| == |b| && forall i :: 0 <= i < |a| ==> Undated(a[i]) == Undated(b[i])
  }

  /** A map without the time stamps of its tombstones. */
  function Timeless(m: map<string, Document>): map<string, Document>
  {
    map id | id in m :: if m[id].deleted then m[id].(updatedAt := 0) else m[id]
  }

  lemma SameWriteButClock(m: map<string, Document>, m': map<string, Document>, op: Op, op': Op)
    requires Timeless(m) == Timeless(m') && Undated(op) == Undated(op')
    ensures Timeless(Write(m, op).0) == Timeless(Write(m', op').0)
    ensures Write(m, op).1 == Write(m', op').1
  {
    assert m.Keys == Timeless(m).Keys && m'.Keys == Timeless(m').Keys;
    forall id | id in m
      ensures id in m' && m[id].version == m'[id].version
      ensures Tombstone(m[id], 0, 0) == Tombstone(m'[id], 0, 0)
    {
      assert Timeless(m)[id] == Timeless(m')[id];
    }
    match op
    case Upsert(doc) =>
      if Write(m, op).1 == Done {
        TimelessUpdate(m, doc.id, doc);
        TimelessUpdate(m', doc.id, doc);
      }
    case Delete(id, version, now) =>
      if Write(m, op).1 == Done {
        var t, t' := Tombstone(m[id], version, now), Tombstone(m'[id], version, op'.now);
        TimelessUpdate(m, id, t);
        TimelessUpdate(m', id, t');
        assert t.(updatedAt := 0) == t'.(updatedAt := 0);
      }
    case Flush =>
  }

  lemma TimelessUpdate(m: map<string, Document>, id: string, d: Document)
    ensures Timeless(m[id := d]) == Timeless(m)[id := if d.deleted then d.(updatedAt := 0) else d]
  {
  }

  lemma {:induction false} SameRunButClock(a: seq<Op>, b: seq<Op>)
    requires SameButClock(a, b)
    ensures Timeless(WriteAll(map[], a).0) == Timeless(WriteAll(map[], b).0)
    ensures WriteAll(map[], a).1 == WriteAll(map[], b).1
    decreases |a|
  {
    if a == [] {
      return;
    }
    var a', x := a[..|a| - 1], a[|a| - 1];
    var b', y := b[..|b| - 1], b[|b| - 1];
    LastSplit(a);
    LastSplit(b);
    SameRunButClock(a', b');
    WriteAllSnoc(map[], a', x);
    WriteAllSnoc(map[], b', y);
    assert Undated(x) == Undated(y);
    hide WriteAll, Write, Timeless, SameButClock;
    SameWriteButClock(WriteAll(map[], a').0, WriteAll(map[], b').0, x, y);
  }

  lemma SameVersionsButClock(a: seq<Op>, b: seq<Op>)
    requires SameButClock(a, b) && IncreasingVersions(a)
    ensures IncreasingVersions(b)
  {
    forall i | 0 <= i < |a|
      ensures a[i].Flush? == b[i].Flush? && (!a[i].Flush? ==>
        OpId(a[i]) == OpId(b[i]) && OpVersion(a[i]) == OpVersion(b[i]))
    {
      assert Undated(a[i]) == Undated(b[i]);
    }
  }

  /** Whether a log can be replayed does not depend on the clock. */
  lemma ReplayableButClock(a: seq<Op>, b: seq<Op>)
    requires SameButClock(a, b) && NoFlush(a) && NoFlush(b)
    ensures Replayable(a) <==> Replayable(b)
  {
    hide Replayable, WriteAll, AllDone, MapOf, SameButClock;
    MapAcceptsIffReplayable(a);
    MapAcceptsIffReplayable(b);
    SameRunButClock(a, b);
  }

  /** Recovery equivalence: if a live engine accepted all writes and their versions increase, then replaying them at any
      other time, under any other flush schedule, never aborts and shows the same documents, up to the time stamps of
      tombstones. */
  lemma RecoveryEquivalence(max1: nat, live: seq<Op>, max2: nat, replay: seq<Op>)
    requires AllDone(Run(Empty(max1), live).1) && IncreasingVersions(Writes(live))
    requires SameButClock(Writes(live), Writes(replay))
    ensures AllDone(Run(Empty(max2), replay).1)
    ensures Timeless(View(Run(Empty(max2), replay).0)) == Timeless(View(Run(Empty(max1), live).0))
  {
    hide Run, WriteAll, View, Writes, Timeless, SameButClock, IncreasingVersions;
    SameVersionsButClock(Writes(live), Writes(replay));
    RunsLikeTheMap(max1, live);
    RunsLikeTheMap(max2, replay);
    SameRunButClock(Writes(live), Writes(replay));
  }

  // ----- what a replay that stops has lost

  /** No document is gone or older. */
  predicate NotBehind(m: map<string, Document>, m': map<string, Document>)
  {
    forall id :: id in m ==> id in m' && m[id].version <= m'[id].version
  }

  /** Some document is new or newer. */
  predicate Ahead(m: map<string, Document>, m': map<string, Document>)
  {
    exists id :: id in m' && (id in m ==> m[id].version < m'[id].version)
  }

  ghost predicate SomeDone(replies: seq<Status>)
  {
    exists i :: 0 <= i < |replies| && replies[i] == Done
  }

  lemma SomeDoneSnoc(replies: seq<Status>, reply: Status)
    ensures SomeDone(replies + [reply]) <==> SomeDone(replies) || reply == Done
  {
    var all := replies + [reply];
    assert all[|replies|] == reply && forall i :: 0 <= i < |replies| ==> all[i] == replies[i];
  }

  /** The map moves on exactly if some write is accepted. */
  lemma {:induction false} AcceptedWritesShow(m: map<string, Document>, writes: seq<Op>)
    requires NoFlush(writes)
    ensures
      var (m', replies) := WriteAll(m, writes);
      && |replies| == |writes|
      && NotBehind(m, m')
      && (if SomeDone(replies) then Ahead(m, m') else m' == m)
    decreases |writes|
  {
    if writes != [] {
      var rest, last := writes[..|writes| - 1], writes[|writes| - 1];
      LastSplit(writes);
      AcceptedWritesShow(m, rest);
      WriteAllSnoc(m, rest, last);
      var before := WriteAll(m, rest).0;
      hide WriteAll;
      SomeDoneSnoc(WriteAll(m, rest).1, Write(before, last).1);
      hide SomeDone;
      OneWriteShows(m, before, last);
    }
  }

  lemma OneWriteShows(m: map<string, Document>, before: map<string, Document>, op: Op)
    requires !op.Flush? && NotBehind(m, before)
    ensures
      var (after, status) := Write(before, op);
      && NotBehind(m, after)
      && (status == Done ==> Ahead(m, after))
      && (status != Done ==> after == before)
      && (Ahead(m, before) ==> Ahead(m, after))
  {
    var (after, status) := Write(before, op);
    if status == Done {
      AcceptedWriteIs(before, op);
      hide Write, OpId, OpVersion;
      assert NotBehind(before, after);
      var id := OpId(op);
      assert id in after && (id in m ==> m[id].version < after[id].version);
    } else {
      assert after == before;
    }
  }

  lemma AheadIsDifferent(m: map<string, Document>, m': map<string, Document>)
    requires Ahead(m, m')
    ensures Timeless(m) != Timeless(m')
  {
    var id :| id in m' && (id in m ==> m[id].version < m'[id].version);
    assert id in Timeless(m');
    if id in m {
      assert Timeless(m)[id].version == m[id].version && Timeless(m')[id].version == m'[id].version;
    }
  }

  /** What the first k writes make of a plain map is what all of them make of it, unless a later one is accepted. */
  lemma PrefixIsBehindIff(writes: seq<Op>, k: nat)
    requires NoFlush(writes) && k <= |writes|
    ensures |WriteAll(map[], writes).1| == |writes|
    ensures
      Timeless(WriteAll(map[], writes[..k]).0) != Timeless(WriteAll(map[], writes).0)
      <==> exists i :: k <= i < |writes| && WriteAll(map[], writes).1[i] == Done
  {
    var before, after := writes[..k], writes[k..];
    assert writes == before + after;
    AcceptedWritesShow(map[], before);
    AcceptedWritesShow(WriteAll(map[], before).0, after);
    WriteAllConcat(map[], before, after);
    hide WriteAll, NotBehind, Ahead, Timeless;
    SomeDoneBehind(WriteAll(map[], before).1, WriteAll(WriteAll(map[], before).0, after).1);
    hide SomeDone;
    if SomeDone(WriteAll(WriteAll(map[], before).0, after).1) {
      AheadIsDifferent(WriteAll(map[], before).0, WriteAll(map[], writes).0);
    }
  }

  lemma SomeDoneBehind(a: seq<Status>, b: seq<Status>)
    ensures SomeDone(b) <==> exists i :: |a| <= i < |a + b| && (a + b)[i] == Done
  {
    if SomeDone(b) {
      var i :| 0 <= i < |b| && b[i] == Done;
      assert (a + b)[|a| + i] == Done;
    }
    if i :| |a| <= i < |a + b| && (a + b)[i] == Done {
      assert b[i - |a|] == Done;
    }
  }

  /** A recovered engine answers every search like the lost one: tombstones are never hits. */
  lemma TimelessSearch(s: Setup, r: Request, view: map<string, Document>, view': map<string, Document>)
    requires Timeless(view) == Timeless(view')
    ensures Ranking(s, r, view) == Ranking(s, r, view')
  {
    hide Evaluate, AllFiltersMatch;
    assert view.Keys == Timeless(view).Keys && view'.Keys == Timeless(view').Keys;
    assert |view| == |view.Keys| && |view'| == |view'.Keys|;
    forall id | id in view
      ensures id in view' && (view[id].deleted <==> view'[id].deleted) && (!view[id].deleted ==> view[id] == view'[id])
    {
      assert Timeless(view)[id] == Timeless(view')[id];
    }
    hide Timeless;
    assert HitsAmong(s, r, view, view.Keys) == HitsAmong(s, r, view', view'.Keys);
  }
}
