/** Logging and applying are two steps of internal/ingest/service.go under two different locks, so writes may reach the
    engine in another order than the log. What matters is the order per document. */
module Reordering {
  import opened Documents
  import opened Recovery
  import opened Store

  /** The writes about one document. */
  function About(ops: seq<Op>, id: string): (r: seq<Op>)
    ensures forall op :: op in r <==> op in ops && !op.Flush? && OpId(op) == id
    decreases |ops|
  {
    if ops == [] then []
    else
      var last := ops[|ops| - 1];
      LastSplit(ops);
      About(ops[..|ops| - 1], id) + if !last.Flush? && OpId(last) == id then [last] else []
  }

  lemma AboutSnoc(ops: seq<Op>, op: Op, id: string)
    requires !op.Flush?
    ensures About([], id) == []
    ensures About(ops + [op], id) == if OpId(op) == id then About(ops, id) + [op] else About(ops, id)
  {
    assert (ops + [op])[..|ops|] == ops;
  }

  /** Two maps say the same about one document. */
  predicate AgreeOn(m: map<string, Document>, m': map<string, Document>, id: string)
  {
    (id in m <==> id in m') && (id in m ==> m[id] == m'[id])
  }

  lemma WriteIsLocal(m: map<string, Document>, m': map<string, Document>, op: Op, id: string)
    requires !op.Flush? && AgreeOn(m, m', id)
    ensures OpId(op) == id ==> AgreeOn(Write(m, op).0, Write(m', op).0, id) && Write(m, op).1 == Write(m', op).1
    ensures OpId(op) != id ==> AgreeOn(Write(m, op).0, m', id)
  {
  }

  /** What a plain map holds for a document depends on the writes about it alone. */
  lemma {:induction false} AboutDecides(ops: seq<Op>, id: string)
    requires NoFlush(ops)
    ensures AgreeOn(WriteAll(map[], ops).0, WriteAll(map[], About(ops, id)).0, id)
    decreases |ops|
  {
    if ops != [] {
      var rest, last := ops[..|ops| - 1], ops[|ops| - 1];
      LastSplit(ops);
      AboutDecides(rest, id);
      AboutSnoc(rest, last, id);
      WriteAllSnoc(map[], rest, last);
      WriteAllSnoc(map[], About(rest, id), last);
      hide WriteAll, Write, About, AgreeOn, OpId;
      WriteIsLocal(WriteAll(map[], rest).0, WriteAll(map[], About(rest, id)).0, last, id);
    }
  }

  ghost predicate AcceptedAbout(ops: seq<Op>, id: string)
  {
    AllDone(WriteAll(map[], About(ops, id)).1)
  }

  /** So a plain map accepts all writes exactly if it accepts those about each document. */
  lemma {:induction false} AcceptedPerDocument(ops: seq<Op>)
    requires NoFlush(ops)
    ensures AllDone(WriteAll(map[], ops).1) <==> forall id :: AcceptedAbout(ops, id)
    decreases |ops|
  {
    if ops != [] {
      var rest, last := ops[..|ops| - 1], ops[|ops| - 1];
      LastSplit(ops);
      AcceptedPerDocument(rest);
      AboutDecides(rest, OpId(last));
      WriteAllSnoc(map[], rest, last);
      hide WriteAll, Write, About, AllDone, OpId, AgreeOn;
      AllDoneSnoc(WriteAll(map[], rest).1, Write(WriteAll(map[], rest).0, last).1);
      WriteIsLocal(WriteAll(map[], rest).0, WriteAll(map[], About(rest, OpId(last))).0, last, OpId(last));
      forall id
        ensures AcceptedAbout(ops, id) <==>
          AcceptedAbout(rest, id) && (id == OpId(last) ==> Write(WriteAll(map[], rest).0, last).1 == Done)
      {
        AcceptedAboutSnoc(rest, last, id);
      }
      assert AcceptedAbout(ops, OpId(last)) ==> Write(WriteAll(map[], rest).0, last).1 == Done;
    } else {
      assert forall id :: About([], id) == [];
    }
  }

  lemma AcceptedAboutSnoc(ops: seq<Op>, op: Op, id: string)
    requires !op.Flush?
    ensures AcceptedAbout(ops + [op], id) <==>
      AcceptedAbout(ops, id) && (id == OpId(op) ==> Write(WriteAll(map[], About(ops, id)).0, op).1 == Done)
  {
    AboutSnoc(ops, op, id);
    WriteAllSnoc(map[], About(ops, id), op);
    hide WriteAll, Write, About, AllDone, OpId;
    AllDoneSnoc(WriteAll(map[], About(ops, id)).1, Write(WriteAll(map[], About(ops, id)).0, op).1);
  }

  ghost predicate IncreasingAbout(ops: seq<Op>, id: string)
  {
    IncreasingVersions(About(ops, id))
  }

  lemma IncreasingAboutSnoc(ops: seq<Op>, op: Op, id: string)
    requires !op.Flush?
    ensures IncreasingAbout(ops + [op], id) <==> IncreasingAbout(ops, id) && (id == OpId(op) ==> Above(ops, op))
  {
    hide IncreasingVersions, About, OpId, Above;
    AboutSnoc(ops, op, id);
    if id == OpId(op) {
      IncreasingIffAbove(About(ops, id), op);
      AboveIsLocal(ops, op);
    }
  }

  lemma {:induction false} IncreasingPerDocument(ops: seq<Op>)
    requires NoFlush(ops)
    ensures IncreasingVersions(ops) <==> forall id :: IncreasingAbout(ops, id)
    decreases |ops|
  {
    if ops != [] {
      var rest, last := ops[..|ops| - 1], ops[|ops| - 1];
      LastSplit(ops);
      IncreasingPerDocument(rest);
      IncreasingIffAbove(rest, last);
      hide IncreasingVersions, OpId, Above, IncreasingAbout;
      forall id
        ensures IncreasingAbout(ops, id) <==> IncreasingAbout(rest, id) && (id == OpId(last) ==> Above(rest, last))
      {
        IncreasingAboutSnoc(rest, last, id);
      }
      assert IncreasingAbout(ops, OpId(last)) ==> Above(rest, last);
    } else {
      assert forall id :: About([], id) == [];
    }
  }

  /** The op's version is above those of all writes about its document. */
  ghost predicate Above(ops: seq<Op>, op: Op)
    requires !op.Flush?
  {
    forall x :: x in ops && !x.Flush? && OpId(x) == OpId(op) ==> OpVersion(x) < OpVersion(op)
  }

  lemma IncreasingIffAbove(ops: seq<Op>, op: Op)
    requires !op.Flush?
    ensures IncreasingVersions(ops + [op]) <==> IncreasingVersions(ops) && Above(ops, op)
  {
    IncreasingSnoc(ops, op);
    hide OpId, OpVersion, IncreasingVersions;
  }

  lemma AboveIsLocal(ops: seq<Op>, op: Op)
    requires !op.Flush?
    ensures Above(About(ops, OpId(op)), op) <==> Above(ops, op)
  {
    hide OpId, OpVersion;
  }

  /** The same writes about each document, in the same order, whatever happens between them. */
  ghost predicate SamePerDocument(a: seq<Op>, b: seq<Op>)
  {
    forall id :: SameButClock(About(a, id), About(b, id))
  }

  lemma SameAcceptance(a: seq<Op>, b: seq<Op>)
    requires NoFlush(a) && NoFlush(b) && SamePerDocument(a, b)
    ensures AllDone(WriteAll(map[], a).1) <==> AllDone(WriteAll(map[], b).1)
  {
    AcceptedPerDocument(a);
    AcceptedPerDocument(b);
    hide WriteAll, About, AllDone, SameButClock;
    forall id
      ensures AcceptedAbout(a, id) <==> AcceptedAbout(b, id)
    {
      assert SameButClock(About(a, id), About(b, id));
      SameRunButClock(About(a, id), About(b, id));
    }
    hide AcceptedAbout;
  }

  lemma SameIncrease(a: seq<Op>, b: seq<Op>)
    requires NoFlush(a) && NoFlush(b) && SamePerDocument(a, b) && IncreasingVersions(a)
    ensures IncreasingVersions(b)
  {
    IncreasingPerDocument(a);
    IncreasingPerDocument(b);
    hide IncreasingVersions, About, SameButClock;
    forall id
      ensures IncreasingAbout(b, id)
    {
      assert SameButClock(About(a, id), About(b, id)) && IncreasingAbout(a, id);
      SameVersionsButClock(About(a, id), About(b, id));
    }
  }

  /** Writes that are the same per document make the same map, up to the time stamps of tombstones. */
  lemma SamePerDocumentSameMap(a: seq<Op>, b: seq<Op>)
    requires NoFlush(a) && NoFlush(b) && SamePerDocument(a, b)
    ensures Timeless(WriteAll(map[], a).0) == Timeless(WriteAll(map[], b).0)
  {
    hide WriteAll, About, AllDone, SameButClock, Timeless;
    var x, y := WriteAll(map[], a).0, WriteAll(map[], b).0;
    forall id
      ensures TimelessAgree(x, y, id)
    {
      assert SameButClock(About(a, id), About(b, id));
      SameRunButClock(About(a, id), About(b, id));
      AboutDecides(a, id);
      AboutDecides(b, id);
      AgreementsCompose(x, WriteAll(map[], About(a, id)).0, WriteAll(map[], About(b, id)).0, y, id);
    }
    TimelessEverywhere(x, y);
  }

  ghost predicate TimelessAgree(m: map<string, Document>, m': map<string, Document>, id: string)
  {
    AgreeOn(Timeless(m), Timeless(m'), id)
  }

  lemma AgreementsCompose(x: map<string, Document>, x': map<string, Document>, y': map<string, Document>,
                          y: map<string, Document>, id: string)
    requires AgreeOn(x, x', id) && Timeless(x') == Timeless(y') && AgreeOn(y, y', id)
    ensures TimelessAgree(x, y, id)
  {
    assert id in x' <==> id in Timeless(x');
    assert id in y' <==> id in Timeless(y');
  }

  lemma TimelessEverywhere(x: map<string, Document>, y: map<string, Document>)
    requires forall id :: TimelessAgree(x, y, id)
    ensures Timeless(x) == Timeless(y)
  {
    hide Timeless;
    forall id
      ensures id in Timeless(x) <==> id in Timeless(y)
      ensures id in Timeless(x) ==> Timeless(x)[id] == Timeless(y)[id]
    {
      assert TimelessAgree(x, y, id);
    }
  }

  /** Recovery equivalence with concurrent writers: the engine may have seen the logged writes in another order, as long
      as the order per document is that of the log. */
  lemma RecoveryDespiteReordering(max1: nat, live: seq<Op>, max2: nat, replay: seq<Op>)
    requires AllDone(Run(Empty(max1), live).1) && IncreasingVersions(Writes(live))
    requires SamePerDocument(Writes(live), Writes(replay))
    ensures AllDone(Run(Empty(max2), replay).1)
    ensures Timeless(View(Run(Empty(max2), replay).0)) == Timeless(View(Run(Empty(max1), live).0))
  {
    WritesDoNotFlush(live);
    WritesDoNotFlush(replay);
    hide Run, WriteAll, View, Writes, Timeless, SamePerDocument, IncreasingVersions, AllDone, NoFlush;
    SamePerDocumentSameMap(Writes(live), Writes(replay));
    SameAcceptance(Writes(live), Writes(replay));
    SameIncrease(Writes(live), Writes(replay));
    RunsLikeTheMap(max1, live);
    RunsLikeTheMap(max2, replay);
  }

  lemma WritesDoNotFlush(ops: seq<Op>)
    ensures NoFlush(Writes(ops))
  {
    hide Writes;
    forall i | 0 <= i < |Writes(ops)|
      ensures !Writes(ops)[i].Flush?
    {
      assert Writes(ops)[i] in Writes(ops);
    }
  }

  /** If two upserts of one document are logged in the order of their versions but reach the engine the other way round,
      with a flush between them, both are accepted, live as well as in the replay, and the two end up showing different
      versions. */
  lemma ReorderedUpsertsDiverge(maxMutable: nat, older: Document, newer: Document)
    requires maxMutable >= 2 && older.id == newer.id && older.version < newer.version
    ensures
      var live := Run(Empty(maxMutable), [Upsert(newer), Flush, Upsert(older)]);
      var replay := Run(Empty(maxMutable), [Upsert(older), Upsert(newer)]);
      && AllDone(live.1) && AllDone(replay.1) && |live.1| == |replay.1| == 2
      && View(live.0) == map[older.id := older] && View(replay.0) == map[older.id := newer]
  {
    FlushedBetween(maxMutable, older, newer);
    BufferedInOrder(maxMutable, older, newer);
  }

  lemma FirstUpsert(s: State, doc: Document)
    requires s.buffer == map[] && s.maxMutable >= 2
    ensures Apply(s, Upsert(doc)) == (s.(buffer := map[doc.id := doc]), Done)
  {
    assert s.buffer[doc.id := doc] == map[doc.id := doc];
    assert |map[doc.id := doc]| == 1;
  }

  lemma FlushedBetween(maxMutable: nat, older: Document, newer: Document)
    requires maxMutable >= 2 && older.id == newer.id
    ensures
      var (end, replies) := Run(Empty(maxMutable), [Upsert(newer), Flush, Upsert(older)]);
      replies == [Done, Done] && View(end) == map[older.id := older]
  {
    var id, s := older.id, Empty(maxMutable);
    var s1, s2 := s.(buffer := map[id := newer]), s.(segments := [map[id := newer]]);
    var s3 := s2.(buffer := map[id := older]);
    FirstUpsert(s, newer);
    FirstUpsert(s2, older);
    assert [] + [s1.buffer] == s2.segments && id in s1.buffer;
    assert Apply(s1, Flush) == (s2, Done);
    LayersOf(s3);
    hide Apply, Run, View, Empty;
    RunSnoc(s, [], Upsert(newer));
    RunSnoc(s, [Upsert(newer)], Flush);
    RunSnoc(s, [Upsert(newer), Flush], Upsert(older));
    assert [] + [Upsert(newer)] == [Upsert(newer)] && [Upsert(newer)] + [Flush] == [Upsert(newer), Flush];
    assert [Upsert(newer), Flush] + [Upsert(older)] == [Upsert(newer), Flush, Upsert(older)];
  }

  lemma BufferedInOrder(maxMutable: nat, older: Document, newer: Document)
    requires maxMutable >= 2 && older.id == newer.id && older.version < newer.version
    ensures
      var (end, replies) := Run(Empty(maxMutable), [Upsert(older), Upsert(newer)]);
      replies == [Done, Done] && View(end) == map[older.id := newer]
  {
    var id, s := older.id, Empty(maxMutable);
    var t1, t2 := s.(buffer := map[id := older]), s.(buffer := map[id := newer]);
    FirstUpsert(s, older);
    assert t1.buffer[id := newer] == t2.buffer;
    assert Apply(t1, Upsert(newer)) == (t2, Done);
    LayersOf(t2);
    hide Apply, Run, View, Empty;
    RunSnoc(s, [], Upsert(older));
    RunSnoc(s, [Upsert(older)], Upsert(newer));
    assert [] + [Upsert(older)] == [Upsert(older)]
      && [Upsert(older)] + [Upsert(newer)] == [Upsert(older), Upsert(newer)];
  }

  lemma LayersOf(s: State)
    ensures s.segments == [] ==> View(s) == s.buffer
    ensures |s.segments| == 1 ==> View(s) == s.segments[0] + s.buffer
  {
    if |s.segments| == 1 {
      assert s.segments[..0] == [];
      assert Layered(s.segments) == map[] + s.segments[0] == s.segments[0];
    } else if s.segments == [] {
      assert map[] + s.buffer == s.buffer;
    }
  }
}
