/** The log-structured store of internal/index/index.go as a value: a mutable buffer over a stack of
    immutable segments, and the plain versioned map it has to agree with. */
module Store {
  import opened Documents

  datatype Status = Done | VersionConflict | NotFound

  datatype Op = Upsert(doc: Document) | Delete(id: string, version: nat, now: int) | Flush

  datatype State = State(segments: seq<map<string, Document>>, buffer: map<string, Document>, maxMutable: nat)

  function Empty(maxMutable: nat): State
  {
    State([], map[], maxMutable)
  }

  function Layered(segments: seq<map<string, Document>>): map<string, Document>
  {
    if segments == [] then map[] else Layered(segments[..|segments| - 1]) + segments[|segments| - 1]
  }

  /** Newest wins: the buffer over the segments, later segments over earlier ones. */
  function View(s: State): map<string, Document>
  {
    Layered(s.segments) + s.buffer
  }

  function Tombstone(d: Document, version: nat, now: int): Document
  {
    d.(version := version, deleted := true, updatedAt := now)
  }

  // ----- the store's operations

  function Flushed(s: State): State
  {
    if s.buffer == map[] then s else State(s.segments + [s.buffer], map[], s.maxMutable)
  }

  /** An upsert's version is compared with the buffer only. */
  function Upserted(s: State, doc: Document): (State, Status)
  {
    if doc.id in s.buffer && doc.version <= s.buffer[doc.id].version then (s, VersionConflict)
    else
      var s' := s.(buffer := s.buffer[doc.id := doc]);
      (if |s'.buffer| >= s.maxMutable then Flushed(s') else s', Done)
  }

  /** A deletion's version is compared with the newest visible copy. It never flushes. */
  function Deleted(s: State, id: string, version: nat, now: int): (State, Status)
  {
    if id !in View(s) then (s, NotFound)
    else if version <= View(s)[id].version then (s, VersionConflict)
    else (s.(buffer := s.buffer[id := Tombstone(View(s)[id], version, now)]), Done)
  }

  function Apply(s: State, op: Op): (State, Status)
  {
    match op
    case Upsert(doc) => Upserted(s, doc)
    case Delete(id, version, now) => Deleted(s, id, version, now)
    case Flush => (Flushed(s), Done)
  }

  /** A whole run; the replies are those to the writes, flushes answer nothing. */
  function Run(s: State, ops: seq<Op>): (State, seq<Status>)
    decreases |ops|
  {
    if ops == [] then (s, [])
    else
      var (before, replies) := Run(s, ops[..|ops| - 1]);
      var (after, reply) := Apply(before, ops[|ops| - 1]);
      (after, if ops[|ops| - 1].Flush? then replies else replies + [reply])
  }

  // ----- the plain map

  function OpId(op: Op): string
    requires !op.Flush?
  {
    if op.Upsert? then op.doc.id else op.id
  }

  function OpVersion(op: Op): nat
    requires !op.Flush?
  {
    if op.Upsert? then op.doc.version else op.version
  }

  /** One map from document id to newest document, every write checked against it. */
  function Write(m: map<string, Document>, op: Op): (map<string, Document>, Status)
  {
    match op
    case Upsert(doc) =>
      if doc.id in m && doc.version <= m[doc.id].version then (m, VersionConflict) else (m[doc.id := doc], Done)
    case Delete(id, version, now) =>
      if id !in m then (m, NotFound)
      else if version <= m[id].version then (m, VersionConflict)
      else (m[id := Tombstone(m[id], version, now)], Done)
    case Flush => (m, Done)
  }

  function WriteAll(m: map<string, Document>, ops: seq<Op>): (map<string, Document>, seq<Status>)
    decreases |ops|
  {
    if ops == [] then (m, [])
    else
      var (before, replies) := WriteAll(m, ops[..|ops| - 1]);
      var (after, reply) := Write(before, ops[|ops| - 1]);
      (after, if ops[|ops| - 1].Flush? then replies else replies + [reply])
  }

  /** The writes of a run, without its flushes. */
  function Writes(ops: seq<Op>): (r: seq<Op>)
    ensures forall op :: op in r ==> op in ops && !op.Flush?
    decreases |ops|
  {
    if ops == [] then []
    else Writes(ops[..|ops| - 1]) + if ops[|ops| - 1].Flush? then [] else [ops[|ops| - 1]]
  }

  /** The store answers and ends up like the plain map. */
  ghost predicate LikeTheMap(s: State, ops: seq<Op>)
  {
    View(Run(s, ops).0) == WriteAll(View(s), ops).0 && Run(s, ops).1 == WriteAll(View(s), ops).1
  }

  /** No upsert of the run is older than, or as old as, what the map already holds. */
  ghost predicate NoStaleUpsert(m: map<string, Document>, ops: seq<Op>)
  {
    forall i :: 0 <= i < |ops| && ops[i].Upsert? ==> Fresh(WriteAll(m, ops[..i]).0, ops[i].doc)
  }

  predicate Fresh(m: map<string, Document>, doc: Document)
  {
    doc.id in m ==> m[doc.id].version < doc.version
  }

  // ----- one operation at a time

  lemma RunSnoc(s: State, ops: seq<Op>, op: Op)
    ensures Run(s, []) == (s, [])
    ensures
      var (before, replies) := Run(s, ops);
      var (after, reply) := Apply(before, op);
      Run(s, ops + [op]) == (after, if op.Flush? then replies else replies + [reply])
  {
    assert (ops + [op])[..|ops|] == ops;
  }

  lemma WriteAllSnoc(m: map<string, Document>, ops: seq<Op>, op: Op)
    ensures WriteAll(m, []) == (m, [])
    ensures
      var (before, replies) := WriteAll(m, ops);
      var (after, reply) := Write(before, op);
      WriteAll(m, ops + [op]) == (after, if op.Flush? then replies else replies + [reply])
  {
    assert (ops + [op])[..|ops|] == ops;
  }

  lemma WritesSnoc(ops: seq<Op>, op: Op)
    ensures Writes([]) == []
    ensures Writes(ops + [op]) == if op.Flush? then Writes(ops) else Writes(ops) + [op]
  {
    assert (ops + [op])[..|ops|] == ops;
  }

  lemma NoStaleSnoc(m: map<string, Document>, ops: seq<Op>, op: Op)
    ensures NoStaleUpsert(m, [])
    ensures NoStaleUpsert(m, ops + [op]) <==>
      NoStaleUpsert(m, ops) && (op.Upsert? ==> Fresh(WriteAll(m, ops).0, op.doc))
  {
    hide WriteAll, Fresh;
    var all := ops + [op];
    assert all[..|ops|] == ops && all[|ops|] == op;
    forall i | 0 <= i < |ops|
      ensures all[..i] == ops[..i] && all[i] == ops[i]
    {
    }
  }

  lemma LastSplit(ops: seq<Op>)
    requires ops != []
    ensures ops == ops[..|ops| - 1] + [ops[|ops| - 1]]
  {
  }

  lemma FlushKeepsView(s: State)
    ensures View(Flushed(s)) == View(s)
  {
    if s.buffer != map[] {
      var segments := s.segments + [s.buffer];
      assert segments[..|segments| - 1] == s.segments;
    }
  }

  lemma BufferedWriteShows(s: State, id: string, d: Document)
    ensures View(s.(buffer := s.buffer[id := d])) == View(s)[id := d]
  {
    hide Layered;
  }

  lemma UpsertLikeTheMap(s: State, doc: Document)
    requires Fresh(View(s), doc)
    ensures Write(View(s), Upsert(doc)) == (View(Upserted(s, doc).0), Upserted(s, doc).1)
  {
    var s' := s.(buffer := s.buffer[doc.id := doc]);
    BufferedWriteShows(s, doc.id, doc);
    FlushKeepsView(s');
    assert doc.id in s.buffer ==> View(s)[doc.id] == s.buffer[doc.id];
    hide View, Flushed;
  }

  lemma DeleteLikeTheMap(s: State, id: string, version: nat, now: int)
    ensures Write(View(s), Delete(id, version, now))
      == (View(Deleted(s, id, version, now).0), Deleted(s, id, version, now).1)
  {
    if id in View(s) {
      BufferedWriteShows(s, id, Tombstone(View(s)[id], version, now));
      hide View;
    }
  }

  lemma StepLikeTheMap(s: State, op: Op)
    requires op.Upsert? ==> Fresh(View(s), op.doc)
    ensures Write(View(s), op) == (View(Apply(s, op).0), Apply(s, op).1)
  {
    match op
    case Upsert(doc) => UpsertLikeTheMap(s, doc);
    case Delete(id, version, now) => DeleteLikeTheMap(s, id, version, now);
    case Flush => FlushKeepsView(s);
  }

  /** Refinement: as long as no upsert is stale, the store behaves like the plain map, whatever its
      flushes. */
  lemma {:induction false} RefinesTheMap(s: State, ops: seq<Op>)
    requires NoStaleUpsert(View(s), ops)
    ensures LikeTheMap(s, ops)
    decreases |ops|
  {
    if ops == [] {
      return;
    }
    hide View, Apply, Write, Fresh, Run, WriteAll, NoStaleUpsert;
    var rest, last := ops[..|ops| - 1], ops[|ops| - 1];
    LastSplit(ops);
    NoStaleSnoc(View(s), rest, last);
    RefinesTheMap(s, rest);
    StepLikeTheMap(Run(s, rest).0, last);
    RunSnoc(s, rest, last);
    WriteAllSnoc(View(s), rest, last);
  }

  // ----- flushes do not matter

  lemma {:induction false} WritesDecide(m: map<string, Document>, ops: seq<Op>)
    ensures WriteAll(m, Writes(ops)) == WriteAll(m, ops)
    ensures |WriteAll(m, ops).1| == |Writes(ops)|
    decreases |ops|
  {
    if ops == [] {
      return;
    }
    hide Write, WriteAll, Writes;
    var rest, last := ops[..|ops| - 1], ops[|ops| - 1];
    LastSplit(ops);
    WritesDecide(m, rest);
    WritesSnoc(rest, last);
    WriteAllSnoc(m, rest, last);
    WriteAllSnoc(m, Writes(rest), last);
    FlushWritesNothing(WriteAll(m, rest).0, last);
  }

  lemma FlushWritesNothing(m: map<string, Document>, op: Op)
    ensures op.Flush? ==> Write(m, op) == (m, Done)
  {
  }

  lemma {:induction false} WritesOfWrites(ops: seq<Op>)
    requires forall op :: op in ops ==> !op.Flush?
    ensures Writes(ops) == ops
    decreases |ops|
  {
    if ops != [] {
      hide Writes;
      var rest, last := ops[..|ops| - 1], ops[|ops| - 1];
      LastSplit(ops);
      WritesOfWrites(rest);
      WritesSnoc(rest, last);
    }
  }

  lemma {:induction false} NoStaleWithFlushes(m: map<string, Document>, ops: seq<Op>)
    ensures NoStaleUpsert(m, Writes(ops)) <==> NoStaleUpsert(m, ops)
    decreases |ops|
  {
    if ops == [] {
      return;
    }
    hide WriteAll, Writes, NoStaleUpsert, Fresh;
    var rest, last := ops[..|ops| - 1], ops[|ops| - 1];
    LastSplit(ops);
    NoStaleWithFlushes(m, rest);
    WritesDecide(m, rest);
    NoStaleSnoc(m, rest, last);
    NoStaleSnoc(m, Writes(rest), last);
    WritesSnoc(rest, last);
  }

  /** Versions of one document strictly increase along the run. */
  ghost predicate IncreasingVersions(ops: seq<Op>)
  {
    forall i, j :: 0 <= i < j < |ops| && !ops[i].Flush? && !ops[j].Flush? && OpId(ops[i]) == OpId(ops[j])
      ==> OpVersion(ops[i]) < OpVersion(ops[j])
  }

  lemma WriteTouches(m: map<string, Document>, op: Op, id: string)
    requires id in Write(m, op).0
    ensures
      || (id in m && Write(m, op).0[id] == m[id])
      || (!op.Flush? && OpId(op) == id && Write(m, op).0[id].version == OpVersion(op))
  {
  }

  /** Everything in the map was written by some operation of the run. */
  lemma {:induction false} WrittenByTheRun(ops: seq<Op>, id: string) returns (i: nat)
    requires id in WriteAll(map[], ops).0
    ensures i < |ops| && !ops[i].Flush? && OpId(ops[i]) == id
    ensures OpVersion(ops[i]) == WriteAll(map[], ops).0[id].version
    decreases |ops|
  {
    var rest, last := ops[..|ops| - 1], ops[|ops| - 1];
    LastSplit(ops);
    WriteAllSnoc(map[], rest, last);
    WriteTouches(WriteAll(map[], rest).0, last, id);
    hide WriteAll, Write;
    if id in WriteAll(map[], rest).0 && WriteAll(map[], rest).0[id] == WriteAll(map[], ops).0[id] {
      i := WrittenByTheRun(rest, id);
    } else {
      i := |ops| - 1;
    }
  }

  lemma IncreasingIsNeverStale(ops: seq<Op>)
    requires IncreasingVersions(ops)
    ensures NoStaleUpsert(map[], ops)
  {
    hide WriteAll;
    forall i | 0 <= i < |ops| && ops[i].Upsert?
      ensures Fresh(WriteAll(map[], ops[..i]).0, ops[i].doc)
    {
      if ops[i].doc.id in WriteAll(map[], ops[..i]).0 {
        var j := WrittenByTheRun(ops[..i], ops[i].doc.id);
        assert ops[j] == ops[..i][j];
      }
    }
  }

  lemma EmptyShowsNothing(maxMutable: nat)
    ensures View(Empty(maxMutable)) == map[]
  {
  }

  // ----- exactly when flushes do not matter

  lemma Associative<T>(u: seq<T>, v: seq<T>, x: T)
    ensures u + v + [x] == u + (v + [x])
  {
  }

  lemma {:induction false} RunConcat(s: State, a: seq<Op>, b: seq<Op>)
    ensures Run(s, a + b) == (Run(Run(s, a).0, b).0, Run(s, a).1 + Run(Run(s, a).0, b).1)
    decreases |b|
  {
    if b == [] {
      assert a + b == a && Run(s, a).1 + [] == Run(s, a).1;
    } else {
      hide Apply, Run;
      var rest, last := b[..|b| - 1], b[|b| - 1];
      LastSplit(b);
      assert a + b == (a + rest) + [last];
      RunConcat(s, a, rest);
      RunSnoc(s, a + rest, last);
      RunSnoc(Run(s, a).0, rest, last);
      Associative(Run(s, a).1, Run(Run(s, a).0, rest).1, Apply(Run(s, a + rest).0, last).1);
    }
  }

  lemma {:induction false} WriteAllConcat(m: map<string, Document>, a: seq<Op>, b: seq<Op>)
    ensures WriteAll(m, a + b) == (WriteAll(WriteAll(m, a).0, b).0, WriteAll(m, a).1 + WriteAll(WriteAll(m, a).0, b).1)
    decreases |b|
  {
    if b == [] {
      assert a + b == a && WriteAll(m, a).1 + [] == WriteAll(m, a).1;
    } else {
      hide Write, WriteAll;
      var rest, last := b[..|b| - 1], b[|b| - 1];
      LastSplit(b);
      assert a + b == (a + rest) + [last];
      WriteAllConcat(m, a, rest);
      WriteAllSnoc(m, a + rest, last);
      WriteAllSnoc(WriteAll(m, a).0, rest, last);
      Associative(WriteAll(m, a).1, WriteAll(WriteAll(m, a).0, rest).1, Write(WriteAll(m, a + rest).0, last).1);
    }
  }

  lemma {:induction false} WritesConcat(a: seq<Op>, b: seq<Op>)
    ensures Writes(a + b) == Writes(a) + Writes(b)
    decreases |b|
  {
    if b == [] {
      assert a + b == a;
    } else {
      hide Writes;
      var rest, last := b[..|b| - 1], b[|b| - 1];
      LastSplit(b);
      assert a + b == (a + rest) + [last];
      WritesConcat(a, rest);
      WritesSnoc(a + rest, last);
      WritesSnoc(rest, last);
      Associative(Writes(a), Writes(rest), last);
    }
  }

  lemma {:induction false} RepliesCount(s: State, ops: seq<Op>)
    ensures |Run(s, ops).1| == |Writes(ops)|
    decreases |ops|
  {
    if ops != [] {
      hide Apply;
      RepliesCount(s, ops[..|ops| - 1]);
    }
  }

  /** The store after a flush takes any upsert; the plain map refuses a stale one. */
  lemma StaleIsAcceptedAfterFlush(s: State, m: map<string, Document>, doc: Document)
    requires !Fresh(m, doc)
    ensures Apply(Flushed(s), Upsert(doc)).1 == Done
    ensures Write(m, Upsert(doc)) == (m, VersionConflict)
  {
  }

  /** Right after a flush the engine takes an upsert older than the document it shows, and then shows the older one. */
  lemma StaleUpsertWinsAfterFlush(s: State, doc: Document)
    requires doc.id in View(s) && doc.version < View(s)[doc.id].version
    ensures
      var (s', status) := Apply(Flushed(s), Upsert(doc));
      status == Done && View(s') == View(s)[doc.id := doc] && View(s')[doc.id].version < View(s)[doc.id].version
  {
    var flushed := Flushed(s);
    var buffered := flushed.(buffer := flushed.buffer[doc.id := doc]);
    FlushKeepsView(s);
    BufferedWriteShows(flushed, doc.id, doc);
    FlushKeepsView(buffered);
    hide View;
  }

  /** The replies of the two sides to one more write. */
  lemma RepliesDiffer(s: State, m: map<string, Document>, before: seq<Op>, op: Op, after: seq<Op>)
    requires !op.Flush?
    requires Apply(Run(s, before).0, op).1 != Write(WriteAll(m, before).0, op).1
    ensures Run(s, before + [op] + after).1 != WriteAll(m, before + [op] + after).1
  {
    hide Run, WriteAll, Apply, Write;
    RunConcat(s, before + [op], after);
    WriteAllConcat(m, before + [op], after);
    RunSnoc(s, before, op);
    WriteAllSnoc(m, before, op);
    RepliesCount(s, before);
    WritesDecide(m, before);
    var n := |Writes(before)|;
    assert Run(s, before + [op]).1[n] == Apply(Run(s, before).0, op).1;
    assert WriteAll(m, before + [op]).1[n] == Write(WriteAll(m, before).0, op).1;
    assert Run(s, before + [op] + after).1[n] == Apply(Run(s, before).0, op).1;
    assert WriteAll(m, before + [op] + after).1[n] == Write(WriteAll(m, before).0, op).1;
  }

  /** The writes of a run with a flush put in before the i-th. */
  function FlushBefore(writes: seq<Op>, i: nat): seq<Op>
    requires i < |writes|
  {
    writes[..i] + [Flush] + [writes[i]] + writes[i + 1..]
  }

  lemma FlushBeforeWrites(writes: seq<Op>, i: nat)
    requires forall op :: op in writes ==> !op.Flush?
    requires i < |writes|
    ensures Writes(FlushBefore(writes, i)) == writes
  {
    hide Writes;
    var before, after := writes[..i], writes[i + 1..];
    WritesConcat(before + [Flush] + [writes[i]], after);
    WritesSnoc(before + [Flush], writes[i]);
    WritesSnoc(before, Flush);
    WritesOfWrites(before);
    WritesOfWrites(after);
    assert writes == before + [writes[i]] + after;
  }

  /** Flushing just before a stale upsert makes the store accept what the map refuses. */
  lemma FlushBeforeStale(maxMutable: nat, writes: seq<Op>, i: nat)
    requires i < |writes| && writes[i].Upsert? && !Fresh(WriteAll(map[], writes[..i]).0, writes[i].doc)
    ensures !LikeTheMap(Empty(maxMutable), FlushBefore(writes, i))
  {
    EmptyShowsNothing(maxMutable);
    hide Run, WriteAll, Write, Flushed, Fresh, View;
    var s, before := Empty(maxMutable), writes[..i];
    RunSnoc(s, before, Flush);
    WriteAllSnoc(map[], before, Flush);
    FlushWritesNothing(WriteAll(map[], before).0, Flush);
    StaleIsAcceptedAfterFlush(Run(s, before).0, WriteAll(map[], before).0, writes[i].doc);
    RepliesDiffer(s, map[], before + [Flush], writes[i], writes[i + 1..]);
  }

  /** The store agrees with the plain map under every flush schedule if and only if no upsert of the
      writes is stale. */
  lemma SchedulesAgreeIffNoStale(writes: seq<Op>)
    requires forall op :: op in writes ==> !op.Flush?
    ensures
      (forall maxMutable: nat, ops :: Writes(ops) == writes ==> LikeTheMap(Empty(maxMutable), ops))
      <==> NoStaleUpsert(map[], writes)
  {
    if NoStaleUpsert(map[], writes) {
      forall maxMutable: nat, ops | Writes(ops) == writes
        ensures LikeTheMap(Empty(maxMutable), ops)
      {
        EmptyShowsNothing(maxMutable);
        hide LikeTheMap, Writes, NoStaleUpsert, View;
        NoStaleWithFlushes(map[], ops);
        RefinesTheMap(Empty(maxMutable), ops);
      }
    } else {
      var i :| 0 <= i < |writes| && writes[i].Upsert? && !Fresh(WriteAll(map[], writes[..i]).0, writes[i].doc);
      hide LikeTheMap, Writes, NoStaleUpsert, Fresh, WriteAll;
      FlushBeforeWrites(writes, i);
      FlushBeforeStale(1, writes, i);
    }
  }

  // ----- within one buffer epoch

  function Upserts(docs: seq<Document>): seq<Op>
  {
    seq(|docs|, i requires 0 <= i < |docs| => Upsert(docs[i]))
  }

  function Ids(docs: seq<Document>): set<string>
  {
    set d | d in docs :: d.id
  }

  /** d is what the buffer should hold for a document: the highest version among what it held before and
      what was offered, the old copy winning a tie. */
  ghost predicate IsHighest(before: map<string, Document>, docs: seq<Document>, id: string, d: Document)
  {
    && (if id in before then d == before[id] || (before[id].version < d.version && d in docs && d.id == id)
        else d in docs && d.id == id)
    && (forall offered :: offered in docs && offered.id == id ==> offered.version <= d.version)
  }

  ghost predicate HoldsHighest(before: map<string, Document>, docs: seq<Document>, after: map<string, Document>)
  {
    && after.Keys == before.Keys + Ids(docs)
    && (forall id :: id in after ==> IsHighest(before, docs, id, after[id]))
  }

  lemma SubsetSize<T>(a: set<T>, b: set<T>)
    requires a <= b
    ensures |a| <= |b|
  {
    if a != {} {
      var x :| x in a;
      SubsetSize(a - {x}, b - {x});
    }
  }

  /** The buffer after one more upsert that triggers no flush. */
  function Buffered(held: map<string, Document>, doc: Document): map<string, Document>
  {
    if doc.id in held && doc.version <= held[doc.id].version then held else held[doc.id := doc]
  }

  lemma HoldsHighestStep(before: map<string, Document>, docs: seq<Document>, held: map<string, Document>, doc: Document)
    requires HoldsHighest(before, docs, held)
    ensures HoldsHighest(before, docs + [doc], Buffered(held, doc))
  {
    var all, after := docs + [doc], Buffered(held, doc);
    assert Ids(all) == Ids(docs) + {doc.id};
    assert forall d :: d in all <==> d in docs || d == doc;
    forall id | id in after
      ensures IsHighest(before, all, id, after[id])
    {
      if id in held {
        assert IsHighest(before, docs, id, held[id]);
      } else {
        NeverOffered(docs, id);
      }
    }
  }

  lemma NeverOffered(docs: seq<Document>, id: string)
    requires id !in Ids(docs)
    ensures forall d :: d in docs ==> d.id != id
  {
  }

  lemma RoomInTheEpoch(s: State, doc: Document, ids: set<string>)
    requires s.buffer.Keys + {doc.id} <= ids && |ids| < s.maxMutable
    ensures Apply(s, Upsert(doc)).0 == s.(buffer := Buffered(s.buffer, doc))
  {
    var b := s.buffer[doc.id := doc];
    assert b.Keys == s.buffer.Keys + {doc.id};
    SubsetSize(b.Keys, ids);
    assert |b| == |b.Keys|;
  }

  lemma {:induction false} EpochHoldsHighest(s: State, docs: seq<Document>)
    requires |s.buffer.Keys + Ids(docs)| < s.maxMutable
    ensures
      var end := Run(s, Upserts(docs)).0;
      && end.segments == s.segments && end.maxMutable == s.maxMutable
      && HoldsHighest(s.buffer, docs, end.buffer)
    decreases |docs|
  {
    if docs == [] {
      return;
    }
    var rest, last := docs[..|docs| - 1], docs[|docs| - 1];
    assert docs == rest + [last];
    assert Ids(docs) == Ids(rest) + {last.id};
    assert Upserts(docs) == Upserts(rest) + [Upsert(last)];
    hide Run, Ids, Upserts, Apply, Buffered;
    var ids := s.buffer.Keys + Ids(docs);
    SubsetSize(s.buffer.Keys + Ids(rest), ids);
    EpochHoldsHighest(s, rest);
    RunSnoc(s, Upserts(rest), Upsert(last));
    var mid := Run(s, Upserts(rest)).0;
    assert mid.buffer.Keys == s.buffer.Keys + Ids(rest);
    RoomInTheEpoch(mid, last, ids);
    hide HoldsHighest;
    HoldsHighestStep(s.buffer, rest, mid.buffer, last);
  }

  ghost predicate DistinctVersions(docs: seq<Document>)
  {
    forall i, j :: 0 <= i < j < |docs| && docs[i].id == docs[j].id ==> docs[i].version != docs[j].version
  }

  lemma SameMembers(docs: seq<Document>, docs': seq<Document>)
    requires multiset(docs) == multiset(docs')
    ensures forall d :: d in docs <==> d in docs'
    ensures Ids(docs) == Ids(docs')
  {
    assert forall d :: d in docs <==> d in multiset(docs);
    assert forall d :: d in docs' <==> d in multiset(docs');
  }

  lemma OnlyOneHighest(docs: seq<Document>, d: Document, d': Document)
    requires DistinctVersions(docs) && d in docs && d' in docs
    requires d.id == d'.id && d.version == d'.version
    ensures d == d'
  {
    var i :| 0 <= i < |docs| && docs[i] == d;
    var j :| 0 <= j < |docs| && docs[j] == d';
  }

  lemma HighestIsUnique(before: map<string, Document>, docs: seq<Document>, docs': seq<Document>,
                        after: map<string, Document>, after': map<string, Document>)
    requires HoldsHighest(before, docs, after) && HoldsHighest(before, docs', after')
    requires multiset(docs) == multiset(docs') && DistinctVersions(docs)
    ensures after == after'
  {
    SameMembers(docs, docs');
    hide DistinctVersions, Ids;
    forall id | id in after
      ensures after[id] == after'[id]
    {
      var d, d' := after[id], after'[id];
      assert IsHighest(before, docs, id, d) && IsHighest(before, docs', id, d');
      if d in docs && d.id == id && d' in docs' && d'.id == id {
        assert d.version == d'.version;
        OnlyOneHighest(docs, d, d');
      }
    }
  }

  /** Order-insensitive buffering: while too few documents are buffered to flush, upserts with distinct
      versions per document may come in any order. */
  lemma BufferingIgnoresOrder(s: State, docs: seq<Document>, docs': seq<Document>)
    requires multiset(docs) == multiset(docs') && DistinctVersions(docs)
    requires |s.buffer.Keys + Ids(docs)| < s.maxMutable
    ensures Run(s, Upserts(docs)).0 == Run(s, Upserts(docs')).0
  {
    SameMembers(docs, docs');
    hide Run, HoldsHighest, Ids, Upserts, DistinctVersions;
    EpochHoldsHighest(s, docs);
    EpochHoldsHighest(s, docs');
    HighestIsUnique(s.buffer, docs, docs', Run(s, Upserts(docs)).0.buffer, Run(s, Upserts(docs')).0.buffer);
  }
}
