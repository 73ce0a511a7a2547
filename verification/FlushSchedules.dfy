/** What the flush schedule can and cannot change: search results and recovery do not depend on it, cursors do. */
module FlushSchedules {
  import opened Cursors
  import opened Matching
  import opened Query
  import opened Recovery
  import opened Search
  import opened Store

  /** The engine's generation counts its segments. */
  function Generation(s: State): nat
  {
    |s.segments|
  }

  /** Flush-schedule independence: two engines with different buffer limits, any extra flushes and clocks of their own,
      given the same writes with increasing versions, reply alike and show the same documents, up to the time stamps of
      tombstones. */
  lemma FlushScheduleIndependence(max1: nat, ops1: seq<Op>, max2: nat, ops2: seq<Op>)
    requires SameButClock(Writes(ops1), Writes(ops2)) && IncreasingVersions(Writes(ops1))
    ensures Run(Empty(max1), ops1).1 == Run(Empty(max2), ops2).1
    ensures Timeless(View(Run(Empty(max1), ops1).0)) == Timeless(View(Run(Empty(max2), ops2).0))
    ensures Writes(ops1) == Writes(ops2) ==> View(Run(Empty(max1), ops1).0) == View(Run(Empty(max2), ops2).0)
  {
    hide Run, WriteAll, View, Writes, Timeless, SameButClock, IncreasingVersions;
    SameVersionsButClock(Writes(ops1), Writes(ops2));
    RunsLikeTheMap(max1, ops1);
    RunsLikeTheMap(max2, ops2);
    SameRunButClock(Writes(ops1), Writes(ops2));
  }

  // ----- search

  /** Such engines return the same hits, order, scores and total for every request without a cursor. */
  lemma SearchIgnoresFlushSchedule(s: Setup, codec: Codec, max1: nat, ops1: seq<Op>, max2: nat, ops2: seq<Op>,
                                   r: Request, now: int)
    requires SameButClock(Writes(ops1), Writes(ops2)) && IncreasingVersions(Writes(ops1))
    requires r.size >= 1 && r.searchAfter == ""
    ensures
      var end1, end2 := Run(Empty(max1), ops1).0, Run(Empty(max2), ops2).0;
      var found1 := Answer(s, codec, View(end1), Generation(end1), r, now);
      var found2 := Answer(s, codec, View(end2), Generation(end2), r, now);
      && found1.Found? && found2.Found?
      && found1.result.hits == found2.result.hits && found1.result.total == found2.result.total
  {
    hide Run, View, Ranking, Writes, IncreasingVersions, SameButClock, Timeless, Encode;
    FlushScheduleIndependence(max1, ops1, max2, ops2);
    TimelessSearch(s, r, View(Run(Empty(max1), ops1).0), View(Run(Empty(max2), ops2).0));
  }

  // ----- cursors

  lemma SegmentsGrow(s: State, op: Op)
    ensures s.segments <= Apply(s, op).0.segments
    ensures Apply(s, op).0.maxMutable == s.maxMutable
  {
    hide View;
  }

  /** Segments are only ever appended, so the generation never goes back. */
  lemma {:induction false} SegmentsOnlyGrow(s: State, ops: seq<Op>)
    ensures s.segments <= Run(s, ops).0.segments
    decreases |ops|
  {
    if ops == [] {
      return;
    }
    hide Run, Apply;
    var rest, last := ops[..|ops| - 1], ops[|ops| - 1];
    LastSplit(ops);
    SegmentsOnlyGrow(s, rest);
    RunSnoc(s, rest, last);
    SegmentsGrow(Run(s, rest).0, last);
  }

  /** A cursor handed out in some state is refused after later operations exactly if these appended a segment, that is,
      if a nonempty buffer was flushed; writes that stay in the buffer leave it accepted. */
  lemma CursorOutlivesBufferedWrites(setup: Setup, codec: Codec, s: State, ops: seq<Op>, r: Request, now: int,
                                     p: Payload)
    requires Laws(codec) && r.size >= 1 && now <= p.expires
    requires p.generation == Generation(s) && r.searchAfter == Encode(codec, p)
    ensures
      var end := Run(s, ops).0;
      Answer(setup, codec, View(end), Generation(end), r, now).GenerationGone? <==> end.segments != s.segments
  {
    SegmentsOnlyGrow(s, ops);
    CursorRoundTrip(codec, p, now);
    hide Run, View, Ranking, Encode, Decode;
  }

  /** A flush of a nonempty buffer always raises the generation. */
  lemma FlushRaisesGeneration(s: State, ops: seq<Op>)
    ensures Run(s, ops).0.buffer != map[] ==> Generation(Run(s, ops + [Flush]).0) > Generation(s)
  {
    SegmentsOnlyGrow(s, ops);
    RunSnoc(s, ops, Flush);
    hide Run;
  }
}
