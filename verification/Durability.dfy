/** What survives a crash: the log's records, replayed into a fresh engine (internal/ingest/service.go,
    internal/storage/recovery.go). */
module Durability {
  import opened Documents
  import opened Options
  import opened Recovery
  import opened ReplayInto
  import opened Store
  import opened WalLaws
  import opened WriteAheadLog

  /** The writes a log asks for. */
  function OpsOf(p: Payloads, records: seq<Record>, clock: nat -> int): (r: Option<seq<Op>>)
    ensures r.Some? ==> |r.value| == |records|
    decreases |records|
  {
    if records == [] then Some([])
    else
      var rest := OpsOf(p, records[..|records| - 1], clock);
      var last := OpOf(p, records[|records| - 1], clock);
      if rest.None? || last.None? then None else Some(rest.value + [last.value])
  }

  lemma RecoverOne(p: Payloads, s: State, r: Record, clock: nat -> int)
    ensures RecoverAll(p, s, [r], clock) ==
      match OpOf(p, r, clock)
      case None => (s, Some(BadPayload))
      case Some(op) =>
        (Apply(s, op).0, if Apply(s, op).1 != Done then Some(Refused(Apply(s, op).1)) else None)
  {
    hide OpOf, Apply;
    assert [r][1..] == [];
  }

  /** Replaying in two parts is replaying once: what a checkpoint at sequence n relies on. */
  lemma {:induction false} RecoverConcat(p: Payloads, s: State, a: seq<Record>, b: seq<Record>, clock: nat -> int)
    ensures RecoverAll(p, s, a + b, clock) ==
      if RecoverAll(p, s, a, clock).1.Some? then RecoverAll(p, s, a, clock)
      else RecoverAll(p, RecoverAll(p, s, a, clock).0, b, clock)
    decreases |a|
  {
    if a == [] {
      assert a + b == b;
    } else {
      hide OpOf, Apply;
      assert (a + b)[1..] == a[1..] + b;
      var op := OpOf(p, a[0], clock);
      if op.Some? {
        RecoverConcat(p, Apply(s, op.value).0, a[1..], b, clock);
      }
    }
  }

  lemma RecoveredConcat(p: Payloads, s: State, a: seq<Record>, b: seq<Record>, clock: nat -> int)
    requires RecoverAll(p, s, a, clock).1.None?
    ensures Recovered(p, RecoverAll(p, s, a, clock).0, Delivery(b, None), clock)
         == Recovered(p, s, Delivery(a + b, None), clock)
  {
    hide RecoverAll;
    RecoverConcat(p, s, a, b, clock);
  }

  /** On a well-formed log, replaying from sequence n onto the state that the records up to n lead to gives the same as
      replaying everything. */
  lemma CheckpointReplay(lib: Library, p: Payloads, log: LogState, s: State, n: nat, clock: nat -> int) returns (k: nat)
    requires Laws(lib) && WellNumbered(log) && AllCompact(lib, log.records) && AllValid(lib, log.records)
      && AllShort(lib, log.records)
    ensures StartsAfter(log.records, k, n)
    ensures RecoverAll(p, s, log.records[..k], clock).1.None? ==>
      Recovered(p, RecoverAll(p, s, log.records[..k], clock).0, Replayed(lib, Encoded(lib, log.records), n), clock)
      == Recovered(p, s, Replayed(lib, Encoded(lib, log.records), 0), clock)
  {
    k := ReplayDeliversSuffix(lib, log, n);
    hide RecoverAll, Recovered, Replayed, Encoded, AllValid, AllCompact, AllShort, WellNumbered, Laws;
    assert log.records == log.records[..k] + log.records[k..];
    if RecoverAll(p, s, log.records[..k], clock).1.None? {
      RecoveredConcat(p, s, log.records[..k], log.records[k..], clock);
    }
  }

  /** A replay of readable records that are all accepted is the run of their writes. */
  lemma {:induction false} RecoveryIsRun(p: Payloads, s: State, records: seq<Record>, clock: nat -> int)
    requires OpsOf(p, records, clock).Some?
    ensures
      var ops := OpsOf(p, records, clock).value;
      && |ops| == |records| == |Run(s, ops).1| && NoFlush(ops)
      && (AllDone(Run(s, ops).1) <==> RecoverAll(p, s, records, clock).1.None?)
      && (AllDone(Run(s, ops).1) ==> RecoverAll(p, s, records, clock).0 == Run(s, ops).0)
    decreases |records|
  {
    if records == [] {
      return;
    }
    var rest, last := records[..|records| - 1], records[|records| - 1];
    assert records == rest + [last];
    RecoveryIsRun(p, s, rest, clock);
    RecoverConcat(p, s, rest, [last], clock);
    var before := RecoverAll(p, s, rest, clock).0;
    RecoverOne(p, before, last, clock);
    var ops, op := OpsOf(p, rest, clock).value, OpOf(p, last, clock).value;
    NeverFlush(p, last, clock);
    RunSnoc(s, ops, op);
    hide RecoverAll, Run, Apply, OpOf, AllDone;
    AllDoneSnoc(Run(s, ops).1, Apply(Run(s, ops).0, op).1);
  }

  lemma NeverFlush(p: Payloads, r: Record, clock: nat -> int)
    ensures OpOf(p, r, clock).Some? ==> !OpOf(p, r, clock).value.Flush?
  {
  }

  /** Recovery of a crashed engine: if the live engine accepted every logged write, in the order of the log, flushing as
      it liked, and versions increase per document, then replaying the log into a fresh engine of any buffer size does
      not fail and shows the same documents, up to the time stamps of tombstones. */
  lemma RecoveryRestoresTheView(p: Payloads, records: seq<Record>, clock: nat -> int, liveMax: nat, live: seq<Op>,
                                max: nat)
    requires OpsOf(p, records, clock).Some?
    requires SameButClock(Writes(live), OpsOf(p, records, clock).value)
    requires AllDone(Run(Empty(liveMax), live).1) && IncreasingVersions(Writes(live))
    ensures
      var (s, failure) := RecoverAll(p, Empty(max), records, clock);
      failure.None? && Timeless(View(s)) == Timeless(View(Run(Empty(liveMax), live).0))
  {
    var ops := OpsOf(p, records, clock).value;
    RecoveryIsRun(p, Empty(max), records, clock);
    assert forall op :: op in ops ==> !op.Flush?;
    WritesOfWrites(ops);
    hide Run, View, Writes, SameButClock, IncreasingVersions, AllDone, Timeless, RecoverAll, OpsOf;
    RecoveryEquivalence(liveMax, live, max, ops);
  }

  // ----- what a replay that stops has lost

  lemma {:induction false} OpsOfPrefix(p: Payloads, records: seq<Record>, clock: nat -> int, k: nat)
    requires OpsOf(p, records, clock).Some? && k <= |records|
    ensures OpsOf(p, records[..k], clock) == Some(OpsOf(p, records, clock).value[..k])
    ensures NoFlush(OpsOf(p, records, clock).value)
    decreases |records|
  {
    if records != [] {
      var rest, last := records[..|records| - 1], records[|records| - 1];
      OpsOfPrefix(p, rest, clock, if k < |records| then k else |rest|);
      NeverFlush(p, last, clock);
      hide OpOf;
      var ops, before := OpsOf(p, records, clock).value, OpsOf(p, rest, clock).value;
      assert ops == before + [OpOf(p, last, clock).value];
      if k < |records| {
        assert rest[..k] == records[..k] && ops[..k] == before[..k];
      } else {
        assert records[..k] == records && ops[..k] == ops;
      }
    }
  }

  lemma RefusedChangesNothing(s: State, op: Op)
    ensures Apply(s, op).1 != Done ==> Apply(s, op).0 == s
  {
    hide View;
  }

  /** A replay that stops at record k, with nothing irregular before, has stopped where the first k writes lead. */
  lemma StoppedShowsPrefix(p: Payloads, records: seq<Record>, clock: nat -> int, max: nat, k: nat)
    requires OpsOf(p, records, clock).Some? && k < |records| && Replayable(OpsOf(p, records, clock).value[..k])
    requires RecoverAll(p, Empty(max), records[..k + 1], clock).1.Some?
    ensures RecoverAll(p, Empty(max), records, clock).1.Some?
    ensures View(RecoverAll(p, Empty(max), records, clock).0) == WriteAll(map[], OpsOf(p, records, clock).value[..k]).0
  {
    hide *;
    OpsOfPrefix(p, records, clock, k);
    PrefixIsShown(p, records[..k], clock, max);
    var a, r, b := records[..k], records[k], records[k + 1..];
    assert records[..k + 1] == a + [r];
    assert records == a + [r] + b;
    StopsThere(p, Empty(max), a, r, b, clock);
  }

  lemma StopsThere(p: Payloads, s: State, a: seq<Record>, r: Record, b: seq<Record>, clock: nat -> int)
    requires RecoverAll(p, s, a, clock).1.None? && RecoverAll(p, s, a + [r], clock).1.Some?
    ensures RecoverAll(p, s, a + [r] + b, clock) == (RecoverAll(p, s, a, clock).0, RecoverAll(p, s, a + [r], clock).1)
  {
    hide OpOf, Apply, RecoverAll;
    RecoverConcat(p, s, a, [r], clock);
    RecoverConcat(p, s, a + [r], b, clock);
    var before := RecoverAll(p, s, a, clock).0;
    RecoverOne(p, before, r, clock);
    var op := OpOf(p, r, clock);
    if op.Some? {
      RefusedChangesNothing(before, op.value);
    }
  }

  lemma PrefixIsShown(p: Payloads, records: seq<Record>, clock: nat -> int, max: nat)
    requires OpsOf(p, records, clock).Some? && Replayable(OpsOf(p, records, clock).value)
    ensures RecoverAll(p, Empty(max), records, clock).1.None?
    ensures View(RecoverAll(p, Empty(max), records, clock).0) == WriteAll(map[], OpsOf(p, records, clock).value).0
  {
    var ops := OpsOf(p, records, clock).value;
    OpsOfPrefix(p, records, clock, |records|);
    RecoveryIsRun(p, Empty(max), records, clock);
    WritesOfWrites(ops);
    MapAcceptsIffReplayable(ops);
    hide Run, WriteAll, View, AllDone, OpsOf, RecoverAll, IncreasingVersions;
    RunsLikeTheMap(max, ops);
  }

  /** What a stopped replay loses. Every write was logged, refused ones too, and the engine behaved like a plain map. If
      the replay stops at record k, with nothing irregular before, then it shows something else than the live engine if
      and only if some write from k on had been accepted. */
  lemma StoppedReplayLosesIff(p: Payloads, records: seq<Record>, clock: nat -> int, max: nat, liveMax: nat,
                              live: seq<Op>, k: nat)
    requires OpsOf(p, records, clock).Some? && k < |records| && Replayable(OpsOf(p, records, clock).value[..k])
    requires RecoverAll(p, Empty(max), records[..k + 1], clock).1.Some?
    requires SameButClock(Writes(live), OpsOf(p, records, clock).value) && LikeTheMap(Empty(liveMax), live)
    ensures |Run(Empty(liveMax), live).1| == |records|
    ensures RecoverAll(p, Empty(max), records, clock).1.Some?
    ensures
      Timeless(View(RecoverAll(p, Empty(max), records, clock).0)) != Timeless(View(Run(Empty(liveMax), live).0))
      <==> exists i :: k <= i < |records| && Run(Empty(liveMax), live).1[i] == Done
  {
    var ops := OpsOf(p, records, clock).value;
    hide *;
    OpsOfPrefix(p, records, clock, k);
    StoppedShowsPrefix(p, records, clock, max, k);
    LiveIsTheMap(liveMax, live, ops);
    PrefixIsBehindIff(ops, k);
  }

  lemma LiveIsTheMap(liveMax: nat, live: seq<Op>, ops: seq<Op>)
    requires SameButClock(Writes(live), ops) && LikeTheMap(Empty(liveMax), live)
    ensures Run(Empty(liveMax), live).1 == WriteAll(map[], ops).1
    ensures Timeless(View(Run(Empty(liveMax), live).0)) == Timeless(WriteAll(map[], ops).0)
  {
    EmptyShowsNothing(liveMax);
    hide Run, WriteAll, View, Writes, Timeless, SameButClock;
    WritesDecide(map[], live);
    SameRunButClock(Writes(live), ops);
  }

  /** A log that is not replayable does stop a replay into an engine with room for all its documents, at the first
      write that may not follow those before it. */
  lemma ReplayStopsAtFirstIrregular(p: Payloads, records: seq<Record>, clock: nat -> int, max: nat) returns (k: nat)
    requires OpsOf(p, records, clock).Some? && !Replayable(OpsOf(p, records, clock).value) && |records| < max
    ensures k < |records| && Replayable(OpsOf(p, records, clock).value[..k])
    ensures RecoverAll(p, Empty(max), records[..k + 1], clock).1.Some?
  {
    var ops := OpsOf(p, records, clock).value;
    OpsOfPrefix(p, records, clock, 0);
    k := FirstIrregular(ops);
    assert !ops[k].Flush?;
    OpsOfPrefix(p, records, clock, k + 1);
    RecoveryIsRun(p, Empty(max), records[..k + 1], clock);
    hide *;
    assert ops[..k + 1] == ops[..k] + [ops[k]];
    IrregularIsRefused(ops[..k + 1], ops[..k], ops[k], max);
  }

  lemma IrregularIsRefused(writes: seq<Op>, rest: seq<Op>, last: Op, max: nat)
    requires NoFlush(writes) && |writes| < max && writes == rest + [last] && !last.Flush? && !MayFollow(rest, last)
    ensures !AllDone(Run(Empty(max), writes).1)
  {
    ReplayableSnoc(rest, last);
    hide Replayable, MayFollow, Run, WriteAll, AllDone;
    MapAcceptsIffReplayable(writes);
    UnflushedIsTheMap(max, writes);
  }

  // ----- a refused write poisons the log

  function Doc(id: string, version: nat): Document
  {
    Document(id, "t", "c", map[], version, 1, false, 0, 0)
  }

  /** Three engine states: empty, with "a", with "a" and "b". */
  lemma ThreeStates() returns (s1: State, s2: State)
    ensures
      var a, b := Upsert(Doc("a", 1)), Upsert(Doc("b", 1));
      && Apply(Empty(1000), a) == (s1, Done) && Apply(s1, a) == (s1, VersionConflict) && Apply(s1, b) == (s2, Done)
    ensures "b" !in View(s1) && "b" in View(s2)
  {
    s1 := State([], map["a" := Doc("a", 1)], 1000);
    s2 := State([], map["a" := Doc("a", 1), "b" := Doc("b", 1)], 1000);
    assert Empty(1000).buffer["a" := Doc("a", 1)] == s1.buffer && |s1.buffer| == 1;
    assert s1.buffer["b" := Doc("b", 1)] == s2.buffer && |s2.buffer| == 2;
  }

  lemma UpsertOf(lib: Library, p: Payloads, r: Record, clock: nat -> int, d: Document)
    requires PayloadLaws(lib, p) && r.operation.UpsertOperation? && p.encode(d) == Some(r.payload)
    ensures OpOf(p, r, clock) == Some(Upsert(d))
  {
  }

  /** A write that is logged and then refused stops every later replay: here the engine has accepted document "b", and
      recovery loses it. */
  lemma RefusedWriteLosesLaterOnes(lib: Library, p: Payloads, r1: Record, r2: Record, r3: Record, clock: nat -> int)
    requires PayloadLaws(lib, p)
    requires r1.operation.UpsertOperation? && p.encode(Doc("a", 1)) == Some(r1.payload)
    requires r2.operation.UpsertOperation? && p.encode(Doc("a", 1)) == Some(r2.payload)
    requires r3.operation.UpsertOperation? && p.encode(Doc("b", 1)) == Some(r3.payload)
    ensures
      var live := Run(Empty(1000), [Upsert(Doc("a", 1)), Upsert(Doc("a", 1)), Upsert(Doc("b", 1))]);
      live.1 == [Done, VersionConflict, Done] && "b" in View(live.0)
    ensures
      var (s, failure) := RecoverAll(p, Empty(1000), [r1, r2, r3], clock);
      failure == Some(Refused(VersionConflict)) && "b" !in View(s)
  {
    var s1, s2 := ThreeStates();
    UpsertOf(lib, p, r1, clock, Doc("a", 1));
    UpsertOf(lib, p, r2, clock, Doc("a", 1));
    hide Run, Apply, View, OpOf, Doc, RecoverAll, Empty;
    OneTwoThree(Empty(1000), Upsert(Doc("a", 1)), Upsert(Doc("a", 1)), Upsert(Doc("b", 1)));
    SecondIsRefused(p, Empty(1000), s1, r1, r2, r3, clock);
  }

  lemma SecondIsRefused(p: Payloads, s: State, s': State, r1: Record, r2: Record, r3: Record, clock: nat -> int)
    requires OpOf(p, r1, clock).Some? && Apply(s, OpOf(p, r1, clock).value) == (s', Done)
    requires OpOf(p, r2, clock).Some? && Apply(s', OpOf(p, r2, clock).value) == (s', VersionConflict)
    ensures RecoverAll(p, s, [r1, r2, r3], clock) == (s', Some(Refused(VersionConflict)))
  {
    hide Apply, OpOf, RecoverAll;
    RecoverOne(p, s, r1, clock);
    RecoverOne(p, s', r2, clock);
    RecoverConcat(p, s, [r1], [r2], clock);
    assert [r1] + [r2] + [r3] == [r1, r2, r3];
    RecoverConcat(p, s, [r1] + [r2], [r3], clock);
  }

  lemma OneTwoThree(s: State, a: Op, b: Op, c: Op)
    requires !a.Flush? && !b.Flush? && !c.Flush?
    ensures
      var (s1, r1) := Apply(s, a);
      var (s2, r2) := Apply(s1, b);
      var (s3, r3) := Apply(s2, c);
      Run(s, [a, b, c]) == (s3, [r1, r2, r3])
  {
    hide Run, Apply;
    var (s1, r1) := Apply(s, a);
    var (s2, r2) := Apply(s1, b);
    var r3 := Apply(s2, c).1;
    RunSnoc(s, [], a);
    assert [] + [a] == [a] && [] + [r1] == [r1];
    RunSnoc(s, [a], b);
    assert [a] + [b] == [a, b] && [r1] + [r2] == [r1, r2];
    RunSnoc(s, [a, b], c);
    assert [a, b] + [c] == [a, b, c] && [r1, r2] + [r3] == [r1, r2, r3];
  }
}
