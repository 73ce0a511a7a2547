/** Laws of the write-ahead log over whole runs: framing, numbering, reopening and replay
    (internal/storage/wal.go). */
module WalLaws {
  import opened Options
  import opened WriteAheadLog

  // ----- framing

  /** The file that holds these records. */
  function Encoded(lib: Library, rs: seq<Record>): string
  {
    if rs == [] then "" else Line(lib, rs[0]) + Encoded(lib, rs[1..])
  }

  lemma {:induction false} EncodedSnoc(lib: Library, rs: seq<Record>, r: Record)
    ensures Encoded(lib, rs + [r]) == Encoded(lib, rs) + Line(lib, r)
  {
    if rs == [] {
      assert rs + [r] == [r];
      assert [r][1..] == [];
    } else {
      assert (rs + [r])[1..] == rs[1..] + [r];
      EncodedSnoc(lib, rs[1..], r);
      hide Line;
      assert Line(lib, rs[0]) + (Encoded(lib, rs[1..]) + Line(lib, r))
        == Line(lib, rs[0]) + Encoded(lib, rs[1..]) + Line(lib, r);
    }
  }

  lemma {:induction false} NewlineAfter(line: string, rest: string)
    requires '\n' !in line
    ensures NewlineAt(line + "\n" + rest) == |line|
  {
    var data := line + "\n" + rest;
    if line != "" {
      assert data[1..] == line[1..] + "\n" + rest;
      NewlineAfter(line[1..], rest);
    }
  }

  /** Line framing: the first line of a file is its first record, the rest of the file holds the rest. */
  lemma FirstLine(lib: Library, rs: seq<Record>)
    requires Laws(lib) && rs != [] && lib.compact(rs[0].payload)
    ensures
      var data := Encoded(lib, rs);
      && data != "" && NewlineAt(data) == |lib.marshal(rs[0])|
      && data[..NewlineAt(data)] == lib.marshal(rs[0])
      && AfterLine(data) == Encoded(lib, rs[1..])
  {
    var line, rest := lib.marshal(rs[0]), Encoded(lib, rs[1..]);
    assert Encoded(lib, rs) == line + "\n" + rest;
    NewlineAfter(line, rest);
    hide NewlineAt, Encoded;
    var data := line + "\n" + rest;
    assert data[..|line|] == line && data[|line| + 1..] == rest;
  }

  lemma LineReadsBack(lib: Library, r: Record)
    requires Laws(lib) && lib.compact(r.payload)
    ensures ReadLine(lib, lib.marshal(r)) ==
      if Validate(lib, r).None? then Good(r) else Bad(InvalidRecord(Validate(lib, r).value))
  {
    assert lib.unmarshal(lib.marshal(r)) == Some(r);
    hide Validate;
  }

  predicate Short(lib: Library, r: Record)
  {
    |lib.marshal(r)| < MAX_LINE
  }

  /** How many records a scanner gets to see: those before the first line of 16 MiB or more. */
  function Readable(lib: Library, rs: seq<Record>): (n: nat)
    ensures n <= |rs|
    ensures n < |rs| ==> !Short(lib, rs[n])
    ensures forall i :: 0 <= i < n ==> Short(lib, rs[i])
  {
    if rs == [] || !Short(lib, rs[0]) then 0 else 1 + Readable(lib, rs[1..])
  }

  ghost predicate AllValid(lib: Library, rs: seq<Record>)
  {
    forall i :: 0 <= i < |rs| ==> Validate(lib, rs[i]).None?
  }

  ghost predicate AllCompact(lib: Library, rs: seq<Record>)
  {
    forall i :: 0 <= i < |rs| ==> lib.compact(rs[i].payload)
  }

  function Above(rs: seq<Record>, after: nat): seq<Record>
  {
    if rs == [] then [] else (if rs[0].sequence > after then [rs[0]] else []) + Above(rs[1..], after)
  }

  /** What the first record of a log contributes to a replay. */
  lemma ReplayStep(lib: Library, rs: seq<Record>, after: nat)
    requires Laws(lib) && AllCompact(lib, rs) && AllValid(lib, rs) && rs != []
    ensures Laws(lib) && AllCompact(lib, rs[1..]) && AllValid(lib, rs[1..])
    ensures
      var rest := Replayed(lib, Encoded(lib, rs[1..]), after);
      Replayed(lib, Encoded(lib, rs), after) ==
        if !Short(lib, rs[0]) then Delivery([], Some(TooLong))
        else Delivery((if rs[0].sequence > after then [rs[0]] else []) + rest.records, rest.error)
  {
    FirstLine(lib, rs);
    LineReadsBack(lib, rs[0]);
    AllTail(lib, rs);
    assert Validate(lib, rs[0]) == None;
    hide ReadLine, NewlineAt, AfterLine, Encoded, Laws, AllValid, AllCompact, Validate;
  }

  lemma ReadableStep(lib: Library, rs: seq<Record>, after: nat)
    requires rs != []
    ensures
      var n, m := Readable(lib, rs), Readable(lib, rs[1..]);
      if !Short(lib, rs[0]) then n == 0 && Above(rs[..n], after) == []
      else
        && n == m + 1
        && Above(rs[..n], after) == (if rs[0].sequence > after then [rs[0]] else []) + Above(rs[1..][..m], after)
  {
    if Short(lib, rs[0]) {
      assert rs[..Readable(lib, rs)][1..] == rs[1..][..Readable(lib, rs[1..])];
    }
  }

  /** A replay hands over, in order, the readable records above `after`; a line that is too long stops it with an
      error. */
  lemma {:induction false} ReplayOfLog(lib: Library, rs: seq<Record>, after: nat)
    requires Laws(lib) && AllCompact(lib, rs) && AllValid(lib, rs)
    ensures
      var n := Readable(lib, rs);
      Replayed(lib, Encoded(lib, rs), after)
        == Delivery(Above(rs[..n], after), if n < |rs| then Some(TooLong) else None)
    decreases |rs|
  {
    if rs != [] {
      hide *;
      ReplayStep(lib, rs, after);
      ReadableStep(lib, rs, after);
      ReplayOfLog(lib, rs[1..], after);
    }
  }

  lemma AllTail(lib: Library, rs: seq<Record>)
    requires rs != []
    ensures AllCompact(lib, rs) ==> AllCompact(lib, rs[1..])
    ensures AllValid(lib, rs) ==> AllValid(lib, rs[1..])
  {
    hide Validate;
  }

  /** What the first record of a log contributes to a scan. */
  lemma ScanStep(lib: Library, rs: seq<Record>, sequence: nat)
    requires Laws(lib) && AllCompact(lib, rs) && rs != []
    ensures AllCompact(lib, rs[1..])
    ensures !Short(lib, rs[0]) ==> ScanSequence(lib, Encoded(lib, rs), sequence) == Sequence(sequence)
    ensures Short(lib, rs[0]) && Validate(lib, rs[0]).Some? ==>
      ScanSequence(lib, Encoded(lib, rs), sequence).ScanFailed?
    ensures Short(lib, rs[0]) && Validate(lib, rs[0]).None? ==>
      ScanSequence(lib, Encoded(lib, rs), sequence)
        == ScanSequence(lib, Encoded(lib, rs[1..]), Max(sequence, rs[0].sequence))
  {
    FirstLine(lib, rs);
    LineReadsBack(lib, rs[0]);
    AllTail(lib, rs);
    hide ReadLine, NewlineAt, AfterLine, Encoded, Laws, AllValid, AllCompact, Validate;
  }

  lemma SeenStep(lib: Library, rs: seq<Record>, sequence: nat)
    requires rs != []
    ensures
      var seen, later := rs[..Readable(lib, rs)], rs[1..][..Readable(lib, rs[1..])];
      if !Short(lib, rs[0]) then AllValid(lib, seen) && Highest(seen, sequence) == sequence
      else
        && (AllValid(lib, seen) <==> Validate(lib, rs[0]).None? && AllValid(lib, later))
        && Highest(seen, sequence) == Highest(later, Max(sequence, rs[0].sequence))
  {
    if Short(lib, rs[0]) {
      var seen := rs[..Readable(lib, rs)];
      assert seen[1..] == rs[1..][..Readable(lib, rs[1..])];
      AllValidCons(lib, seen);
      hide AllValid, Validate;
    }
  }

  /** Reopening succeeds exactly if every readable record is valid, and then continues from the highest readable
      sequence number. */
  lemma {:induction false} ScanOfLog(lib: Library, rs: seq<Record>, sequence: nat)
    requires Laws(lib) && AllCompact(lib, rs)
    ensures
      var seen := rs[..Readable(lib, rs)];
      && (ScanSequence(lib, Encoded(lib, rs), sequence).Sequence? <==> AllValid(lib, seen))
      && (AllValid(lib, seen) ==> ScanSequence(lib, Encoded(lib, rs), sequence) == Sequence(Highest(seen, sequence)))
    decreases |rs|
  {
    if rs != [] {
      hide *;
      ScanStep(lib, rs, sequence);
      SeenStep(lib, rs, sequence);
      if Short(lib, rs[0]) && Validate(lib, rs[0]).None? {
        ScanOfLog(lib, rs[1..], Max(sequence, rs[0].sequence));
      }
    }
  }

  lemma AllValidCons(lib: Library, rs: seq<Record>)
    requires rs != []
    ensures AllValid(lib, rs) <==> Validate(lib, rs[0]).None? && AllValid(lib, rs[1..])
  {
    hide Validate;
    if Validate(lib, rs[0]).None? && AllValid(lib, rs[1..]) {
      forall i | 0 <= i < |rs|
        ensures Validate(lib, rs[i]).None?
      {
        assert i > 0 ==> rs[i] == rs[1..][i - 1];
      }
    }
    if AllValid(lib, rs) {
      forall i | 0 <= i < |rs| - 1
        ensures Validate(lib, rs[1..][i]).None?
      {
        assert rs[1..][i] == rs[i + 1];
      }
    }
  }

  function Highest(rs: seq<Record>, sequence: nat): nat
  {
    if rs == [] then sequence else Highest(rs[1..], Max(sequence, rs[0].sequence))
  }

  // ----- runs

  /** The log as a state: the records in the file, and the counter in memory. */
  datatype LogState = LogState(records: seq<Record>, sequence: nat)

  datatype LogStep = Appending(record: Record, outcome: AppendOutcome, now: int) | Reopening

  /** One step; None if reopening fails. */
  function Step(lib: Library, s: LogState, step: LogStep): Option<LogState>
  {
    match step
    case Appending(record, outcome, now) =>
      if outcome.Cancelled? then Some(s)
      else
        var n := s.sequence + 1;
        Some(LogState(if Lands(outcome) then s.records + [Numbered(lib, record, n, now)] else s.records, n))
    case Reopening =>
      match ScanSequence(lib, Encoded(lib, s.records), 0)
      case Sequence(n) => Some(LogState(s.records, n))
      case ScanFailed(_) => None
  }

  /** A whole run from an empty file. */
  function RunLog(lib: Library, steps: seq<LogStep>): Option<LogState>
    decreases |steps|
  {
    if steps == [] then Some(LogState([], 0))
    else
      match RunLog(lib, steps[..|steps| - 1])
      case None => None
      case Some(s) => Step(lib, s, steps[|steps| - 1])
  }

  /** The methods of the log do what the steps say. */
  method PerformStep(w: WAL, ghost s: LogState, step: LogStep) returns (o: Opened)
    requires w.file == Encoded(w.lib, s.records) && w.sequence == s.sequence
    modifies w
    ensures o.Opened? <==> Step(w.lib, s, step).Some?
    ensures o.Opened? ==>
      var s' := Step(w.lib, s, step).value;
      o.wal.lib == w.lib && o.wal.file == Encoded(w.lib, s'.records) && o.wal.sequence == s'.sequence
  {
    match step
    case Appending(record, outcome, now) =>
      if Lands(outcome) {
        EncodedSnoc(w.lib, s.records, Numbered(w.lib, record, s.sequence + 1, now));
      }
      assert Encoded(w.lib, s.records) + "" == Encoded(w.lib, s.records);
      var _ := w.Append(record, outcome, now);
      o := Opened(w);
    case Reopening =>
      o := OpenWAL(w.lib, w.file);
  }

  /** Sequence numbers strictly increase along the file and the counter is not behind them. */
  ghost predicate WellNumbered(s: LogState)
  {
    && (forall i, j :: 0 <= i < j < |s.records| ==> s.records[i].sequence < s.records[j].sequence)
    && (forall i :: 0 <= i < |s.records| ==> s.records[i].sequence <= s.sequence)
  }

  ghost predicate AllShort(lib: Library, rs: seq<Record>)
  {
    forall i :: 0 <= i < |rs| ==> Short(lib, rs[i])
  }

  ghost predicate AllWellIdentified(lib: Library, steps: seq<LogStep>)
  {
    forall i :: 0 <= i < |steps| && steps[i].Appending? ==>
      WellIdentified(steps[i].record) && lib.compact(steps[i].record.payload)
  }

  lemma {:induction false} HighestOfIncreasing(rs: seq<Record>, sequence: nat)
    requires forall i, j :: 0 <= i < j < |rs| ==> rs[i].sequence < rs[j].sequence
    ensures Highest(rs, sequence) == if rs == [] then sequence else Max(sequence, rs[|rs| - 1].sequence)
    decreases |rs|
  {
    if rs != [] {
      HighestOfIncreasing(rs[1..], Max(sequence, rs[0].sequence));
    }
  }

  /** Reopening a well-numbered log keeps the counter from falling behind exactly if no line is too long to be
      scanned: `scanSequence` does not look at the scanner's error. */
  lemma ReopeningKeepsNumbersIffAllShort(lib: Library, s: LogState)
    requires Laws(lib) && WellNumbered(s) && AllCompact(lib, s.records) && AllValid(lib, s.records)
    ensures
      var reopened := Step(lib, s, Reopening);
      && reopened.Some? && reopened.value.records == s.records
      && (WellNumbered(reopened.value) <==> AllShort(lib, s.records))
  {
    var rs := s.records;
    ReopeningCounts(lib, s);
    ValidSequencesArePositive(lib, rs);
    hide Step, AllValid, AllCompact, Laws;
    var n := Readable(lib, rs);
    if n < |rs| {
      assert n > 0 ==> rs[n - 1].sequence < rs[n].sequence;
      assert !Short(lib, rs[n]);
    }
  }

  /** Reopening counts up to the last readable record. */
  lemma ReopeningCounts(lib: Library, s: LogState)
    requires Laws(lib) && WellNumbered(s) && AllCompact(lib, s.records) && AllValid(lib, s.records)
    ensures
      var n := Readable(lib, s.records);
      Step(lib, s, Reopening) == Some(LogState(s.records, if n == 0 then 0 else s.records[n - 1].sequence))
  {
    var seen := s.records[..Readable(lib, s.records)];
    assert AllValid(lib, seen) by {
      hide Validate;
    }
    ScanOfLog(lib, s.records, 0);
    HighestOfIncreasing(seen, 0);
    hide Encoded, ScanSequence, AllValid, AllCompact, Laws, Highest, Validate;
  }

  lemma ValidSequencesArePositive(lib: Library, rs: seq<Record>)
    requires AllValid(lib, rs)
    ensures forall i :: 0 <= i < |rs| ==> rs[i].sequence > 0
  {
  }

  /** After a line that is too long has been written and the log reopened, the next record gets a number the file
      already holds or has passed. */
  lemma TooLongLineRepeatsNumbers(lib: Library, s: LogState, record: Record, now: int)
    requires Laws(lib) && WellNumbered(s) && AllCompact(lib, s.records) && AllValid(lib, s.records)
      && !AllShort(lib, s.records)
    ensures Step(lib, s, Reopening).Some?
    ensures
      var reopened := Step(lib, s, Reopening).value;
      var next := Step(lib, reopened, Appending(record, Synced, now)).value;
      && |next.records| == |s.records| + 1 && next.records[..|s.records|] == s.records
      && exists i :: 0 <= i < |s.records| && next.records[|s.records|].sequence <= s.records[i].sequence
  {
    ReopeningKeepsNumbersIffAllShort(lib, s);
    var reopened := Step(lib, s, Reopening).value;
    hide Encoded, ScanSequence, AllValid, AllCompact, Laws, Seal;
    assert exists i :: 0 <= i < |s.records| && s.records[i].sequence > reopened.sequence;
  }

  lemma RunLogSnoc(lib: Library, steps: seq<LogStep>, step: LogStep)
    ensures RunLog(lib, []) == Some(LogState([], 0))
    ensures RunLog(lib, steps + [step]) ==
      if RunLog(lib, steps).None? then None else Step(lib, RunLog(lib, steps).value, step)
  {
    assert (steps + [step])[..|steps|] == steps;
  }

  lemma AppendKeepsValid(lib: Library, s: LogState, record: Record, outcome: AppendOutcome, now: int)
    requires AllValid(lib, s.records) && WellIdentified(record)
    ensures AllValid(lib, Step(lib, s, Appending(record, outcome, now)).value.records)
  {
    SealedValidates(lib, record.(sequence := s.sequence + 1, timestamp := now));
    hide Validate, Seal;
  }

  lemma AppendKeepsCompact(lib: Library, s: LogState, record: Record, outcome: AppendOutcome, now: int)
    requires AllCompact(lib, s.records) && lib.compact(record.payload)
    ensures AllCompact(lib, Step(lib, s, Appending(record, outcome, now)).value.records)
  {
    assert Numbered(lib, record, s.sequence + 1, now).payload == record.payload;
    hide Numbered;
  }

  lemma AppendKeepsNumbers(lib: Library, s: LogState, record: Record, outcome: AppendOutcome, now: int)
    requires WellNumbered(s)
    ensures WellNumbered(Step(lib, s, Appending(record, outcome, now)).value)
  {
    SealKeepsSequence(lib, record.(sequence := s.sequence + 1, timestamp := now));
    hide Seal;
  }

  lemma SealKeepsSequence(lib: Library, r: Record)
    ensures Seal(lib, r).sequence == r.sequence
  {
  }

  /** Records are never taken back. */
  lemma StepKeepsRecords(lib: Library, s: LogState, step: LogStep)
    ensures step.Appending? ==> Step(lib, s, step).Some?
    ensures Step(lib, s, step).Some? ==> s.records <= Step(lib, s, step).value.records
  {
    hide Encoded, ScanSequence;
  }

  /** Whatever is in the file of a run whose appended records are well identified is valid, so every reopening
      succeeds. */
  lemma {:induction false} LogStaysValid(lib: Library, steps: seq<LogStep>)
    requires Laws(lib) && AllWellIdentified(lib, steps)
    ensures RunLog(lib, steps).Some?
    ensures AllCompact(lib, RunLog(lib, steps).value.records) && AllValid(lib, RunLog(lib, steps).value.records)
    decreases |steps|
  {
    if steps == [] {
      return;
    }
    var rest, last := steps[..|steps| - 1], steps[|steps| - 1];
    assert steps == rest + [last];
    LogStaysValid(lib, rest);
    RunLogSnoc(lib, rest, last);
    hide RunLog, Laws;
    var s := RunLog(lib, rest).value;
    StepKeepsRecords(lib, s, last);
    if last.Appending? {
      AppendKeepsCompact(lib, s, last.record, last.outcome, last.now);
      AppendKeepsValid(lib, s, last.record, last.outcome, last.now);
    } else {
      ScanOfLog(lib, s.records, 0);
      hide Encoded, ScanSequence;
    }
  }

  /** Log well-formedness over runs: after any interleaving of appends that succeed, write nothing or go unsynced, and
      of reopenings, every reopening has succeeded and every record in the file is valid; and as long as no line in
      the file is too long, sequence numbers strictly increase along the file and the counter is not behind them. */
  lemma {:induction false} LogStaysWellFormed(lib: Library, steps: seq<LogStep>)
    requires Laws(lib) && AllWellIdentified(lib, steps)
    ensures RunLog(lib, steps).Some?
    ensures AllCompact(lib, RunLog(lib, steps).value.records) && AllValid(lib, RunLog(lib, steps).value.records)
    ensures AllShort(lib, RunLog(lib, steps).value.records) ==> WellNumbered(RunLog(lib, steps).value)
    decreases |steps|
  {
    LogStaysValid(lib, steps);
    if steps == [] {
      return;
    }
    var rest, last := steps[..|steps| - 1], steps[|steps| - 1];
    assert steps == rest + [last];
    LogStaysWellFormed(lib, rest);
    RunLogSnoc(lib, rest, last);
    hide RunLog, Laws, Short, Step, AllValid, AllCompact;
    var s := RunLog(lib, rest).value;
    StepKeepsRecords(lib, s, last);
    if AllShort(lib, RunLog(lib, steps).value.records) {
      assert AllShort(lib, s.records);
      hide AllShort, WellNumbered;
      if last.Appending? {
        AppendKeepsNumbers(lib, s, last.record, last.outcome, last.now);
      } else {
        ReopeningKeepsNumbersIffAllShort(lib, s);
      }
    }
  }

  lemma {:induction false} AllAbove(rs: seq<Record>, after: nat)
    requires forall i :: 0 <= i < |rs| ==> rs[i].sequence > after
    ensures Above(rs, after) == rs
  {
    if rs != [] {
      AllAbove(rs[1..], after);
    }
  }

  /** The records above `after` are those from place k on. */
  ghost predicate StartsAfter(rs: seq<Record>, k: nat, after: nat)
  {
    k <= |rs| && forall i :: 0 <= i < |rs| ==> (rs[i].sequence > after <==> k <= i)
  }

  lemma {:induction false} AboveIsSuffix(rs: seq<Record>, after: nat) returns (k: nat)
    requires forall i, j :: 0 <= i < j < |rs| ==> rs[i].sequence < rs[j].sequence
    ensures StartsAfter(rs, k, after) && Above(rs, after) == rs[k..]
    decreases |rs|
  {
    if rs == [] {
      k := 0;
    } else if rs[0].sequence > after {
      k := 0;
      AllAbove(rs, after);
    } else {
      k := AboveIsSuffix(rs[1..], after);
      assert forall i :: 0 < i < |rs| ==> rs[i] == rs[1..][i - 1];
      k := k + 1;
    }
  }

  /** On a well-formed log a replay delivers exactly the records above `after`, in order and without error; from
      zero, that is every record ever written. */
  lemma ReplayDeliversSuffix(lib: Library, s: LogState, after: nat) returns (k: nat)
    requires Laws(lib) && WellNumbered(s) && AllCompact(lib, s.records) && AllValid(lib, s.records)
      && AllShort(lib, s.records)
    ensures StartsAfter(s.records, k, after)
    ensures Replayed(lib, Encoded(lib, s.records), after) == Delivery(s.records[k..], None)
    ensures Replayed(lib, Encoded(lib, s.records), 0) == Delivery(s.records, None)
  {
    ReplayOfLog(lib, s.records, after);
    ReplayOfLog(lib, s.records, 0);
    ValidSequencesArePositive(lib, s.records);
    AllAbove(s.records, 0);
    assert Readable(lib, s.records) == |s.records| && s.records[..|s.records|] == s.records;
    hide Replayed, Encoded, Above, AllValid, AllCompact, Laws, AllShort, Readable;
    k := AboveIsSuffix(s.records, after);
  }

  /** The shortest run that repeats a number: one record whose payload alone fills the scanner's buffer, a reopening,
      and another record. Both get the number one. */
  lemma TooLongLineRepeatsOne(lib: Library, big: Record, next: Record)
    requires Laws(lib) && lib.compact(big.payload) && |big.payload| >= MAX_LINE && WellIdentified(big)
    ensures
      var run := RunLog(lib, [Appending(big, Synced, 0), Reopening, Appending(next, Synced, 0)]);
      && run.Some? && |run.value.records| == 2
      && run.value.records[0].sequence == run.value.records[1].sequence == 1
  {
    var first, second := Numbered(lib, big, 1, 0), Numbered(lib, next, 1, 0);
    ReopeningSeesNothing(lib, first);
    SealKeepsSequence(lib, big.(sequence := 1, timestamp := 0));
    SealKeepsSequence(lib, next.(sequence := 1, timestamp := 0));
    assert first.payload == big.payload && first.sequence == second.sequence == 1;
    hide RunLog, Encoded, ScanSequence, Laws, Numbered;
    RunLogSnoc(lib, [], Appending(big, Synced, 0));
    RunLogSnoc(lib, [Appending(big, Synced, 0)], Reopening);
    RunLogSnoc(lib, [Appending(big, Synced, 0), Reopening], Appending(next, Synced, 0));
    hide Step;
    assert [] + [Appending(big, Synced, 0)] == [Appending(big, Synced, 0)];
    assert [Appending(big, Synced, 0)] + [Reopening] == [Appending(big, Synced, 0), Reopening];
    assert [Appending(big, Synced, 0), Reopening] + [Appending(next, Synced, 0)]
      == [Appending(big, Synced, 0), Reopening, Appending(next, Synced, 0)];
    AppendSynced(lib, LogState([], 0), big);
    AppendSynced(lib, LogState([first], 0), next);
    assert [] + [first] == [first];
  }

  lemma AppendSynced(lib: Library, s: LogState, record: Record)
    ensures Step(lib, s, Appending(record, Synced, 0))
         == Some(LogState(s.records + [Numbered(lib, record, s.sequence + 1, 0)], s.sequence + 1))
  {
  }

  lemma ReopeningSeesNothing(lib: Library, big: Record)
    requires Laws(lib) && lib.compact(big.payload) && |big.payload| >= MAX_LINE
    ensures Step(lib, LogState([big], 1), Reopening) == Some(LogState([big], 0))
  {
    assert !Short(lib, big) && Readable(lib, [big]) == 0;
    ScanOfLog(lib, [big], 0);
    hide Encoded, ScanSequence, Laws;
  }
}
