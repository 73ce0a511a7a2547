/** What makes a line of the log good or bad, what a bad line does, and what an append writes, field by field
    (`Validate`, `Seal`, `Append`, `scanSequence` and `Replay` in internal/storage/wal.go). */
module LogIntegrity {
  import opened Options
  import opened WalLaws
  import opened WriteAheadLog

  /** Numbered, identified, of a known operation, and with the digest of its own encoding as the checksum. */
  ghost predicate IsIntact(lib: Library, r: Record)
  {
    && r.sequence > 0 && r.tenant != "" && r.collection != "" && r.documentId != ""
    && (r.operation.UpsertOperation? || r.operation.DeleteOperation?)
    && r.checksum == lib.digest(lib.marshal(r.(checksum := "")))
  }

  lemma ValidIff(lib: Library, r: Record)
    ensures Validate(lib, r).None? <==> IsIntact(lib, r)
  {
  }

  /** A line is read as the record it decodes to if that is intact; a carriage return at its end does not count. */
  lemma LineMeans(lib: Library, line: string)
    ensures
      var text := if line != "" && line[|line| - 1] == '\r' then line[..|line| - 1] else line;
      match ReadLine(lib, line)
      case Good(r) => lib.unmarshal(text) == Some(r) && IsIntact(lib, r)
      case Bad(_) => lib.unmarshal(text).None? || !IsIntact(lib, lib.unmarshal(text).value)
  {
    if lib.unmarshal(DropCR(line)).Some? {
      ValidIff(lib, lib.unmarshal(DropCR(line)).value);
    }
    hide Validate, IsIntact;
  }

  /** A line that cannot be used: it does not decode, or what it decodes to is not intact. */
  ghost predicate IsDamaged(lib: Library, line: string)
  {
    var text := if line != "" && line[|line| - 1] == '\r' then line[..|line| - 1] else line;
    lib.unmarshal(text).None? || !IsIntact(lib, lib.unmarshal(text).value)
  }

  /** All lines are shorter than 16 MiB. */
  ghost predicate AllInLimit(lib: Library, rs: seq<Record>)
  {
    forall i :: 0 <= i < |rs| ==> |lib.marshal(rs[i])| < 16777216
  }

  lemma DamagedFirst(lib: Library, line: string, rest: string)
    requires '\n' !in line && |line| < 16777216 && IsDamaged(lib, line)
    ensures forall sequence :: ScanSequence(lib, line + "\n" + rest, sequence).ScanFailed?
    ensures forall after :: Replayed(lib, line + "\n" + rest, after).records == []
    ensures forall after :: Replayed(lib, line + "\n" + rest, after).error.Some?
  {
    var data := line + "\n" + rest;
    NewlineAfter(line, rest);
    assert data[..|line|] == line;
    LineMeans(lib, line);
    hide ReadLine, IsIntact;
  }

  /** A damaged line behind any records makes opening the log fail, and a replay delivers nothing from it on and
      fails. */
  lemma {:induction false} DamageStopsTheLog(lib: Library, before: seq<Record>, line: string, rest: string,
                                             sequence: nat, after: nat)
    requires Laws(lib) && AllCompact(lib, before) && AllInLimit(lib, before)
    requires '\n' !in line && |line| < 16777216 && IsDamaged(lib, line)
    ensures
      var data := Encoded(lib, before) + (line + "\n" + rest);
      && ScanSequence(lib, data, sequence).ScanFailed?
      && Replayed(lib, data, after).error.Some?
      && Replayed(lib, data, after).records <= Above(before, after)
    decreases |before|
  {
    if before == [] {
      assert "" + (line + "\n" + rest) == line + "\n" + rest;
      DamagedFirst(lib, line, rest);
    } else {
      var tail := Encoded(lib, before[1..]) + (line + "\n" + rest);
      FirstOfMany(lib, before, line + "\n" + rest);
      LineReadsBack(lib, before[0]);
      AllTail(lib, before);
      LimitTail(lib, before);
      hide *;
      if Validate(lib, before[0]).None? {
        DamageStopsTheLog(lib, before[1..], line, rest, Max(sequence, before[0].sequence), after);
      }
      OneMoreLine(lib, before, Encoded(lib, before) + (line + "\n" + rest), tail, sequence, after);
    }
  }

  /** A line in front of a log that fails. */
  lemma OneMoreLine(lib: Library, before: seq<Record>, data: string, tail: string, sequence: nat, after: nat)
    requires before != [] && data != "" && NewlineAt(data) < MAX_LINE && AfterLine(data) == tail
    requires ReadLine(lib, data[..NewlineAt(data)]) ==
      if Validate(lib, before[0]).None? then Good(before[0]) else Bad(InvalidRecord(Validate(lib, before[0]).value))
    requires Validate(lib, before[0]).None? ==>
      && ScanSequence(lib, tail, Max(sequence, before[0].sequence)).ScanFailed?
      && Replayed(lib, tail, after).error.Some? && Replayed(lib, tail, after).records <= Above(before[1..], after)
    ensures ScanSequence(lib, data, sequence).ScanFailed?
    ensures Replayed(lib, data, after).error.Some? && Replayed(lib, data, after).records <= Above(before, after)
  {
    hide ReadLine, NewlineAt, AfterLine, Validate;
  }

  lemma LimitTail(lib: Library, rs: seq<Record>)
    requires rs != [] && AllInLimit(lib, rs)
    ensures AllInLimit(lib, rs[1..]) && |lib.marshal(rs[0])| < MAX_LINE
  {
  }

  lemma FirstOfMany(lib: Library, rs: seq<Record>, rest: string)
    requires Laws(lib) && rs != [] && lib.compact(rs[0].payload)
    ensures
      var data := Encoded(lib, rs) + rest;
      && data != "" && NewlineAt(data) == |lib.marshal(rs[0])|
      && data[..NewlineAt(data)] == lib.marshal(rs[0])
      && AfterLine(data) == Encoded(lib, rs[1..]) + rest
  {
    var line, more := lib.marshal(rs[0]), Encoded(lib, rs[1..]) + rest;
    assert Encoded(lib, rs) + rest == line + "\n" + more;
    NewlineAfter(line, more);
    hide NewlineAt, Encoded;
    var data := line + "\n" + more;
    assert data[..|line|] == line && data[|line| + 1..] == more;
  }

  /** A sealed record with something changed: its checksum only, or anything else that the digest tells apart, with the
      checksum left as it was. */
  ghost predicate IsTampered(lib: Library, r: Record, t: Record)
  {
    var r', t' := r.(checksum := ""), t.(checksum := "");
    && t != r && r.checksum == lib.digest(lib.marshal(r'))
    && (t' == r' || (t.checksum == r.checksum && lib.digest(lib.marshal(t')) != lib.digest(lib.marshal(r'))))
  }

  lemma TamperedIsDamaged(lib: Library, r: Record, t: Record)
    requires Laws(lib) && lib.compact(t.payload) && IsTampered(lib, r, t)
    ensures IsDamaged(lib, lib.marshal(t))
  {
    assert lib.unmarshal(lib.marshal(t)) == Some(t);
    SameRecord(r, t);
  }

  lemma SameRecord(r: Record, t: Record)
    ensures t.(checksum := "") == r.(checksum := "") && t.checksum == r.checksum ==> t == r
  {
  }

  /** Tampering: if a sealed record in the file is changed, the log does not open any more, and a replay delivers
      nothing from that record on. */
  lemma TamperingStopsTheLog(lib: Library, before: seq<Record>, r: Record, t: Record, rest: string, after: nat)
    requires Laws(lib) && AllCompact(lib, before) && AllInLimit(lib, before)
    requires lib.compact(t.payload) && |lib.marshal(t)| < 16777216 && IsTampered(lib, r, t)
    ensures
      var data := Encoded(lib, before) + (lib.marshal(t) + "\n" + rest);
      && ScanSequence(lib, data, 0).ScanFailed?
      && Replayed(lib, data, after).error.Some?
      && Replayed(lib, data, after).records <= Above(before, after)
  {
    TamperedIsDamaged(lib, r, t);
    hide Encoded, ScanSequence, Replayed, IsDamaged, IsTampered, AllCompact, AllInLimit;
    DamageStopsTheLog(lib, before, lib.marshal(t), rest, 0, after);
  }

  /** The objects do the same: a tampered file cannot be opened. */
  method OpenTampered(lib: Library, before: seq<Record>, r: Record, t: Record, rest: string) returns (o: Opened)
    requires Laws(lib) && AllCompact(lib, before) && AllInLimit(lib, before)
    requires lib.compact(t.payload) && |lib.marshal(t)| < 16777216 && IsTampered(lib, r, t)
    ensures o.OpenFailed?
  {
    TamperingStopsTheLog(lib, before, r, t, rest, 0);
    var data := Encoded(lib, before) + (lib.marshal(t) + "\n" + rest);
    hide *;
    o := OpenWAL(lib, data);
  }

  // ----- lines of 16 MiB

  /** A first line of 16 MiB or more is not read: opening takes the log for empty, and a replay fails. */
  lemma LimitIs16MiB(lib: Library, line: string, rest: string, sequence: nat, after: nat)
    requires '\n' !in line && |line| >= 16777216
    ensures ScanSequence(lib, line + "\n" + rest, sequence) == Sequence(sequence)
    ensures Replayed(lib, line + "\n" + rest, after) == Delivery([], Some(TooLong))
  {
    NewlineAfter(line, rest);
  }

  // ----- numbers

  /** The highest sequence number is not below any record's, and is one of them or the one that was given. */
  lemma {:induction false} HighestMeans(rs: seq<Record>, sequence: nat)
    ensures forall i :: 0 <= i < |rs| ==> rs[i].sequence <= Highest(rs, sequence)
    ensures sequence <= Highest(rs, sequence)
    ensures Highest(rs, sequence) == sequence || exists i :: 0 <= i < |rs| && rs[i].sequence == Highest(rs, sequence)
  {
    if rs != [] {
      HighestMeans(rs[1..], Max(sequence, rs[0].sequence));
      assert forall i :: 0 < i < |rs| ==> rs[i] == rs[1..][i - 1];
      if k :| 0 <= k < |rs| - 1 && rs[1..][k].sequence == Highest(rs, sequence) {
        assert rs[k + 1].sequence == Highest(rs, sequence);
      }
    }
  }

  // ----- what an append writes

  /** An append that reaches the file adds one line: the caller's record with the next number, the time, and the
      digest of its own encoding. */
  method AppendWrites(w: WAL, record: Record, now: int) returns (sequence: Option<nat>)
    modifies w
    ensures sequence == Some(old(w.sequence) + 1) && w.sequence == old(w.sequence) + 1
    ensures
      var r := record.(sequence := old(w.sequence) + 1, timestamp := now, checksum := "");
      w.file == old(w.file) + (w.lib.marshal(r.(checksum := w.lib.digest(w.lib.marshal(r)))) + "\n")
  {
    NumberedIs(w.lib, record, w.sequence + 1, now);
    hide Numbered;
    sequence := w.Append(record, Synced, now);
  }

  lemma NumberedIs(lib: Library, record: Record, sequence: nat, now: int)
    ensures
      var r := record.(sequence := sequence, timestamp := now, checksum := "");
      Numbered(lib, record, sequence, now) == r.(checksum := lib.digest(lib.marshal(r)))
  {
  }
}
