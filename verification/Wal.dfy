/** The write-ahead log of internal/storage/wal.go: an append-only file of checksummed JSON lines. */
module WriteAheadLog {
  import opened Options

  datatype Operation = UpsertOperation | DeleteOperation | OtherOperation(name: string)

  /** `payload` is JSON already, or empty. */
  datatype Record = Record(sequence: nat, operation: Operation, tenant: string, collection: string, documentId: string,
                           version: nat, payload: string, timestamp: int, checksum: string)

  /** encoding/json on records, and SHA-256 in hexadecimal. `compact` says which payloads are written as they are: those
      that encoding/json has produced itself, and the empty one, which is left out. */
  datatype Library = Library(marshal: Record -> string, unmarshal: string -> Option<Record>, digest: string -> string,
                             compact: string -> bool)

  /** A record with such a payload reads back as itself and is written on one line that ends in a brace and is no
      shorter than the payload. */
  ghost predicate Laws(lib: Library)
  {
    && lib.compact("")
    && forall r: Record :: lib.compact(r.payload) ==>
         && lib.unmarshal(lib.marshal(r)) == Some(r)
         && '\n' !in lib.marshal(r)
         && |lib.marshal(r)| > |r.payload| && lib.marshal(r)[|lib.marshal(r)| - 1] == '}'
  }

  // ----- records

  datatype RecordError = InvalidIdentity | InvalidOperation | ChecksumMismatch

  datatype LogError = DecodeError | InvalidRecord(error: RecordError) | TooLong | Interrupted | ApplyFailed

  function CalculateChecksum(lib: Library, r: Record): string
  {
    lib.digest(lib.marshal(r.(checksum := "")))
  }

  function Seal(lib: Library, r: Record): Record
  {
    r.(checksum := CalculateChecksum(lib, r))
  }

  function Validate(lib: Library, r: Record): Option<RecordError>
  {
    if r.sequence == 0 || r.tenant == "" || r.collection == "" || r.documentId == "" then Some(InvalidIdentity)
    else if !r.operation.UpsertOperation? && !r.operation.DeleteOperation? then Some(InvalidOperation)
    else if r.checksum != CalculateChecksum(lib, r) then Some(ChecksumMismatch)
    else None
  }

  predicate WellIdentified(r: Record)
  {
    r.tenant != "" && r.collection != "" && r.documentId != "" && !r.operation.OtherOperation?
  }

  /** A sealed record validates exactly if it is numbered and well identified: sealing never spoils the checksum. */
  lemma SealedValidates(lib: Library, r: Record)
    ensures Validate(lib, Seal(lib, r)).None? <==> r.sequence > 0 && WellIdentified(r)
  {
    assert Seal(lib, r).(checksum := "") == r.(checksum := "");
  }

  // ----- lines

  const MAX_LINE: nat := 16 * 1024 * 1024

  /** Index of the first newline; |data| if there is none. */
  function NewlineAt(data: string): (i: nat)
    ensures i <= |data|
    ensures i < |data| ==> data[i] == '\n'
    ensures forall j :: 0 <= j < i ==> data[j] != '\n'
  {
    if data == "" || data[0] == '\n' then 0 else 1 + NewlineAt(data[1..])
  }

  /** `bufio.ScanLines` drops a carriage return before the newline. */
  function DropCR(line: string): string
  {
    if line != "" && line[|line| - 1] == '\r' then line[..|line| - 1] else line
  }

  function AfterLine(data: string): string
  {
    var i := NewlineAt(data);
    if i < |data| then data[i + 1..] else ""
  }

  lemma AfterLineShrinks(data: string)
    requires data != ""
    ensures |AfterLine(data)| < |data|
  {
  }

  /** What a line holds: a valid record or the reason why not. */
  function ReadLine(lib: Library, line: string): Result
  {
    var r := lib.unmarshal(DropCR(line));
    if r.None? then Bad(DecodeError)
    else if Validate(lib, r.value).Some? then Bad(InvalidRecord(Validate(lib, r.value).value))
    else Good(r.value)
  }

  datatype Result = Good(record: Record) | Bad(error: LogError)

  // ----- reading a file

  function Max(a: nat, b: nat): nat
  {
    if a < b then b else a
  }

  datatype Scanned = Sequence(n: nat) | ScanFailed(error: LogError)

  /** `scanSequence`: the highest sequence number. The scanner's own error, a line of 16 MiB or more, is not looked at:
      it ends the scan as if the file ended there. */
  function ScanSequence(lib: Library, data: string, sequence: nat): Scanned
    decreases |data|
  {
    if data == "" || NewlineAt(data) >= MAX_LINE then Sequence(sequence)
    else
      AfterLineShrinks(data);
      match ReadLine(lib, data[..NewlineAt(data)])
      case Bad(e) => ScanFailed(e)
      case Good(r) => ScanSequence(lib, AfterLine(data), Max(sequence, r.sequence))
  }

  /** What a replay hands to its callback, and the error it ends with. */
  datatype Delivery = Delivery(records: seq<Record>, error: Option<LogError>)

  function Replayed(lib: Library, data: string, after: nat): Delivery
    decreases |data|
  {
    if data == "" then Delivery([], None)
    else if NewlineAt(data) >= MAX_LINE then Delivery([], Some(TooLong))
    else
      AfterLineShrinks(data);
      match ReadLine(lib, data[..NewlineAt(data)])
      case Bad(e) => Delivery([], Some(e))
      case Good(r) =>
        var rest := Replayed(lib, AfterLine(data), after);
        if r.sequence > after then rest.(records := [r] + rest.records) else rest
  }

  function Less1(n: Option<nat>): Option<nat>
  {
    if n.Some? && n.value > 0 then Some(n.value - 1) else n
  }

  /** The same when the context is done after some lines, or the callback fails after some calls; None if that never
      happens. A record the callback fails on has been handed over. */
  function ReplayedUntil(lib: Library, data: string, after: nat, lines: Option<nat>, calls: Option<nat>): Delivery
    decreases |data|
  {
    if data == "" then Delivery([], None)
    else if NewlineAt(data) >= MAX_LINE then Delivery([], Some(TooLong))
    else if lines == Some(0) then Delivery([], Some(Interrupted))
    else
      AfterLineShrinks(data);
      match ReadLine(lib, data[..NewlineAt(data)])
      case Bad(e) => Delivery([], Some(e))
      case Good(r) =>
        if r.sequence <= after then ReplayedUntil(lib, AfterLine(data), after, Less1(lines), calls)
        else if calls == Some(0) then Delivery([r], Some(ApplyFailed))
        else
          var rest := ReplayedUntil(lib, AfterLine(data), after, Less1(lines), Less1(calls));
          rest.(records := [r] + rest.records)
  }

  function Behind(delivered: seq<Record>, rest: Delivery): Delivery
  {
    Delivery(delivered + rest.records, rest.error)
  }

  /** One line of a replay that has delivered some records already. */
  lemma UntilByLine(lib: Library, delivered: seq<Record>, data: string, after: nat, lines: Option<nat>,
                    calls: Option<nat>)
    requires data != "" && NewlineAt(data) < MAX_LINE && lines != Some(0)
    ensures |AfterLine(data)| < |data|
    ensures
      var whole := Behind(delivered, ReplayedUntil(lib, data, after, lines, calls));
      match ReadLine(lib, data[..NewlineAt(data)])
      case Bad(e) => whole == Delivery(delivered, Some(e))
      case Good(r) =>
        if r.sequence <= after
        then whole == Behind(delivered, ReplayedUntil(lib, AfterLine(data), after, Less1(lines), calls))
        else if calls == Some(0) then whole == Delivery(delivered + [r], Some(ApplyFailed))
        else whole == Behind(delivered + [r], ReplayedUntil(lib, AfterLine(data), after, Less1(lines), Less1(calls)))
  {
    AfterLineShrinks(data);
    hide ReadLine, NewlineAt, AfterLine;
    var line := ReadLine(lib, data[..NewlineAt(data)]);
    if line.Good? {
      var rest := ReplayedUntil(lib, AfterLine(data), after, Less1(lines), Less1(calls)).records;
      assert delivered + ([line.record] + rest) == delivered + [line.record] + rest;
    }
  }

  lemma UntilAtEnd(lib: Library, delivered: seq<Record>, data: string, after: nat, lines: Option<nat>,
                   calls: Option<nat>)
    ensures data == "" ==> Behind(delivered, ReplayedUntil(lib, data, after, lines, calls)) == Delivery(delivered, None)
    ensures data != "" && NewlineAt(data) >= MAX_LINE ==>
      Behind(delivered, ReplayedUntil(lib, data, after, lines, calls)) == Delivery(delivered, Some(TooLong))
    ensures data != "" && NewlineAt(data) < MAX_LINE && lines == Some(0) ==>
      Behind(delivered, ReplayedUntil(lib, data, after, lines, calls)) == Delivery(delivered, Some(Interrupted))
  {
    hide NewlineAt;
  }

  lemma BehindNothing(rest: Delivery)
    ensures Behind([], rest) == rest
  {
  }

  lemma AfterLineIs(data: string)
    ensures AfterLine(data) == if NewlineAt(data) < |data| then data[NewlineAt(data) + 1..] else ""
  {
  }

  /** Stopping early delivers the beginning of what a whole replay delivers, and says so; a replay that is not stopped
      is a whole one. */
  lemma {:induction false} StoppedReplayIsPrefix(lib: Library, data: string, after: nat, lines: Option<nat>,
                                                 calls: Option<nat>)
    ensures
      var stopped, whole := ReplayedUntil(lib, data, after, lines, calls), Replayed(lib, data, after);
      && stopped.records <= whole.records
      && (stopped.error == Some(Interrupted) || stopped.error == Some(ApplyFailed) || stopped == whole)
      && (stopped.error == Some(Interrupted) ==> lines.Some?)
      && (stopped.error == Some(ApplyFailed) ==> calls.Some? && |stopped.records| == calls.value + 1)
    decreases |data|
  {
    hide NewlineAt;
    if data != "" && NewlineAt(data) < MAX_LINE && lines != Some(0) {
      AfterLineShrinks(data);
      match ReadLine(lib, data[..NewlineAt(data)])
      case Bad(_) =>
      case Good(r) =>
        hide ReadLine;
        if r.sequence <= after {
          StoppedReplayIsPrefix(lib, AfterLine(data), after, Less1(lines), calls);
        } else if calls != Some(0) {
          StoppedReplayIsPrefix(lib, AfterLine(data), after, Less1(lines), Less1(calls));
        }
    }
  }

  // ----- the log object

  /** How an append ends: cancelled before anything happens; the record or its line could not be produced or written;
      the line was written but not synced; or all went well. A write is taken to be all or nothing. */
  datatype AppendOutcome = Cancelled | NotWritten | NotSynced | Synced

  /** Is the line in the file afterwards? */
  predicate Lands(outcome: AppendOutcome)
  {
    outcome.NotSynced? || outcome.Synced?
  }

  function Numbered(lib: Library, r: Record, sequence: nat, now: int): Record
  {
    Seal(lib, r.(sequence := sequence, timestamp := now))
  }

  function Line(lib: Library, r: Record): string
  {
    lib.marshal(r) + "\n"
  }

  method FindNewline(data: string) returns (i: nat)
    ensures i == NewlineAt(data)
  {
    i := 0;
    while i < |data| && data[i] != '\n'
      invariant i <= |data|
      invariant NewlineAt(data) == i + NewlineAt(data[i..])
    {
      i := i + 1;
    }
  }

  class WAL {
    const lib: Library
    var file: string
    var sequence: nat

    constructor (lib: Library, file: string, sequence: nat)
      ensures this.lib == lib && this.file == file && this.sequence == sequence
    {
      this.lib := lib;
      this.file := file;
      this.sequence := sequence;
    }

    method Append(record: Record, outcome: AppendOutcome, now: int) returns (sequence': Option<nat>)
      modifies this
      ensures sequence' == if outcome.Synced? then Some(sequence) else None
      ensures sequence == old(sequence) + if outcome.Cancelled? then 0 else 1
      ensures file == old(file) + if Lands(outcome) then Line(lib, Numbered(lib, record, sequence, now)) else ""
    {
      if outcome.Cancelled? {
        return None;
      }
      sequence := sequence + 1;
      var r := record.(sequence := sequence, timestamp := now);
      r := r.(checksum := CalculateChecksum(lib, r));
      if outcome.NotWritten? {
        return None;
      }
      file := file + (lib.marshal(r) + "\n");
      if outcome.NotSynced? {
        return None;
      }
      sequence' := Some(sequence);
    }

    /** Hands the records above `after` to a callback, line by line. */
    method Replay(after: nat, lines: Option<nat>, calls: Option<nat>)
      returns (delivered: seq<Record>, error: Option<LogError>)
      ensures Delivery(delivered, error) == ReplayedUntil(lib, file, after, lines, calls)
    {
      hide *;
      ghost var whole := ReplayedUntil(lib, file, after, lines, calls);
      BehindNothing(whole);
      delivered, error := [], None;
      var data, linesLeft, callsLeft := file, lines, calls;
      while data != ""
        invariant whole == Behind(delivered, ReplayedUntil(lib, data, after, linesLeft, callsLeft))
        decreases |data|
      {
        UntilAtEnd(lib, delivered, data, after, linesLeft, callsLeft);
        var i := FindNewline(data);
        if i >= MAX_LINE {
          return delivered, Some(TooLong);
        }
        if linesLeft == Some(0) {
          return delivered, Some(Interrupted);
        }
        UntilByLine(lib, delivered, data, after, linesLeft, callsLeft);
        AfterLineIs(data);
        var line := ReadLine(lib, data[..i]);
        if line.Bad? {
          return delivered, Some(line.error);
        }
        if line.record.sequence > after {
          delivered := delivered + [line.record];
          if callsLeft == Some(0) {
            return delivered, Some(ApplyFailed);
          }
          callsLeft := Less1(callsLeft);
        }
        linesLeft := Less1(linesLeft);
        data := if i < |data| then data[i + 1..] else "";
      }
      UntilAtEnd(lib, delivered, data, after, linesLeft, callsLeft);
    }
  }

  datatype Opened = Opened(wal: WAL) | OpenFailed(error: LogError)

  /** Opens an existing file and continues its numbering. */
  method OpenWAL(lib: Library, file: string) returns (o: Opened)
    ensures o.OpenFailed? <==> ScanSequence(lib, file, 0).ScanFailed?
    ensures o.OpenFailed? ==> ScanSequence(lib, file, 0) == ScanFailed(o.error)
    ensures o.Opened? ==>
      fresh(o.wal) && o.wal.lib == lib && o.wal.file == file && ScanSequence(lib, file, 0) == Sequence(o.wal.sequence)
  {
    hide ReadLine, NewlineAt;
    var data, sequence: nat := file, 0;
    while data != ""
      invariant ScanSequence(lib, file, 0) == ScanSequence(lib, data, sequence)
      decreases |data|
    {
      var i := FindNewline(data);
      if i >= MAX_LINE {
        break;
      }
      AfterLineShrinks(data);
      var line := ReadLine(lib, data[..i]);
      if line.Bad? {
        return OpenFailed(line.error);
      }
      if line.record.sequence > sequence {
        sequence := line.record.sequence;
      }
      data := if i < |data| then data[i + 1..] else "";
    }
    var w := new WAL(lib, file, sequence);
    o := Opened(w);
  }
}
