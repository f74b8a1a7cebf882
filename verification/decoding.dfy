/** The per-line decode loop of `JsonReader.main`: every line either becomes
    a `DataRecord` or an error string, and a mapping failure never stops the
    loop. */
module Decoding {
  import opened Records

  /** What decoding one line with `ObjectMapper.readValue` can produce. Only
      a `JsonMappingException` is caught by the loop; any other
      `IOException` (a low-level parse error, for instance) escapes `main`. */
  datatype DecodeOutcome =
    | Parsed(record: DataRecord)
    | MappingFailure(message: string)
    | OtherFailure(message: string)

  /** The state after the reading loop: the decoded records and the error
      lines, or the message of the exception that ended the run. */
  datatype Ingest =
    | Loaded(records: seq<DataRecord>, errors: seq<string>)
    | Crashed(message: string)

  /** Text between the decoder's message and the raw line in an error entry. */
  const Separator: string := " in record "

  /** The error entry for a line that failed to map: the decoder's message,
      then the raw line. */
  function FormatError(message: string, line: string): (e: string)
    ensures |e| == |message| + |Separator| + |line|
    ensures e[..|message|] == message
    ensures e[|message|..|message| + |Separator|] == Separator
    ensures e[|e| - |line|..] == line
  {
    message + Separator + line
  }

  /** The loop as a left fold over the lines read so far. */
  function DecodeLines(decode: string -> DecodeOutcome, lines: seq<string>): (r: Ingest)
    ensures r.Loaded? <==> forall i :: 0 <= i < |lines| ==> !decode(lines[i]).OtherFailure?
    ensures r.Loaded? ==> |r.records| + |r.errors| == |lines|
  {
    if |lines| == 0 then Loaded([], [])
    else
      var line := lines[|lines| - 1];
      match DecodeLines(decode, lines[..|lines| - 1])
      case Crashed(m) => Crashed(m)
      case Loaded(records, errors) =>
        match decode(line)
        case Parsed(rec) => Loaded(records + [rec], errors)
        case MappingFailure(m) => Loaded(records, errors + [FormatError(m, line)])
        case OtherFailure(m) => Crashed(m)
  }

  /** The reading loop itself. */
  method ReadRecords(decode: string -> DecodeOutcome, lines: seq<string>) returns (r: Ingest)
    ensures r == DecodeLines(decode, lines)
  {
    var records: seq<DataRecord> := [];
    var errors: seq<string> := [];
    var i := 0;
    while i < |lines|
      invariant 0 <= i <= |lines|
      invariant DecodeLines(decode, lines[..i]) == Loaded(records, errors)
    {
      var line := lines[i];
      assert lines[..i + 1][..i] == lines[..i];
      match decode(line) {
        case Parsed(rec) =>
          records := records + [rec];
        case MappingFailure(m) =>
          errors := errors + [FormatError(m, line)];
        case OtherFailure(m) =>
          assert lines == lines[..i + 1] + lines[i + 1..];
          DecodeLinesAppend(decode, lines[..i + 1], lines[i + 1..]);
          return Crashed(m);
      }
      i := i + 1;
    }
    assert lines[..i] == lines;
    return Loaded(records, errors);
  }

  /** Running the loop over two batches of lines one after the other. */
  function Then(first: Ingest, second: Ingest): Ingest {
    match first
    case Crashed(_) => first
    case Loaded(r1, e1) =>
      match second
      case Crashed(m) => Crashed(m)
      case Loaded(r2, e2) => Loaded(r1 + r2, e1 + e2)
  }

  /** Both output lists keep encounter order: decoding `a + b` gives the
      outcome of `a` followed by that of `b`. */
  lemma {:induction false} DecodeLinesAppend(decode: string -> DecodeOutcome, a: seq<string>, b: seq<string>)
    ensures DecodeLines(decode, a + b) == Then(DecodeLines(decode, a), DecodeLines(decode, b))
    decreases |b|
  {
    if |b| == 0 {
      assert a + b == a;
    } else {
      var b' := b[..|b| - 1];
      assert (a + b)[..|a + b| - 1] == a + b';
      assert (a + b)[|a + b| - 1] == b[|b| - 1];
      DecodeLinesAppend(decode, a, b');
    }
  }

  /** A line that fails to map leaves the records of all other lines as
      they were and adds exactly its own error entry, in its place. */
  lemma MalformedLineIsIsolated(decode: string -> DecodeOutcome, a: seq<string>, line: string, b: seq<string>)
    requires decode(line).MappingFailure?
    ensures DecodeLines(decode, a + [line] + b).Loaded? == DecodeLines(decode, a + b).Loaded?
    ensures DecodeLines(decode, a + b).Loaded? ==>
      && DecodeLines(decode, a + [line] + b).records == DecodeLines(decode, a + b).records
      && |DecodeLines(decode, a + [line] + b).errors| == |DecodeLines(decode, a + b).errors| + 1
    ensures DecodeLines(decode, a + [line] + b)
      == Then(DecodeLines(decode, a), Then(Loaded([], [FormatError(decode(line).message, line)]), DecodeLines(decode, b)))
  {
    DecodeLinesAppend(decode, a + [line], b);
    DecodeLinesAppend(decode, a, [line]);
    DecodeLinesAppend(decode, a, b);
    assert [line][..0] == [];
  }

  /** `e` is the error entry the loop writes for `line`. */
  predicate Reports(decode: string -> DecodeOutcome, line: string, e: string) {
    decode(line).MappingFailure? && e == FormatError(decode(line).message, line)
  }

  /** After a completed run, the records are exactly what the decoder
      produced for some line, and every error entry names a line that failed
      to map together with the decoder's message for it. */
  lemma {:induction false} DecodeLinesTrace(decode: string -> DecodeOutcome, lines: seq<string>)
    requires DecodeLines(decode, lines).Loaded?
    ensures forall rec :: rec in DecodeLines(decode, lines).records <==>
      exists i :: 0 <= i < |lines| && decode(lines[i]) == Parsed(rec)
    ensures forall e :: e in DecodeLines(decode, lines).errors <==>
      exists i :: 0 <= i < |lines| && Reports(decode, lines[i], e)
    decreases |lines|
  {
    if |lines| > 0 {
      var prefix := lines[..|lines| - 1];
      DecodeLinesTrace(decode, prefix);
      forall rec | exists i :: 0 <= i < |lines| && decode(lines[i]) == Parsed(rec)
        ensures rec in DecodeLines(decode, lines).records
      {
        var i :| 0 <= i < |lines| && decode(lines[i]) == Parsed(rec);
        if i < |lines| - 1 {
          assert prefix[i] == lines[i];
        }
      }
      forall e | exists i :: 0 <= i < |lines| && Reports(decode, lines[i], e)
        ensures e in DecodeLines(decode, lines).errors
      {
        var i :| 0 <= i < |lines| && Reports(decode, lines[i], e);
        if i < |lines| - 1 {
          assert prefix[i] == lines[i];
        }
      }
    }
  }

  /** How many lines the decoder fails to map. */
  function MappingFailures(decode: string -> DecodeOutcome, lines: seq<string>): nat {
    if |lines| == 0 then 0
    else MappingFailures(decode, lines[..|lines| - 1]) + if decode(lines[|lines| - 1]).MappingFailure? then 1 else 0
  }

  /** One error entry per line that failed to map, and one record per line
      that decoded. */
  lemma {:induction false} ErrorCount(decode: string -> DecodeOutcome, lines: seq<string>)
    requires DecodeLines(decode, lines).Loaded?
    ensures |DecodeLines(decode, lines).errors| == MappingFailures(decode, lines)
    ensures |DecodeLines(decode, lines).records| == |lines| - MappingFailures(decode, lines)
    decreases |lines|
  {
    if |lines| > 0 {
      ErrorCount(decode, lines[..|lines| - 1]);
    }
  }
}
