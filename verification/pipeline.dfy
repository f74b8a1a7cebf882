/** `JsonReader.main` from the list of lines to the average and the error
    list: decode, sort, fold, average. */
module Pipeline {
  import opened Wrappers
  import opened Records
  import opened Decoding
  import opened Ordering
  import opened LatestState
  import opened Aggregate

  /** What `main` has once the salary map is built: the map and the error
      lines, or the exception that escaped the reading loop. */
  datatype Outcome =
    | Finished(table: Table, errors: seq<string>)
    | Aborted(message: string)

  /** Decode every line, sort the records by event id, fold them into the
      salary map. */
  function Reduce(decode: string -> DecodeOutcome, lines: seq<string>): (r: Outcome)
    ensures r.Finished? <==> forall i :: 0 <= i < |lines| ==> !decode(lines[i]).OtherFailure?
    ensures r.Finished? ==> forall name :: name in r.table ==> r.table[name].Some?
  {
    match DecodeLines(decode, lines)
    case Crashed(m) => Aborted(m)
    case Loaded(records, errors) => Finished(GroupSalaries(SortById(records)), errors)
  }

  /** A line decodes to a record that gives `name` a salary. */
  predicate SalariedLine(decode: string -> DecodeOutcome, line: string, name: string) {
    decode(line).Parsed? && Salaried(decode(line).record, name)
  }

  /** The map's keys are exactly the names some line gives a salary to, and
      there is one error entry per line that failed to map. */
  lemma ReduceSpec(decode: string -> DecodeOutcome, lines: seq<string>, name: string)
    requires Reduce(decode, lines).Finished?
    ensures name in Reduce(decode, lines).table <==>
      exists i :: 0 <= i < |lines| && SalariedLine(decode, lines[i], name)
    ensures |Reduce(decode, lines).errors| == MappingFailures(decode, lines)
  {
    var recs := DecodeLines(decode, lines).records;
    ErrorCount(decode, lines);
    DecodeLinesTrace(decode, lines);
    LastWriteWins(recs, name);
    if exists i :: 0 <= i < |lines| && SalariedLine(decode, lines[i], name) {
      var i :| 0 <= i < |lines| && SalariedLine(decode, lines[i], name);
      var rec := decode(lines[i]).record;
      assert rec in recs;
      var j :| 0 <= j < |recs| && recs[j] == rec;
    }
    if name in Reduce(decode, lines).table {
      var w := Winner(recs, name);
      assert recs[w.value] in recs;
    }
  }

  /** Each name holds the salary of its winning record among the decoded
      ones: the largest event id, ties to the later line. */
  lemma ReduceWinners(decode: string -> DecodeOutcome, lines: seq<string>, name: string)
    requires Reduce(decode, lines).Finished?
    ensures var recs := DecodeLines(decode, lines).records; var w := Winner(recs, name);
      Lookup(Reduce(decode, lines).table, name) == if w.None? then None else recs[w.value].data.salary
  {
    LastWriteWins(DecodeLines(decode, lines).records, name);
  }

  /** The reported errors are the reading loop's, in line order: the entry
      of every line that failed to map, and nothing else. */
  lemma ReduceErrors(decode: string -> DecodeOutcome, lines: seq<string>, e: string)
    requires Reduce(decode, lines).Finished?
    ensures Reduce(decode, lines).errors == DecodeLines(decode, lines).errors
    ensures e in Reduce(decode, lines).errors <==> exists i :: 0 <= i < |lines| && Reports(decode, lines[i], e)
  {
    DecodeLinesTrace(decode, lines);
  }

  /** `valid.isPresent()` holds exactly when some line decodes to a record
      with a salary; the average then runs over one value per name. */
  lemma AverageReported(decode: string -> DecodeOutcome, lines: seq<string>, order: seq<string>)
    requires Reduce(decode, lines).Finished?
    requires Enumerates(order, Reduce(decode, lines).table)
    ensures Summarize(Reduce(decode, lines).table, order).Some? <==>
      exists i :: 0 <= i < |lines| && decode(lines[i]).Parsed? && decode(lines[i]).record.data.salary.Some?
    ensures Summarize(Reduce(decode, lines).table, order).Some? ==>
      Summarize(Reduce(decode, lines).table, order).value.count == |Reduce(decode, lines).table|
  {
    var table := Reduce(decode, lines).table;
    SummarizeAllPresent(table, order);
    if exists i :: 0 <= i < |lines| && decode(lines[i]).Parsed? && decode(lines[i]).record.data.salary.Some? {
      var i :| 0 <= i < |lines| && decode(lines[i]).Parsed? && decode(lines[i]).record.data.salary.Some?;
      var name := decode(lines[i]).record.data.name;
      ReduceSpec(decode, lines, name);
      assert SalariedLine(decode, lines[i], name);
    }
    if |table| > 0 {
      var name :| name in table;
      ReduceSpec(decode, lines, name);
    }
  }
}
