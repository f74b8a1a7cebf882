# JsonReader stream → table reduction, modelled in Dafny

`JsonReader.main` reads one JSON event per line, decodes each into a
`DataRecord` (an `event_id` plus a `Person` with a `name` and an optional
`salary`), keeps an error line for every line that fails to map, sorts the
records by `event_id`, folds them into a map from name to the latest salary
("last write wins", the stream/table duality of event sourcing), and
averages the map's values, printing the average only when there is one.

The model follows that pipeline module by module:

- `Records` — `Person` and `DataRecord`; `event_id` and `salary` range over
  Java `int` (`Int32`); `salary` is an `Option` because it may be null.
- `Decoding` — the reading loop, both as a left fold (`DecodeLines`) and as
  the `while` loop itself (`ReadRecords`), with the decoder a parameter.
- `Ordering` — `List.sort` by event id as a stable insertion sort
  (`SortById`), with a proof that any sorted, stable rearrangement equals it.
- `LatestState` — `filter` / `groupingBy` / `reducing((s1, s2) -> s2)` as one
  left fold into `map<string, Option<Int32>>` (`GroupSalaries`), and two
  reference definitions it is proved against: the last salaried record
  (`LastSalary`) and the record with the largest event id, ties to the later
  input position (`Winner`).
- `Aggregate` — `values().stream().flatMap(Optional::stream)...average()`
  as an exact `Mean(sum, count)` with a positive count, or `None`.
- `Pipeline` — the composition, and end-to-end statements about it.
- `Scenarios` — worked examples on concrete event lists.

`readValue` can throw exceptions other than `JsonMappingException` (a
low-level parse error, for instance). The loop does not catch them, so they
leave `main`. The model's `OtherFailure` outcome ends the run with `Crashed`
/ `Aborted`, and `DecodeLines` / `Reduce` are proved to finish exactly when
no line produces it.

## Model

| member | source | states |
|---|---|---|
| Decoding.FormatError | src/main/java/JsonReader.java:54 | an error entry starts with the decoder's message and ends with the raw line, with " in record " between them |
| Decoding.DecodeLines | src/main/java/JsonReader.java:47-56 | the run completes exactly when no line raises a non-mapping exception, and then every line yields exactly one record or one error |
| Decoding.ReadRecords | src/main/java/JsonReader.java:47-56 | the while loop computes the same records, errors or escaping exception as the fold over the lines |
| Decoding.DecodeLinesAppend | src/main/java/JsonReader.java:48-55 | records and errors both keep encounter order: the outcome for `a + b` is that of `a` followed by that of `b`, and an escaping exception ends everything |
| Decoding.MalformedLineIsIsolated | src/main/java/JsonReader.java:49-55 | a line that fails to map leaves every other line's records unchanged and adds exactly its own error entry, in its place |
| Decoding.DecodeLinesTrace | src/main/java/JsonReader.java:48-55 | after a completed run a record is kept iff some line decodes to it, and an error entry exists iff some line failed to map with that message |
| Decoding.ErrorCount | src/main/java/JsonReader.java:48-55 | there are exactly as many error entries as lines that failed to map, and the rest are records |
| Ordering.Insert | src/main/java/JsonReader.java:60 | inserting into a sorted sequence keeps it sorted and adds exactly the one record |
| Ordering.SortById | src/main/java/JsonReader.java:60 | the sorted list is non-decreasing by event id and a permutation of the input |
| Ordering.InsertWithId | src/main/java/JsonReader.java:60 | an inserted record goes behind every record with the same event id and moves no other id's records |
| Ordering.SortByIdStable | src/main/java/JsonReader.java:60 | the sort is stable: for every event id, the records with that id come out in input order |
| Ordering.StableSortIsUnique | src/main/java/JsonReader.java:60 | two sorted sequences that agree on the order of every id's records are equal |
| Ordering.ListSortIsSortById | src/main/java/JsonReader.java:60 | any sorted, stable rearrangement of the input (what the library sort guarantees) is the insertion sort's result |
| LatestState.GroupSalaries | src/main/java/JsonReader.java:61-68 | every reduced group is a present Optional, so no map value is empty (the fold is built from `KeepLater`, the `(s1, s2) -> s2` operator, `Reducing`, its lift to a group's Optional, and `Absorb`, one filtered record into its group) |
| LatestState.LastSalary | src/main/java/JsonReader.java:64-68 | reference definition: absent exactly when no record gives the name a salary |
| LatestState.GroupSalariesIsLastSalary | src/main/java/JsonReader.java:61-68 | the fold keeps, per name, the salary of the last record that has one; a name is a key iff some record gives it a salary |
| LatestState.NullSalaryNeverWrites | src/main/java/JsonReader.java:64 | a record with a null salary neither creates nor overwrites an entry, wherever it stands |
| LatestState.Winner | src/main/java/JsonReader.java:60-68 | reference definition: absent iff no salaried record for the name, otherwise the index of the salaried record with the largest event id, ties to the later position |
| LatestState.LastWriteWinsAfterStableSort | src/main/java/JsonReader.java:60-68 | for any stable sort of the records by event id, folding the sorted list maps each name to its winner's salary in the input — highest event id, ties to the later line — regardless of arrival order, and to nothing if it has no salaried record |
| LatestState.LastWriteWins | src/main/java/JsonReader.java:60-68 | the same last-write-wins result for the model's insertion sort |
| Aggregate.PresentValues | src/main/java/JsonReader.java:71-73 | the flattened values are empty exactly when every visited entry is an empty Optional |
| Aggregate.Summarize | src/main/java/JsonReader.java:70-78 | the average is present exactly when some entry holds a value, and then averages at most one value per key (`Average` is `average()`: empty for no values, else sum and count) |
| Aggregate.SumPermutation | src/main/java/JsonReader.java:74-75 | the sum does not depend on the order of the values |
| Aggregate.PresentValuesPermutation | src/main/java/JsonReader.java:71-73 | visiting the keys in another order yields a rearrangement of the same values |
| Aggregate.EnumerationsArePermutations | src/main/java/JsonReader.java:71-72 | two iteration orders of the same map are rearrangements of each other |
| Aggregate.SummarizeOrderIndependent | src/main/java/JsonReader.java:70-75 | the average is the same for every iteration order of the map |
| Aggregate.AllPresentKeepsAll | src/main/java/JsonReader.java:68-73 | when every value is present, flattening the Optionals drops nothing: the values are exactly the map's values in visiting order |
| Aggregate.MapSumRemove | src/main/java/JsonReader.java:71-73 | the order-free sum of the map's present values splits off any one key's contribution |
| Aggregate.PresentValuesWithout | src/main/java/JsonReader.java:71-73 | keys not visited do not affect the flattened values |
| Aggregate.SumAlongEnumeration | src/main/java/JsonReader.java:71-74 | summing the flattened values along any iteration order gives the map's order-free sum of present values |
| Aggregate.SummarizeSumIsMapSum | src/main/java/JsonReader.java:70-78 | a present average's sum is exactly the sum of the map's present values |
| Aggregate.CountAlongEnumeration | src/main/java/JsonReader.java:71-73 | flattening along any iteration order keeps exactly one value per key whose Optional is present |
| Aggregate.SummarizeCountsPresent | src/main/java/JsonReader.java:70-78 | a present average counts exactly the keys whose Optional is present, for any map |
| Aggregate.SummarizeAllPresent | src/main/java/JsonReader.java:68-78 | over the salary map the average is present iff the map is non-empty, and then counts one value per name |
| Pipeline.Reduce | src/main/java/JsonReader.java:47-68 | the salary map is produced exactly when no line raises a non-mapping exception, and all its values are present; `ReduceSpec`, `ReduceWinners` and `ReduceErrors` fix its keys, values and errors |
| Pipeline.ReduceSpec | src/main/java/JsonReader.java:47-68 | the map's keys are exactly the names some line gives a salary, and there is one error per line that failed to map |
| Pipeline.ReduceWinners | src/main/java/JsonReader.java:47-68 | each name holds the salary of its winning decoded record: the largest event id, ties to the later line |
| Pipeline.ReduceErrors | src/main/java/JsonReader.java:47-56 | the reported errors are the reading loop's list in line order, and an entry appears iff some line failed to map with exactly that message |
| Pipeline.AverageReported | src/main/java/JsonReader.java:47-78 | the average is reported iff some line decodes to a record with a salary, and it averages one value per name |
| Scenarios.TwoNamesExample | src/main/java/JsonReader.java:60-75 | events (1, A, 10), (2, A, 20), (1, B, 5) give {A: 20, B: 5} and the mean 25 / 2 |
| Scenarios.OutOfOrderExample | src/main/java/JsonReader.java:60-68 | events (5, A, 1) then (2, A, 99) give {A: 1}: the higher event id wins though it arrived first |

## Left out

- Reading the resource (`getResourceAsStream`, `BufferedReader`, `readLine`, lines 42-48): plumbing; the input is a `seq<string>` of lines.
- Jackson's `ObjectMapper.readValue` (line 50): a foreign library; it is the parameter `decode: string -> DecodeOutcome`, whose three outcomes are a record, a `JsonMappingException` (caught) and any other exception (escapes `main`).
- Null values from the decoder: excluded by construction, since a decoded `DataRecord`, its `data`, `name` and `eventId` are never null here. In the code, a null `data` throws `NullPointerException` at line 64. A line decoding to JSON `null` throws at line 60 when there are two or more records, and otherwise at line 63. A null `event_id` throws at line 60 only when there are two or more records, since sorting a single element never calls the comparator; a lone such record then acts like one with any id. A null `name` throws at line 66 only when the salary is non-null; with a null salary the filter at line 64 drops the record first, so it acts like one with any name, which `NullSalaryNeverWrites` covers.
- The `@JsonIgnore` fields `foods` and `vacations` (lines 18-21): they take no part in the logic.
- Summarize: returns the exact `Mean(sum, count)` instead of the double `sum / count`, because floating-point division and the rounding of `mapToDouble` sums (lines 74-75) are not modelled.
- `HashMap` iteration order: unspecified by the library, so it is the explicit `order` parameter of `Summarize`, and `SummarizeOrderIndependent` shows the choice does not matter.
- `List.sort` is the library's merge sort; the model uses an insertion sort, and `ListSortIsSortById` shows that every sorted, stable result coincides with it.
- Printing the average and the errors (lines 79, 81): output formatting only.
- Re-running the pipeline on the same input: every member is a pure function, so repeated runs agree by construction and no lemma states it.
