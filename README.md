# lico, modelled in Dafny

lico augments tables of text rows: an `Operation` is applied to every row of
an in-memory table, each row is either skipped (it already holds a result),
completed (the result is merged into it) or failed (a row-level error), and
a crash-safe `Task` keeps every input row in its output even when an
exception stops the run. This project models that core and proves what it
promises.

- `errors.dfy` (module `Errors`): the exceptions that travel through lico
  as one datatype: RowProcessError and MissingInputColumn of
  lico/exceptions.py, the separate RowProcessError and MissingInputColumn
  that lico/lico.py declares for itself, KeyError, ValueError and any other
  fault. Each engine catches only its own RowProcessError hierarchy
  (`IsRowProcessError` and `IsLegacyRowProcessError`). `Outcome` stands for "returned a value
  or raised".
- `rows.dfy` (module `Rows`): rows as `map<string, string>`, the union of
  row keys, the header `get_fieldnames` reports (the remembered order, then
  the extra keys, whose order comes from a Python set and is left
  unspecified), and the order-preserving de-duplication `concat` performs.
- `core.dfy` (module `Core`), lico/core.py:
  - `Table`, with its shared row list `RowList` and slicing, `append`,
    `get_fieldnames` and `concat`;
  - `apply_safe`, `RunStatistics`, and the engine `apply_to_each`. The
    engine is specified by the function `RunRows` and implemented by the
    loop `ApplyToEach`, which updates a `RunStatistics` object;
  - `process`.
- `operations.dfy` (module `Operations`), lico/operations.py: `Concatenate`
  and `FetchResult`, with the scenarios the test suite runs them through.
- `legacy.dfy` (module `Legacy`), the older engine of lico/lico.py. Its
  `apply_safe` updates the row dict in place, and its `process` drops every
  row that raised one of its own RowProcessErrors. Rows are `Dict` objects there, since
  they are changed in place and the output holds the same dicts.
- `io.dfy` (module `IO`), lico/io.py:
  - `CSVFile` (a table with a path) and its column-name check;
  - `RowIterator`, which pops rows from the end of the shared input list;
  - `Task.run`, specified by the function `TaskRun`.
- `examples.dfy` (module `Examples`): the operations of the test suite
  (tests/example_classes.py, tests/test_examples.py) and the crashing-task
  scenario of tests/test_core.py.

`Task.run` follows the code. Its iterator pops from the end of the list, so
rows are processed last to first, and a completed run saves the results in
reverse input order (`Examples.TaskReversesRows`). When an exception escapes,
the output holds the results so far, then the row in flight, then the rows
never reached in their original order. The input table keeps only those
unreached rows, because the iterator popped the others from that same list.

The legacy engine's `can_be_skipped` and the new engine's
`has_previous_result` are both fields of an operation value, next to
`apply`. A Python subclass of `Operation` is one such value.

## Model

| member | source | states |
|---|---|---|
| Rows.AllKeys | lico/core.py:64 | the union of the rows' keys; what it holds is stated by Rows.AllKeysMeaning |
| Rows.AllKeysMeaning | lico/core.py:64 | a name is among the table's keys exactly when some row has it |
| Rows.AllKeysAppend | lico/core.py:64 | the keys of two row lists put together are the union of their keys |
| Rows.ListOfSet | lico/core.py:65-66 | `list(extra)` holds every member of the set exactly once, in an unspecified order |
| Rows.UniqueInOrder | lico/core.py:55-58 | the OrderedDict loop of `concat` yields the first-occurrence de-duplication `Dedup` of its input |
| Rows.Dedup | lico/core.py:55-58 | the OrderedDict de-duplication of names, first occurrence kept; stated by Rows.DedupSound, Rows.DedupOfDistinct and Rows.DedupPrefix |
| Rows.DedupSound | lico/core.py:55-58 | the de-duplication holds no name twice, and exactly the names of its input |
| Rows.DedupOfDistinct | lico/core.py:55-58 | names that occur once each come out unchanged |
| Rows.DedupPrefix | lico/core.py:54-58 | de-duplicating this table's header followed by the other's starts with the de-duplication of this table's header |
| Rows.DedupTail | lico/core.py:54-58 | after that prefix come exactly the other header's names that this header lacks |
| Rows.FieldnamesSplit | lico/core.py:61-66 | a header is as long as the remembered order plus the number of extra keys, and names the order's columns and every row key |
| Rows.FieldnamesUpToOrder | lico/core.py:61-66 | any two headers of one table have the same length and the same names: only the order of the extras can differ |
| Rows.FieldnamesWithinOrder | lico/core.py:61-66 | when the rows use only remembered columns, the header is exactly the remembered order |
| Rows.FieldnamesOneExtra | lico/core.py:61-66 | when the rows add exactly one column to the remembered order, the header is the order followed by that column |
| Core.RowList.Append | lico/core.py:48-50 | `list.append` puts the row last and changes nothing else |
| Core.RowList.Pop | lico/io.py:110 | `list.pop()` removes the last row and returns it |
| Core.SliceBound | lico/core.py:45-46 | a Python slice bound lands in the sequence; one in range is kept, and a negative one counts from the end |
| Core.PySlice | lico/core.py:45-46 | `s[i:j]` is `s[i..j]` for in-range bounds, and otherwise the run of `s` between the normalised bounds, empty when they cross |
| Core.PySliceFromEnd | lico/core.py:45-46 | a negative bound selects the same rows as the bound plus the length |
| Core.Table.constructor | lico/core.py:21-36 | the table holds the given list itself (not a copy); a missing or empty column order becomes `[]` |
| Core.Table.Slice | lico/core.py:45-46 | `table[i:j]` is a new Table over a new list holding `content[i:j]`, with the same column order |
| Core.Table.Append | lico/core.py:48-50 | `append` puts the row last in the shared list |
| Core.Table.GetFieldnames | lico/core.py:61-66 | the header is the remembered order, then every other key of some row, each once |
| Core.Table.Concat | lico/core.py:52-59 | `concat` puts the other table's rows after this table's, in a new list, and the column order becomes the de-duplication of both headers |
| Core.ConcatOrderFacts | lico/core.py:52-59 | the concatenated order has no duplicates and names every column of either table. This table's de-duplicated order comes first, and when no row has an unremembered column the result is the de-duplication of the two orders |
| Core.ConcatSparseTables | tests/test_core.py:58-67 | concatenating tables with columns fieldA1, fieldA2 and fieldA1, fieldB1 gives the order fieldA1, fieldA2, fieldB1 |
| Core.DedupSparseHeaders | lico/core.py:54-58 | de-duplicating fieldA1, fieldA2, fieldA1, fieldB1 gives fieldA1, fieldA2, fieldB1 |
| Core.MissingColumnMessage | lico/core.py:107 | the message is `Missing column '` then the key then `'` |
| Core.ApplySafe | lico/core.py:85-107 | `apply`'s result passes through unchanged; a KeyError for column f becomes the RowProcessError `Missing column 'f'`; any other exception passes through; no KeyError escapes |
| Core.ApplySafeRowErrors | lico/core.py:104-107 | `apply_safe` raises a row-level error exactly when `apply` raised a RowProcessError of lico/exceptions.py (or its MissingInputColumn) or a KeyError |
| Core.RunStatistics.constructor | lico/core.py:136-143 | all counters start at zero with no errors |
| Core.RunStatistics.AddSkipped | lico/core.py:184 | the skipped counter rises by one and nothing else changes |
| Core.RunStatistics.AddCompleted | lico/core.py:190 | the completed counter rises by one and nothing else changes |
| Core.RunStatistics.AddFailed | lico/core.py:195-196 | the failed counter rises by one and the error is appended to `errors` |
| Core.ProcessRow | lico/core.py:181-199 | one turn of the `apply_to_each` loop; its outcomes are stated by Core.ProcessRowMeaning |
| Core.ProcessRowMeaning | lico/core.py:181-199 | one turn of the loop. A row with a previous result is emitted untouched without calling `apply`. A completed row is the input merged with the result, the result's keys winning and the other input keys kept. A skipped or failed row is emitted in its original form. Only a row-level error is absorbed, and only with `skip_failing_rows`; anything else stops the run |
| Core.RunRows | lico/core.py:181-199 | at most one output row per input row; the run completes with exactly one row per input row, or stops early with fewer |
| Core.RunRowsSound | lico/core.py:181-199 | output row i is the turn of input row i, in order, for every row before the one that stops the run; that row's turn is the exception |
| Core.RunRowsAllEmit | lico/core.py:181-199 | when every row's turn emits, the run emits those rows and verdicts in order and completes (the converse of RunRowsSound) |
| Core.RunRowsStep | lico/core.py:181-199 | one more input row extends the run by that row's turn |
| Core.RunRowsStopsAtAbort | lico/core.py:198-199 | once a prefix has raised, no later row is looked at |
| Core.Record | lico/core.py:184-196 | one verdict counted into the statistics; with Core.Tally, stated by Core.TallyAppend and Core.TallyAccounts |
| Core.Tally | lico/core.py:181-199 | the statistics after a run of verdicts; stated by Core.TallyAppend and Core.TallyAccounts |
| Core.TallyAppend | lico/core.py:184-196 | counting one more verdict records it on top of the counts so far |
| Core.TallyAccounts | lico/core.py:181-199 | completed + skipped + failed rises by exactly the number of rows emitted; `errors` gains exactly the errors of the failed rows, in order, one per failure |
| Core.HandleRow | lico/core.py:182-199 | one pass of the loop returns that row's turn and raises the counter of its verdict; a row that stops the run is not counted |
| Core.ApplyToEach | lico/core.py:150-199 | draining the generator yields exactly the rows of RunRows and re-raises its exception; the statistics end as the old counts plus the tally of the verdicts |
| Core.Process | lico/core.py:202-222 | `process` returns a new Table holding the engine's rows with the input's column order, or passes on the exception that stopped the engine |
| Core.EveryRowEmitted | lico/core.py:181-199 | no row lost: with `skip_failing_rows` and only row-level errors, output row i is input row i, either untouched or merged with its result |
| Core.FirstRowErrorStops | lico/core.py:192-199 | without `skip_failing_rows` the first failing row re-raises its error, and only the rows before it are emitted |
| Core.MissingColumnIsRowFailure | lico/core.py:104-107 | a missing column fails the row with `Missing column 'c'`: kept and recorded as failed when skipping failing rows, otherwise the run stops |
| Core.AllPreviousResultsSkipped | lico/core.py:178-185 | when every row already has a result, every row comes out unchanged and only `skipped` rises, by the number of rows |
| Core.BaseOperation | lico/core.py:109-133 | the base `Operation` (empty result, never a previous result); stated by Core.BaseOperationKeepsRows |
| Core.BaseOperationKeepsRows | lico/core.py:129-133 | the base Operation (empty result, never a previous result) returns every row unchanged, each counted as completed |
| Core.NameOperation | tests/test_core.py:156-167 | the test's operation that skips name1, fails on name2 and completes the others; stated by Core.SkipFailCompleteExample |
| Core.SkipFailCompleteExample | tests/test_core.py:152-174 | rows name1, name2, name3 come out skipped, failed in their original form, and completed with `result` = name3processed |
| Operations.Join | lico/operations.py:15 | the join succeeds exactly when the row has every listed column; otherwise it raises the KeyError of a listed column the row lacks |
| Operations.JoinFirstMissing | lico/operations.py:15 | the KeyError names the first listed column that is missing |
| Operations.JoinAppend | lico/operations.py:15 | joining two column lists is concatenating their joins, so the value is the in-order concatenation of the columns' values |
| Operations.JoinOne | lico/operations.py:15 | joining one column is that column's value |
| Operations.JoinAgrees | lico/operations.py:15 | rows that agree on the listed columns join to the same value |
| Operations.ConcatenateApply | lico/operations.py:14-15 | the result has the single key `concatenated`, holding the join; a missing column raises the join's KeyError |
| Operations.ConcatenateRaisesOnlyRowErrors | lico/operations.py:14-15 | through `apply_safe`, Concatenate only ever fails with `Missing column 'c'` for a listed column the row lacks |
| Operations.ConcatenateRunsEveryRow | lico/operations.py:14-15 | Concatenate raises only row-level errors, on any input |
| Operations.ConcatenateMissingDate | tests/test_core.py:47-55 | a row with a patient but no date fails with `Missing column 'date'`, and without `skip_failing_rows` the run stops there |
| Operations.HasConcatenated | lico/operations.py:17-18 | `bool(row.get("concatenated"))`: the column is there and not empty; used by Operations.ConcatenateStep |
| Operations.Concatenate | lico/operations.py:8-18 | the Concatenate operation; its turn of the engine is stated by Operations.ConcatenateStep |
| Operations.ConcatenateStep | lico/operations.py:14-18 | a row with a non-empty `concatenated` is skipped; a row with every column gains the join; any other row fails with the missing column's message |
| Operations.ConcatenateRowIdempotent | lico/operations.py:14-18 | a row processed twice comes out as it did the first time |
| Operations.ConcatenateIdempotent | lico/operations.py:14-18 | processing the rows twice emits the same rows as processing them once |
| Operations.PatientDateRow | lico/operations.py:14-15 | a row with a patient and a date gains `concatenated` = patient + date, and is completed |
| Operations.ConcatenatePatientDate | tests/test_core.py:17-28 | the rows p1/d1 and p2/d2 gain `concatenated` = p1d1 and p2d2 |
| Operations.PatientDateKeys | tests/test_core.py:17-28 | the result rows use the columns patient, date and concatenated |
| Operations.PatientDateHeader | tests/test_core.py:17-28 | the header of that result is patient, date, concatenated |
| Operations.FetchResultApply | lico/operations.py:28-30 | the result holds only `server_result`, the server's answer for the row's id; a missing id column raises a KeyError, and a server failure passes through |
| Operations.FetchResult | lico/operations.py:21-30 | the FetchResult operation; stated by Operations.FetchResultNeverSkipped |
| Operations.FetchResultNeverSkipped | lico/operations.py:21-30 | with the base `has_previous_result`, a FetchResult row is never skipped, and a row the server answers gains exactly `server_result` |
| Legacy.Table.constructor | lico/lico.py:32-47 | a missing or empty column order becomes `[]` |
| Legacy.Table.Append | lico/lico.py:55-57 | the dict goes last and the column order is kept |
| Legacy.Table.GetFieldnames | lico/lico.py:75-80 | the same header as the new engine's: the remembered order, then every other key once |
| Legacy.Table.Concat | lico/lico.py:59-66 | the same as the new engine: dicts appended, column order the de-duplication of both headers |
| Legacy.SafeResult | lico/lico.py:97-121 | what the legacy `apply_safe` returns or raises; stated by Legacy.SafeResultMeaning and Legacy.SafeResultRowErrors |
| Legacy.SafeResultMeaning | lico/lico.py:97-121 | with `skip` and `can_be_skipped` the row is returned as it is, without calling `apply`. Otherwise the row gains `apply`'s keys, which overwrite its own, and keeps its others. A KeyError becomes MissingInputColumn naming the column and the row's columns; anything else passes through |
| Legacy.ApplySafe | lico/lico.py:97-121 | the method returns the same dict it was given, updated in place as SafeResult says, or raises and leaves the dict alone |
| Legacy.SafeResultRowErrors | lico/lico.py:113-121 | the legacy `apply_safe` raises a row-level error exactly when a row it does not skip has `apply` raise a RowProcessError of lico/lico.py (or its MissingInputColumn) or a KeyError |
| Legacy.ProcessRows | lico/lico.py:149-161 | the run goes through at most every row, and through every row when nothing escapes |
| Legacy.Turn | lico/lico.py:152-160 | one turn of the legacy `process` loop; stated by Legacy.TurnAccounts and Legacy.ProcessRowsStep |
| Legacy.TurnAccounts | lico/lico.py:152-160 | one more row keeps the account of the run |
| Legacy.ProcessRowsSound | lico/lico.py:149-161 | the kept rows are an increasing list of indices; each row gone through was kept as `apply_safe` returned it, or dropped for a caught row-level error and left as it was; the exception that stops the run is raised by the first row not gone through and is not caught |
| Legacy.ProcessRowsStep | lico/lico.py:152-160 | one more row extends the run by that row's turn |
| Legacy.ProcessRowsStopsAtAbort | lico/lico.py:159-160 | after an uncaught exception no later row is looked at |
| Legacy.ProcessOne | lico/lico.py:153-160 | one turn of the loop updates only that dict, appends it to the output unless it raised, and says whether an exception escapes |
| Legacy.ProcessLoop | lico/lico.py:152-160 | the loop updates every dict it goes through in place and leaves the rest alone. Without an escaping exception, the output holds exactly the kept dicts in order |
| Legacy.Process | lico/lico.py:149-161 | `process` returns a new table with the input's column order holding the kept dicts themselves, or re-raises; in both cases the input dicts are updated in place up to where the run stopped |
| Legacy.LegacyDropsFailingRows | lico/lico.py:151-158 | with `catch_exceptions` and only row-level errors, the run keeps exactly the rows that did not fail, and the output is shorter than the input by the number of failures |
| Legacy.FailuresPositive | lico/lico.py:155-158 | one failing row means at least one dropped row |
| Legacy.LegacyFirstFailureStops | lico/lico.py:159-160 | without `catch_exceptions` the first failing row re-raises, and only the rows before it are updated |
| Legacy.NoAbortBefore | lico/lico.py:152-154 | rows that all succeed do not stop the run |
| Legacy.BaseOperation | lico/lico.py:123-146 | the legacy base `Operation`; stated by Legacy.BaseOperationKeepsRows |
| Legacy.BaseOperationKeepsRows | lico/lico.py:142-146 | with the base Operation every row is kept, unchanged and in order |
| Legacy.RowLostOnlyByLegacy | lico/lico.py:155-158 | for the same operation failing only by missing columns, a row with a missing column comes out unchanged at its place from the new engine, but is dropped by the legacy one |
| IO.ColumnOrderFor | lico/io.py:58-69 | given column names (a non-empty list) of the wrong length raise ValueError; otherwise the column order is the given names, or the file's header when none are given, and there is one name per column |
| IO.CSVFile.constructor | lico/io.py:28-30 | the file is a table over the given list and column order, with the path |
| IO.CSVFile.InitFromTable | lico/io.py:32-34 | the file shares the table's list and column order |
| IO.CSVFile.InitFromPath | lico/io.py:36-69 | the rows as read, with the column order of ColumnOrderFor, or its ValueError |
| IO.Reversed | lico/io.py:110-111 | a sequence read from the end: same length, element i is element n-1-i |
| IO.ReversedAppend | lico/io.py:110-111 | popping one more row puts it first in the reversed order |
| IO.IteratorPosition | lico/io.py:100-112 | while the list holds the original's first rows, the rows handed out are the original's, taken from the end |
| IO.RowIterator.constructor | lico/io.py:100-102 | the iterator holds the list itself, has handed out nothing, and keeps its invariant: rows left + reversed rows handed out = original |
| IO.RowIterator.Next | lico/io.py:107-112 | on an empty list iteration stops; otherwise the list's last row is removed, remembered in `rows_returned` and returned; the invariant is kept |
| IO.TaskRun | lico/io.py:129-159 | what `Task.run` saves and raises; stated by IO.TaskRunLayout, IO.TaskCompleted and IO.TaskAborted |
| IO.TaskRunLayout | lico/io.py:129-159 | no row lost: the saved output has exactly as many rows as the input on both paths. Its first rows are the engine's results for the rows from the end; after an exception come the in-flight row, unprocessed, then the rows never reached, which are also all the input table still holds. Only an exception the engine does not catch is re-raised |
| IO.TaskCompleted | lico/io.py:144-158 | a run that went through every row saves the engine's results and leaves the input empty |
| IO.TaskAborted | lico/io.py:146-156 | a run stopped by row n from the end saves the results so far, that row as read, then the rows left in the list |
| IO.SaveUnprocessed | lico/io.py:150-153 | the recovery appends the last row handed out, then rebuilds the output list with every row left |
| IO.Task.constructor | lico/io.py:120-127 | a task over a loaded file |
| IO.Task.FromPath | lico/io.py:122-123 | a task over a path loads the file with its own header as column order |
| IO.Task.Run | lico/io.py:129-159 | `run` returns the output file (a new file at the output path, with the input's column order) holding exactly TaskRun's saved rows. The input list ends holding TaskRun's unreached rows, and the exception re-raised is TaskRun's |
| Examples.LegacyConcatenate | tests/example_classes.py:9-18 | the test suite's legacy Concatenate; stated by Examples.LegacyConcatenateResult |
| Examples.LegacyConcatenateResult | tests/example_classes.py:9-18 | through the legacy `apply_safe`, a row with a result is returned as it is; a row with every column gains `concatenated`; a row missing a column raises the legacy MissingInputColumn naming the first column missing and the row's columns |
| Examples.LegacyConcatenateDropsIncomplete | tests/example_classes.py:14-18 | the legacy engine with `catch_exceptions` keeps exactly the rows that have a result or every column |
| Examples.LegacyFetchResult | tests/example_classes.py:21-29 | the test suite's legacy FetchResult; stated by Examples.LegacyFetchResultOutcome |
| Examples.LegacyFetchResultOutcome | tests/example_classes.py:21-29 | a missing id raises the legacy MissingInputColumn; an answer is written into the row under `server_result`; a server failure other than a RowProcessError of lico/lico.py escapes the legacy engine |
| Examples.MyOperation | tests/test_examples.py:5-19 | the documented example operation; stated by Examples.MyOperationFails and Examples.MyOperationKeepsRows |
| Examples.MyOperationFails | tests/test_examples.py:5-10 | `apply_safe` fails exactly on rows without col1 or with col1 "0", only with a row-level error, and a missing col1 gives `Missing column 'col1'` |
| Examples.MyOperationKeepsRows | tests/test_examples.py:5-19 | with `skip_failing_rows` every row comes out exactly as it came in |
| Examples.TaskReversesRows | lico/io.py:107-112 | a task whose operation changes nothing saves its input rows in reverse order |
| Examples.FetchedRow | lico/operations.py:28-30 | a FetchResult row answered by the server is completed with `server_result` |
| Examples.CrashPrefix | tests/test_core.py:106-128 | the first two rows the crashing task goes through gain "one" and "two" |
| Examples.TaskCrash | tests/test_core.py:106-128 | the crashing task saves ten rows: "one", "two", then the in-flight row without `server_result`, then the seven rows never reached; it re-raises ValueError("Horrible error") and the input keeps just those seven rows |

## Left out

- CSV reading and writing (`csv.DictReader`/`DictWriter`, `open`, `save`, `save_to_handle`, `save_to_path`, the legacy `read` and `init_from_path`) is standard-library I/O. A loaded file is its header and its rows, and saving is the content the table holds at that point. When the saved file is read back, a column a row lacks reads as `""`: this is why the crash test sees an empty `server_result` where `Examples.TaskCrash` states the key is absent.
- IO.CSVFile.InitFromPath: a file with no header at all (`reader.fieldnames` is None) is not modelled; the header is always a list.
- IO.ColumnOrderFor: the ValueError's message is a fixed text; the counts and names Python formats into it are left out.
- Legacy.SafeResult: MissingInputColumn carries the missing column and the row's columns as data; the message text Python formats from them is left out.
- Core.MissingColumnMessage writes the key between single quotes. That is Python's `repr` of a key without quotes or backslashes; other keys are quoted differently by Python, and that is not modelled.
- `tqdm`, `print`, logging and `RunStatistics.__str__` only produce output.
- The `RunStatistics` of lico/io.py is made by `Task.run` but never passed to the engine or updated, so it is not modelled. Nor is resuming from an existing output file, which the code does not do.
- Integer indexing `table[3]` (a Table over one row) is not modelled: `Core.Table.Slice` covers the slice form only.
- `Operation.apply`, `has_previous_result` and the legacy `can_be_skipped` are total functions of the row's contents. An operation that keeps state between calls, or whose `has_previous_result` or `can_be_skipped` raises, is not modelled; the legacy `apply_safe` calls `can_be_skipped` outside its `try` (lico/lico.py:113), so a KeyError there would escape unconverted. For example, the test's `Mock` server answers by call order; `Examples.CrashingServer` gives the same answers as a function of each row's id.
- Generator laziness in `apply_to_each` is modelled by draining it: `ApplyToEach` returns what the generator yields up to the exception that ends it.
- `CSVFile` is a subclass of `Table` in Python; here it is a class holding a `Table` and a path.
- Legacy.Process requires the input dicts to be distinct objects. A list holding the same dict twice would have that dict updated twice; that case is not modelled.
- IO.Task.Run: `Task.run` catches `Exception` (lico/io.py:146). `BaseException`s outside it, such as `KeyboardInterrupt` and `SystemExit`, skip the save of unprocessed rows; the model has no such exceptions, so every exception that ends the run is saved over.
- Legacy.Table: its `content` is a sequence value that `append` reassigns, not a Python list object. The constructor keeps the caller's list itself (lico/lico.py:44), so a caller still holding that list would see rows appended through the table; that aliasing of the list is not modelled. The dicts in it are objects (`Legacy.Dict`).
- IO.Task.FromPath models the `Path` branch of `Task.__init__` with the file already read into a header and rows.
- lico/exceptions.py and the exception classes of lico/lico.py:164-173 are the `Errors.Error` datatype, with `IsRowProcessError` and `IsLegacyRowProcessError` for what each engine catches; lico/types.py, lico/logging.py, tests/factories.py and setup.py are not part of this model. tests/test_lico.py exercises names the code no longer has, so no property is taken from it.
