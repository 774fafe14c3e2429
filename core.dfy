/**
 * The in-memory table and the row engine of lico/core.py: `Table`, the
 * `Operation` contract with its `apply_safe` wrapper, `RunStatistics`, the
 * driving loop `apply_to_each` and its eager wrapper `process`.
 *
 * The generator `apply_to_each` is specified by the pure function `RunRows`
 * (what it yields, row by row, and the exception that stops it) and
 * implemented by the method `ApplyToEach`, which drains it and updates a
 * `RunStatistics` object exactly as the Python loop does.
 */
module Core {
  import opened Errors
  import opened Rows

  // ---------------------------------------------------------------------------
  // Table
  // ---------------------------------------------------------------------------

  /** A Python list of rows. It is an object: a Table and a RowIterator can hold
      the same list, and popping from it through one is seen through the other. */
  class RowList {
    var items: seq<Row>

    constructor(items: seq<Row>)
      ensures this.items == items
    {
      this.items := items;
    }

    /** `list.append` */
    method Append(row: Row)
      modifies this
      ensures items == old(items) + [row]
    {
      items := items + [row];
    }

    /** `list.pop()`: removes and returns the last element. Its callers test
        for emptiness first, so the IndexError on an empty list never occurs. */
    method Pop() returns (row: Row)
      requires items != []
      modifies this
      ensures old(items) == items + [row]
    {
      row := items[|items| - 1];
      items := items[..|items| - 1];
    }
  }

  /** Where a Python slice bound lands in a sequence of length n: a negative
      bound counts from the end, and a bound outside the sequence is clamped. */
  function SliceBound(n: nat, i: int): (b: nat)
    ensures b <= n
    ensures 0 <= i <= n ==> b == i
    ensures i < 0 && 0 <= n + i ==> b == n + i
  {
    if i < 0 then (if n + i < 0 then 0 else n + i)
    else if i > n then n
    else i
  }

  /** `s[i:j]` in Python. */
  function PySlice<T>(s: seq<T>, i: int, j: int): (r: seq<T>)
    ensures |r| <= |s|
    ensures |r| == (if SliceBound(|s|, i) < SliceBound(|s|, j)
                    then SliceBound(|s|, j) - SliceBound(|s|, i) else 0)
    ensures 0 <= i <= j <= |s| ==> r == s[i..j]
    ensures forall k :: 0 <= k < |r| ==> SliceBound(|s|, i) + k < |s| && r[k] == s[SliceBound(|s|, i) + k]
  {
    var lo, hi := SliceBound(|s|, i), SliceBound(|s|, j);
    if lo < hi then s[lo..hi] else []
  }

  /** A negative slice bound counts from the end of the sequence. */
  lemma PySliceFromEnd<T>(s: seq<T>, i: int, j: int)
    requires -|s| <= i && -|s| <= j
    ensures PySlice(s, i, j) == PySlice(s, if i < 0 then |s| + i else i, if j < 0 then |s| + j else j)
  {
  }

  /** A table of text rows with a remembered column order (lico/core.py `Table`). */
  class Table {
    var content: RowList
    var columnOrder: seq<string>

    /** `Table(content, column_order)`: a missing or empty column order becomes `[]`.
        The table holds the given list itself, not a copy. */
    constructor(content: RowList, columnOrder: Option<seq<string>>)
      ensures this.content == content
      ensures this.columnOrder == (if columnOrder.Some? then columnOrder.value else [])
    {
      this.content := content;
      if columnOrder.None? || columnOrder.value == [] {
        this.columnOrder := [];
      } else {
        this.columnOrder := columnOrder.value;
      }
    }

    /** `table[i:j]`: a new Table over a new list holding the selected rows,
        with the same column order. */
    method Slice(i: int, j: int) returns (t: Table)
      ensures fresh(t) && fresh(t.content)
      ensures t.content.items == PySlice(content.items, i, j)
      ensures t.columnOrder == columnOrder
    {
      var rows := new RowList(PySlice(content.items, i, j));
      t := new Table(rows, Some(columnOrder));
    }

    /** `append`: the new row goes last, in the shared list. */
    method Append(row: Row)
      modifies content
      ensures content.items == old(content.items) + [row]
    {
      content.Append(row);
    }

    /** `get_fieldnames`: the remembered order, then every other key used by
        some row, each once. */
    method GetFieldnames() returns (names: seq<string>)
      ensures IsFieldnames(names, columnOrder, content.items)
    {
      var fromContent := AllKeys(content.items);
      var extra := ListOfSet(fromContent - Elems(columnOrder));
      names := columnOrder + extra;
      assert names[|columnOrder|..] == extra;
    }

    /** `concat`: the rows of `other` are added after this table's rows, in a
        new list; the column order becomes the de-duplicated headers of both. */
    method Concat(other: Table)
      modifies this
      ensures fresh(content)
      ensures content.items == old(content.items) + old(other.content.items)
      ensures IsConcatOrder(columnOrder, old(columnOrder), old(content.items),
                            old(other.columnOrder), old(other.content.items))
    {
      var mine := GetFieldnames();
      var theirs := other.GetFieldnames();
      var unique := UniqueInOrder(mine + theirs);
      columnOrder := unique;
      content := new RowList(content.items + other.content.items);
    }
  }

  /** The column order `concat` leaves behind: the first-occurrence
      de-duplication of the two tables' headers, one after the other. */
  ghost predicate IsConcatOrder(order: seq<string>, order1: seq<string>, rows1: seq<Row>,
                                order2: seq<string>, rows2: seq<Row>)
  {
    exists n1, n2 :: IsFieldnames(n1, order1, rows1) && IsFieldnames(n2, order2, rows2)
                     && order == Dedup(n1 + n2)
  }

  /** What the concatenated column order is, whatever order the extras came in:
      no name twice, every name of either table, this table's remembered
      columns first, and exactly the de-duplicated remembered orders when no
      row has a column outside them. */
  lemma ConcatOrderFacts(order: seq<string>, order1: seq<string>, rows1: seq<Row>,
                         order2: seq<string>, rows2: seq<Row>)
    requires IsConcatOrder(order, order1, rows1, order2, rows2)
    ensures Distinct(order)
    ensures Elems(order) == Elems(order1) + AllKeys(rows1) + Elems(order2) + AllKeys(rows2)
    ensures |Dedup(order1)| <= |order| && order[..|Dedup(order1)|] == Dedup(order1)
    ensures AllKeys(rows1) <= Elems(order1) && AllKeys(rows2) <= Elems(order2)
            ==> order == Dedup(order1 + order2)
  {
    var n1, n2 :| IsFieldnames(n1, order1, rows1) && IsFieldnames(n2, order2, rows2)
                  && order == Dedup(n1 + n2);
    DedupSound(n1 + n2);
    ConcatNames(n1, order1, rows1, n2, order2, rows2);
    ConcatPrefix(n1, order1, rows1, n2);
    if AllKeys(rows1) <= Elems(order1) && AllKeys(rows2) <= Elems(order2) {
      FieldnamesWithinOrder(n1, order1, rows1);
      FieldnamesWithinOrder(n2, order2, rows2);
    }
  }

  lemma ConcatNames(n1: seq<string>, order1: seq<string>, rows1: seq<Row>,
                    n2: seq<string>, order2: seq<string>, rows2: seq<Row>)
    requires IsFieldnames(n1, order1, rows1) && IsFieldnames(n2, order2, rows2)
    ensures Elems(n1 + n2) == Elems(order1) + AllKeys(rows1) + Elems(order2) + AllKeys(rows2)
  {
    var t1, t2 := n1[|order1|..], n2[|order2|..];
    assert n1 == order1 + t1;
    assert n2 == order2 + t2;
    ElemsAppend(n1, n2);
    ElemsAppend(order1, t1);
    ElemsAppend(order2, t2);
  }

  lemma ConcatPrefix(n1: seq<string>, order1: seq<string>, rows1: seq<Row>, n2: seq<string>)
    requires IsFieldnames(n1, order1, rows1)
    ensures |Dedup(order1)| <= |Dedup(n1 + n2)|
    ensures Dedup(n1 + n2)[..|Dedup(order1)|] == Dedup(order1)
  {
    var t1 := n1[|order1|..];
    assert n1 + n2 == order1 + (t1 + n2);
    DedupPrefix(order1, t1 + n2);
  }

  /** Concatenating a table with columns fieldA1, fieldA2 and one with columns
      fieldA1, fieldB1 (rows using only those columns) gives the column order
      fieldA1, fieldA2, fieldB1. */
  lemma ConcatSparseTables(order: seq<string>, rows1: seq<Row>, rows2: seq<Row>)
    requires AllKeys(rows1) <= {"fieldA1", "fieldA2"}
    requires AllKeys(rows2) <= {"fieldA1", "fieldB1"}
    requires IsConcatOrder(order, ["fieldA1", "fieldA2"], rows1, ["fieldA1", "fieldB1"], rows2)
    ensures order == ["fieldA1", "fieldA2", "fieldB1"]
  {
    var o1: seq<string> := ["fieldA1", "fieldA2"];
    var o2: seq<string> := ["fieldA1", "fieldB1"];
    assert Elems(o1) == {"fieldA1", "fieldA2"};
    assert Elems(o2) == {"fieldA1", "fieldB1"};
    ConcatOrderFacts(order, o1, rows1, o2, rows2);
    DedupSparseHeaders();
  }

  lemma DedupSparseHeaders()
    ensures Dedup(["fieldA1", "fieldA2"] + ["fieldA1", "fieldB1"]) == ["fieldA1", "fieldA2", "fieldB1"]
  {
    var all: seq<string> := ["fieldA1", "fieldA2", "fieldA1", "fieldB1"];
    assert ["fieldA1", "fieldA2"] + ["fieldA1", "fieldB1"] == all;
    var p0, p1, p2, p3 := all[..0], all[..1], all[..2], all[..3];
    assert p1[..0] == p0 && p2[..1] == p1 && p3[..2] == p2 && all[..3] == p3;
    assert Dedup(p0) == [];
    assert Dedup(p1) == ["fieldA1"];
    assert Dedup(p2) == ["fieldA1", "fieldA2"];
    assert Dedup(p3) == ["fieldA1", "fieldA2"];
  }

  // ---------------------------------------------------------------------------
  // Operation
  // ---------------------------------------------------------------------------

  /** An operation on one row: `apply` computes the new or overwritten fields
      (or raises), `hasPreviousResult` tells whether the row already carries
      this operation's result. Subclasses of lico's `Operation` are values of
      this type. */
  datatype Operation = Operation(apply: Row -> Outcome<Row>, hasPreviousResult: Row -> bool)

  /** The base class itself: `apply` returns `{}`, `has_previous_result` is False. */
  function BaseOperation(): Operation
  {
    Operation((row: Row) => Done(map[]), (row: Row) => false)
  }

  /** The message `apply_safe` gives a missing column: `Missing column 'f'`
      (Python's str of a KeyError is the quoted key). */
  function MissingColumnMessage(key: string): (msg: string)
    ensures |msg| == |key| + 17
    ensures msg[..16] == "Missing column '" && msg[|msg| - 1] == '\''
    ensures msg[16..|msg| - 1] == key
  {
    "Missing column '" + key + "'"
  }

  /** `apply_safe`: `apply`, with a KeyError turned into a RowProcessError
      naming the missing column; every other outcome passes through unchanged. */
  function ApplySafe(op: Operation, row: Row): (r: Outcome<Row>)
    ensures r.Raised? ==> !r.error.KeyError?
    ensures op.apply(row).Done? ==> r == op.apply(row)
    ensures op.apply(row).Raised? && op.apply(row).error.KeyError?
            ==> r == Raised(RowProcessError(MissingColumnMessage(op.apply(row).error.key)))
    ensures op.apply(row).Raised? && !op.apply(row).error.KeyError? ==> r == op.apply(row)
  {
    match op.apply(row)
    case Raised(KeyError(key)) => Raised(RowProcessError(MissingColumnMessage(key)))
    case other => other
  }

  /** The engine sees a row-level error from `apply_safe` exactly when `apply`
      raised a RowProcessError or a KeyError. */
  lemma ApplySafeRowErrors(op: Operation, row: Row)
    ensures ApplySafe(op, row).Raised? && IsRowProcessError(ApplySafe(op, row).error)
            <==> op.apply(row).Raised?
                 && (IsRowProcessError(op.apply(row).error) || op.apply(row).error.KeyError?)
  {
  }

  // ---------------------------------------------------------------------------
  // RunStatistics
  // ---------------------------------------------------------------------------

  /** The counters of RunStatistics, as a value. */
  datatype Counters = Counters(completed: nat, skipped: nat, failed: nat, errors: seq<Error>)

  /** `RunStatistics`: updated in place by `apply_to_each`. */
  class RunStatistics {
    var completed: nat
    var skipped: nat
    var failed: nat
    var errors: seq<Error>

    constructor()
      ensures Value() == Counters(0, 0, 0, [])
    {
      completed, skipped, failed, errors := 0, 0, 0, [];
    }

    ghost function Value(): Counters
      reads this
    {
      Counters(completed, skipped, failed, errors)
    }

    /** `statistics.skipped += 1` */
    method AddSkipped()
      modifies this
      ensures Value() == Record(old(Value()), Skipped)
    {
      skipped := skipped + 1;
    }

    /** `statistics.completed += 1` */
    method AddCompleted()
      modifies this
      ensures Value() == Record(old(Value()), Completed)
    {
      completed := completed + 1;
    }

    /** `statistics.failed += 1` and `statistics.errors.append(e)` */
    method AddFailed(e: Error)
      modifies this
      ensures Value() == Record(old(Value()), Failed(e))
    {
      failed := failed + 1;
      errors := errors + [e];
    }
  }

  // ---------------------------------------------------------------------------
  // apply_to_each
  // ---------------------------------------------------------------------------

  /** How a row that was emitted came out. */
  datatype Verdict = Skipped | Completed | Failed(error: Error)

  /** The engine's handling of one row: a row to emit, or the exception that
      stops the run. */
  datatype Step = Emit(row: Row, verdict: Verdict) | Abort(error: Error)

  /** One turn of the `apply_to_each` loop (its meaning: ProcessRowMeaning). */
  function ProcessRow(op: Operation, skipFailingRows: bool, skipPreviousResults: bool,
                      row: Row): Step
  {
    if skipPreviousResults && op.hasPreviousResult(row) then Emit(row, Skipped)
    else
      match ApplySafe(op, row)
      case Done(partial) => Emit(row + partial, Completed)
      case Raised(e) =>
        if IsRowProcessError(e) && skipFailingRows then Emit(row, Failed(e)) else Abort(e)
  }

  /** What one turn does with a row. */
  lemma ProcessRowMeaning(op: Operation, skipFailingRows: bool, skipPreviousResults: bool, row: Row)
    ensures var s := ProcessRow(op, skipFailingRows, skipPreviousResults, row);
            // a row with a previous result is passed on untouched, without calling apply
            && (skipPreviousResults && op.hasPreviousResult(row) ==> s == Emit(row, Skipped))
            // a skipped or failed row is emitted in its original form
            && (s.Emit? && !s.verdict.Completed? ==> s.row == row)
            // a completed row is the input merged with the result, the result's keys winning
            && (s.Emit? && s.verdict.Completed? ==>
                  && ApplySafe(op, row).Done?
                  && s.row.Keys == row.Keys + ApplySafe(op, row).value.Keys
                  && (forall k :: k in ApplySafe(op, row).value ==> s.row[k] == ApplySafe(op, row).value[k])
                  && (forall k :: k in row && k !in ApplySafe(op, row).value ==> s.row[k] == row[k]))
            // only row-level errors are absorbed, and only when asked to
            && (s.Emit? && s.verdict.Failed? ==>
                  skipFailingRows && IsRowProcessError(s.verdict.error)
                  && ApplySafe(op, row) == Raised(s.verdict.error))
            && (s.Abort? ==> ApplySafe(op, row) == Raised(s.error)
                             && !(skipFailingRows && IsRowProcessError(s.error)))
  {
  }

  /** Everything `apply_to_each` yields when drained, and the exception that
      ended it early, if any. */
  datatype Run = Run(emitted: seq<Row>, verdicts: seq<Verdict>, abort: Option<Error>)

  /** The run of the engine over `rows`: one emitted row per input row, in
      order, up to the first row whose step aborts (RunRowsSound). */
  function RunRows(op: Operation, skipFailingRows: bool, skipPreviousResults: bool,
                   rows: seq<Row>): (r: Run)
    ensures |r.emitted| == |r.verdicts| <= |rows|
    ensures if r.abort.None? then |r.emitted| == |rows| else |r.emitted| < |rows|
  {
    if rows == [] then Run([], [], None)
    else
      var front := rows[..|rows| - 1];
      var p := RunRows(op, skipFailingRows, skipPreviousResults, front);
      if p.abort.Some? then p
      else
        match ProcessRow(op, skipFailingRows, skipPreviousResults, rows[|rows| - 1])
        case Emit(row, v) => Run(p.emitted + [row], p.verdicts + [v], None)
        case Abort(e) => Run(p.emitted, p.verdicts, Some(e))
  }

  /** Row i of the output is the step of row i of the input, for every row
      before the one that aborts, and that row's step is the abort. */
  lemma {:induction false} RunRowsSound(op: Operation, sf: bool, sp: bool, rows: seq<Row>)
    ensures var r := RunRows(op, sf, sp, rows);
            && (forall i :: 0 <= i < |r.emitted| ==>
                  ProcessRow(op, sf, sp, rows[i]) == Emit(r.emitted[i], r.verdicts[i]))
            && (r.abort.Some? ==> ProcessRow(op, sf, sp, rows[|r.emitted|]) == Abort(r.abort.value))
  {
    if rows != [] {
      var front := rows[..|rows| - 1];
      RunRowsSound(op, sf, sp, front);
      var p, r := RunRows(op, sf, sp, front), RunRows(op, sf, sp, rows);
      if p.abort.None? {
        forall i | 0 <= i < |r.emitted|
          ensures ProcessRow(op, sf, sp, rows[i]) == Emit(r.emitted[i], r.verdicts[i])
        {
          if i < |p.emitted| {
            assert rows[i] == front[i];
          }
        }
      } else {
        assert rows[|p.emitted|] == front[|p.emitted|];
      }
    }
  }

  /** Extending the input by one row extends the run by that row's step. */
  lemma RunRowsStep(op: Operation, sf: bool, sp: bool, rows: seq<Row>, i: nat,
                    emitted: seq<Row>, verdicts: seq<Verdict>)
    requires i < |rows|
    requires RunRows(op, sf, sp, rows[..i]) == Run(emitted, verdicts, None)
    ensures var s := ProcessRow(op, sf, sp, rows[i]);
            RunRows(op, sf, sp, rows[..i + 1])
              == if s.Emit? then Run(emitted + [s.row], verdicts + [s.verdict], None)
                 else Run(emitted, verdicts, Some(s.error))
  {
    assert rows[..i + 1][..i] == rows[..i];
  }

  /** The converse of RunRowsSound: when every row's step emits, the run
      emits those rows and verdicts, in order, and completes. */
  lemma {:induction false} RunRowsAllEmit(op: Operation, sf: bool, sp: bool, rows: seq<Row>,
                                          outs: seq<Row>, verdicts: seq<Verdict>)
    requires |outs| == |verdicts| == |rows|
    requires forall i :: 0 <= i < |rows| ==> ProcessRow(op, sf, sp, rows[i]) == Emit(outs[i], verdicts[i])
    ensures RunRows(op, sf, sp, rows) == Run(outs, verdicts, None)
  {
    if rows != [] {
      var n := |rows| - 1;
      RunRowsAllEmit(op, sf, sp, rows[..n], outs[..n], verdicts[..n]);
      assert ProcessRow(op, sf, sp, rows[n]) == Emit(outs[n], verdicts[n]);
      assert outs[..n] + [outs[n]] == outs;
      assert verdicts[..n] + [verdicts[n]] == verdicts;
    }
  }

  /** Once a prefix of the input has aborted, the rest of the input is never
      looked at. */
  lemma {:induction false} RunRowsStopsAtAbort(op: Operation, sf: bool, sp: bool,
                                               rows: seq<Row>, k: nat)
    requires k <= |rows|
    requires RunRows(op, sf, sp, rows[..k]).abort.Some?
    ensures RunRows(op, sf, sp, rows) == RunRows(op, sf, sp, rows[..k])
    decreases |rows| - k
  {
    if k < |rows| {
      assert rows[..k + 1][..k] == rows[..k];
      RunRowsStopsAtAbort(op, sf, sp, rows, k + 1);
    } else {
      assert rows[..k] == rows;
    }
  }

  /** Add one emitted row's verdict to the counters, as the loop does. */
  function Record(c: Counters, v: Verdict): Counters
  {
    match v
    case Skipped => c.(skipped := c.skipped + 1)
    case Completed => c.(completed := c.completed + 1)
    case Failed(e) => c.(failed := c.failed + 1, errors := c.errors + [e])
  }

  function Tally(c: Counters, vs: seq<Verdict>): Counters
  {
    if vs == [] then c else Record(Tally(c, vs[..|vs| - 1]), vs[|vs| - 1])
  }

  lemma TallyAppend(c: Counters, vs: seq<Verdict>, v: Verdict)
    ensures Tally(c, vs + [v]) == Record(Tally(c, vs), v)
  {
    assert (vs + [v])[..|vs|] == vs;
  }

  /** The number of failed verdicts, and the errors they carry, in order. */
  function FailedErrors(vs: seq<Verdict>): seq<Error>
  {
    if vs == [] then []
    else FailedErrors(vs[..|vs| - 1]) + (if vs[|vs| - 1].Failed? then [vs[|vs| - 1].error] else [])
  }

  function CountCompleted(vs: seq<Verdict>): nat
  {
    if vs == [] then 0
    else CountCompleted(vs[..|vs| - 1]) + (if vs[|vs| - 1].Completed? then 1 else 0)
  }

  /** Every emitted row is counted exactly once: completed + skipped + failed
      rises by the number of rows emitted, and the recorded errors are exactly
      those of the failed rows, one per failure, in order. */
  lemma {:induction false} TallyAccounts(c: Counters, vs: seq<Verdict>)
    ensures var t := Tally(c, vs);
            && t.completed + t.skipped + t.failed == c.completed + c.skipped + c.failed + |vs|
            && t.completed == c.completed + CountCompleted(vs)
            && t.errors == c.errors + FailedErrors(vs)
            && t.failed == c.failed + |FailedErrors(vs)|
  {
    if vs != [] {
      TallyAccounts(c, vs[..|vs| - 1]);
    }
  }

  /** One pass of the `apply_to_each` loop: the row's step, with the counter
      of its verdict raised (a row that aborts the run is not counted). */
  method HandleRow(row: Row, op: Operation, skipFailingRows: bool, skipPreviousResults: bool,
                   statistics: RunStatistics)
    returns (step: Step)
    modifies statistics
    ensures step == ProcessRow(op, skipFailingRows, skipPreviousResults, row)
    ensures step.Emit? ==> statistics.Value() == Record(old(statistics.Value()), step.verdict)
    ensures step.Abort? ==> statistics.Value() == old(statistics.Value())
  {
    if skipPreviousResults && op.hasPreviousResult(row) {
      statistics.AddSkipped();
      return Emit(row, Skipped);
    }
    match ApplySafe(op, row)
    case Done(result) =>
      statistics.AddCompleted();
      return Emit(row + result, Completed);
    case Raised(e) =>
      if IsRowProcessError(e) && skipFailingRows {
        statistics.AddFailed(e);
        return Emit(row, Failed(e));
      }
      return Abort(e);
  }

  /** `apply_to_each` drained into a list: the rows it yields, the exception
      that escaped it (if any), and the statistics it leaves behind. */
  method ApplyToEach(inputRows: seq<Row>, op: Operation, skipFailingRows: bool,
                     skipPreviousResults: bool, statistics: RunStatistics)
    returns (emitted: seq<Row>, raised: Option<Error>)
    modifies statistics
    ensures var r := RunRows(op, skipFailingRows, skipPreviousResults, inputRows);
            && emitted == r.emitted && raised == r.abort
            && statistics.Value() == Tally(old(statistics.Value()), r.verdicts)
  {
    emitted, raised := [], None;
    ghost var verdicts: seq<Verdict> := [];
    ghost var start := statistics.Value();
    var i := 0;
    while i < |inputRows|
      invariant 0 <= i <= |inputRows|
      invariant RunRows(op, skipFailingRows, skipPreviousResults, inputRows[..i])
                == Run(emitted, verdicts, None)
      invariant statistics.Value() == Tally(start, verdicts)
    {
      RunRowsStep(op, skipFailingRows, skipPreviousResults, inputRows, i, emitted, verdicts);
      var step := HandleRow(inputRows[i], op, skipFailingRows, skipPreviousResults, statistics);
      if step.Abort? {
        raised := Some(step.error);
        RunRowsStopsAtAbort(op, skipFailingRows, skipPreviousResults, inputRows, i + 1);
        return;
      }
      TallyAppend(start, verdicts, step.verdict);
      emitted, verdicts := emitted + [step.row], verdicts + [step.verdict];
      i := i + 1;
    }
    assert inputRows[..i] == inputRows;
  }

  /** `process`: drain the engine into a new Table with the input's column
      order, or pass on the exception that stopped it. */
  method Process(table: Table, op: Operation, skipFailingRows: bool, skipPreviousResults: bool)
    returns (result: Outcome<Table>)
    ensures var r := RunRows(op, skipFailingRows, skipPreviousResults, table.content.items);
            match result
            case Done(t) =>
              && r.abort.None? && fresh(t) && fresh(t.content)
              && t.content.items == r.emitted && t.columnOrder == table.columnOrder
            case Raised(e) => r.abort == Some(e)
  {
    var statistics := new RunStatistics();
    var emitted, raised := ApplyToEach(table.content.items, op, skipFailingRows,
                                       skipPreviousResults, statistics);
    if raised.Some? {
      return Raised(raised.value);
    }
    var rows := new RowList(emitted);
    var t := new Table(rows, Some(table.columnOrder));
    return Done(t);
  }

  // ---------------------------------------------------------------------------
  // Properties of the engine
  // ---------------------------------------------------------------------------

  /** An operation whose `apply_safe` raises nothing but row-level errors. */
  ghost predicate RaisesOnlyRowErrors(op: Operation, rows: seq<Row>)
  {
    forall i :: 0 <= i < |rows| && ApplySafe(op, rows[i]).Raised? ==>
      IsRowProcessError(ApplySafe(op, rows[i]).error)
  }

  /** No row lost: with `skip_failing_rows`, an operation that raises only
      row-level errors is run over every row, and row i of the output is row i
      of the input, either untouched or merged with its result. */
  lemma EveryRowEmitted(op: Operation, sp: bool, rows: seq<Row>)
    requires RaisesOnlyRowErrors(op, rows)
    ensures var r := RunRows(op, true, sp, rows);
            && r.abort.None? && |r.emitted| == |rows|
            && forall i :: 0 <= i < |rows| ==>
                 r.emitted[i] == rows[i]
                 || (ApplySafe(op, rows[i]).Done? && r.emitted[i] == rows[i] + ApplySafe(op, rows[i]).value)
  {
    RunRowsSound(op, true, sp, rows);
  }

  /** Without `skip_failing_rows`, the first row-level error stops the run:
      only the rows before it are emitted. */
  lemma FirstRowErrorStops(op: Operation, sp: bool, rows: seq<Row>, k: nat)
    requires k < |rows|
    requires forall i :: 0 <= i < k ==> ProcessRow(op, false, sp, rows[i]).Emit?
    requires !(sp && op.hasPreviousResult(rows[k]))
    requires ApplySafe(op, rows[k]).Raised?
    ensures var r := RunRows(op, false, sp, rows);
            && r.abort == Some(ApplySafe(op, rows[k]).error)
            && |r.emitted| == k
  {
    RunRowsSound(op, false, sp, rows);
  }

  /** A missing column is a row-level failure naming that column: with
      `skip_failing_rows` the original row is emitted and recorded as failed,
      otherwise the run stops with that error. */
  lemma MissingColumnIsRowFailure(op: Operation, sf: bool, sp: bool, row: Row, column: string)
    requires op.apply(row) == Raised(KeyError(column))
    requires !(sp && op.hasPreviousResult(row))
    ensures var e := RowProcessError("Missing column '" + column + "'");
            ProcessRow(op, sf, sp, row) == if sf then Emit(row, Failed(e)) else Abort(e)
  {
  }

  /** Skip idempotence: when every row already carries a result and previous
      results are skipped, every row comes out unchanged and nothing is
      completed or failed. */
  lemma {:induction false} AllPreviousResultsSkipped(op: Operation, sf: bool, rows: seq<Row>, c: Counters)
    requires forall i :: 0 <= i < |rows| ==> op.hasPreviousResult(rows[i])
    ensures var r := RunRows(op, sf, true, rows);
            && r.abort.None? && r.emitted == rows
            && Tally(c, r.verdicts).completed == c.completed
            && Tally(c, r.verdicts).failed == c.failed
            && Tally(c, r.verdicts).skipped == c.skipped + |rows|
  {
    if rows != [] {
      var front := rows[..|rows| - 1];
      AllPreviousResultsSkipped(op, sf, front, c);
      var r := RunRows(op, sf, true, rows);
      assert RunRows(op, sf, true, front).abort.None?;
      assert r.verdicts == RunRows(op, sf, true, front).verdicts + [Skipped];
      assert r.verdicts[..|r.verdicts| - 1] == RunRows(op, sf, true, front).verdicts;
      assert rows == front + [rows[|rows| - 1]];
    }
  }

  /** With the base Operation (empty result, never a previous result), the
      engine returns every row unchanged and counts each as completed. */
  lemma BaseOperationKeepsRows(sf: bool, sp: bool, rows: seq<Row>)
    ensures var r := RunRows(BaseOperation(), sf, sp, rows);
            r.abort.None? && r.emitted == rows
            && forall i :: 0 <= i < |rows| ==> r.verdicts[i] == Completed
  {
    var r := RunRows(BaseOperation(), sf, sp, rows);
    RunRowsSound(BaseOperation(), sf, sp, rows);
    assert forall row: Row :: ProcessRow(BaseOperation(), sf, sp, row) == Emit(row + map[], Completed);
    forall i | 0 <= i < |rows| ensures r.emitted[i] == rows[i] && r.verdicts[i] == Completed {
      assert ProcessRow(BaseOperation(), sf, sp, rows[i]) == Emit(rows[i] + map[], Completed);
      assert rows[i] + map[] == rows[i];
    }
  }

  /** The operation of the engine's own example: it raises a
      RowProcessError on the row named name2, treats the row named name1 as
      already done, and otherwise adds a `result` column. */
  function NameOperation(): Operation
  {
    Operation(
      (row: Row) =>
        if "name" !in row then Raised(KeyError("name"))
        else if row["name"] == "name2" then Raised(RowProcessError("name2 is very bad"))
        else Done(map["result" := row["name"] + "processed"]),
      (row: Row) => "name" in row && row["name"] == "name1")
  }

  /** In that example the first row is skipped, the second fails and is kept
      as it was, and the third gains its result. */
  lemma SkipFailCompleteExample()
    ensures RunRows(NameOperation(), true, true,
                    [map["name" := "name1"], map["name" := "name2"], map["name" := "name3"]]).emitted
              == [map["name" := "name1"], map["name" := "name2"],
                  map["name" := "name3", "result" := "name3processed"]]
  {
    var op := NameOperation();
    var r1: Row := map["name" := "name1"];
    var r2: Row := map["name" := "name2"];
    var r3: Row := map["name" := "name3"];
    var o3: Row := map["name" := "name3", "result" := "name3processed"];
    assert ProcessRow(op, true, true, r1) == Emit(r1, Skipped);
    assert ProcessRow(op, true, true, r2) == Emit(r2, Failed(RowProcessError("name2 is very bad")));
    assert "name3" + "processed" == "name3processed";
    assert op.apply(r3) == Done(map["result" := "name3processed"]);
    assert r3 + map["result" := "name3processed"] == o3;
    RunRowsAllEmit(op, true, true, [r1, r2, r3], [r1, r2, o3],
                   [Skipped, Failed(RowProcessError("name2 is very bad")), Completed]);
  }
}
