/**
 * The file layer of lico/io.py: `CSVFile` (a Table with a path), the cursor
 * `RowIterator`, and `Task`, which runs an operation over a file and, when
 * an exception escapes, still saves every input row before re-raising.
 *
 * Reading and writing CSV text is not modelled: a loaded file is its header
 * and its rows, and saving a file is the content its table holds when `save`
 * is called. `Task.Run` returns that content instead of writing it.
 */
module IO {
  import opened Errors
  import opened Rows
  import opened Core

  // ---------------------------------------------------------------------------
  // CSVFile
  // ---------------------------------------------------------------------------

  /** The column order `init_from_path` gives a file whose header is `header`:
      the given column names if there are any (there must be one per column of
      the file), else the header itself. */
  function ColumnOrderFor(header: seq<string>, columnNames: Option<seq<string>>): (r: Outcome<seq<string>>)
    ensures r.Raised? <==> columnNames.Some? && columnNames.value != [] && |columnNames.value| != |header|
    ensures r.Raised? ==> r.error.ValueError?
    // whatever names are used, there is one per column of the file
    ensures r.Done? ==> |r.value| == |header|
    ensures r.Done? && columnNames.Some? && columnNames.value != [] ==> r.value == columnNames.value
    ensures columnNames.None? || columnNames.value == [] ==> r == Done(header)
  {
    if columnNames.Some? && columnNames.value != [] then
      if |columnNames.value| != |header| then
        Raised(ValueError("fieldname(s) given do not match the number of columns found in file"))
      else Done(columnNames.value)
    else Done(header)
  }

  /** A comma separated file: a Table (its content and column order) together
      with the path it is saved to. */
  class CSVFile {
    const path: string
    const table: Table

    constructor(path: string, content: RowList, columnOrder: Option<seq<string>>)
      ensures this.path == path && fresh(table)
      ensures table.content == content
      ensures table.columnOrder == (if columnOrder.Some? then columnOrder.value else [])
    {
      this.path := path;
      table := new Table(content, columnOrder);
    }

    /** `init_from_table`: a file over the same list of rows and the same
        column order as `table`. */
    static method InitFromTable(path: string, table: Table) returns (f: CSVFile)
      ensures fresh(f) && f.path == path
      ensures f.table.content == table.content && f.table.columnOrder == table.columnOrder
    {
      f := new CSVFile(path, table.content, Some(table.columnOrder));
    }

    /** `init_from_path` for a file whose header and rows are given: the
        rows as read, with the column order of ColumnOrderFor, or the
        ValueError it raises. */
    static method InitFromPath(path: string, header: seq<string>, rows: seq<Row>,
                               columnNames: Option<seq<string>>)
      returns (r: Outcome<CSVFile>)
      ensures match ColumnOrderFor(header, columnNames)
              case Raised(e) => r == Raised(e)
              case Done(order) =>
                && r.Done? && fresh(r.value) && fresh(r.value.table.content)
                && r.value.path == path
                && r.value.table.content.items == rows
                && r.value.table.columnOrder == order
    {
      match ColumnOrderFor(header, columnNames)
      case Raised(e) =>
        return Raised(e);
      case Done(order) =>
        var content := new RowList(rows);
        var f := new CSVFile(path, content, Some(order));
        return Done(f);
    }
  }

  // ---------------------------------------------------------------------------
  // RowIterator
  // ---------------------------------------------------------------------------

  /** A sequence in reverse order. */
  function Reversed<T>(s: seq<T>): (r: seq<T>)
    ensures |r| == |s|
    ensures forall i :: 0 <= i < |s| ==> r[i] == s[|s| - 1 - i]
  {
    seq(|s|, i requires 0 <= i < |s| => s[|s| - 1 - i])
  }

  lemma ReversedAppend<T>(s: seq<T>, x: T)
    ensures Reversed(s + [x]) == [x] + Reversed(s)
  {
    var r, t := Reversed(s + [x]), [x] + Reversed(s);
    assert |r| == |t|;
    forall i | 0 <= i < |r| ensures r[i] == t[i] {
      if i > 0 {
        assert t[i] == Reversed(s)[i - 1];
      }
    }
  }

  /** Where the cursor stands: with `left` still to come and `returned`
      already handed out, both add up to the original rows, and the rows
      handed out are the original ones taken from the end. */
  lemma IteratorPosition(left: seq<Row>, returned: seq<Row>, original: seq<Row>)
    requires left + Reversed(returned) == original
    ensures |left| + |returned| == |original|
    ensures left == original[..|left|]
    ensures returned == Reversed(original)[..|returned|]
  {
    var back, reversed := Reversed(returned), Reversed(original);
    assert |left| + |back| == |original|;
    assert left == original[..|left|];
    forall i | 0 <= i < |returned| ensures returned[i] == reversed[i] {
      var j := |returned| - 1 - i;
      assert |original| - 1 - i == |left| + j;
      assert original[|left| + j] == back[j];
    }
  }

  /** `RowIterator`: hands out the rows of a list one by one, popping each
      from the end of the list and remembering it in `rowsReturned`, so that
      what is left can be recovered after an exception. The list is shared
      with whoever passed it in. */
  class RowIterator {
    const rowsLeft: RowList
    var rowsReturned: seq<Row>
    /** The rows the list held when the iterator was made. */
    ghost const original: seq<Row>

    ghost predicate Valid()
      reads this, rowsLeft
    {
      rowsLeft.items + Reversed(rowsReturned) == original
    }

    constructor(rows: RowList)
      ensures rowsLeft == rows && rowsReturned == [] && original == rows.items
      ensures Valid()
    {
      rowsLeft := rows;
      rowsReturned := [];
      original := rows.items;
      new;
      assert rows.items + [] == rows.items;
    }

    /** `__next__`: None stands for StopIteration, raised once the list is
        empty; otherwise the last row of the list moves to `rowsReturned`. */
    method Next() returns (row: Option<Row>)
      requires Valid()
      modifies this, rowsLeft
      ensures Valid()
      ensures old(rowsLeft.items) == [] ==> row.None? && rowsLeft.items == [] && rowsReturned == old(rowsReturned)
      ensures old(rowsLeft.items) != [] ==>
                && row.Some?
                && old(rowsLeft.items) == rowsLeft.items + [row.value]
                && rowsReturned == old(rowsReturned) + [row.value]
    {
      if rowsLeft.items == [] {
        return None;
      }
      var r := rowsLeft.Pop();
      ReversedAppend(rowsReturned, r);
      rowsReturned := rowsReturned + [r];
      return Some(r);
    }
  }

  // ---------------------------------------------------------------------------
  // Task
  // ---------------------------------------------------------------------------

  /** What a run of a Task leaves behind: the rows of the saved output file,
      the rows still in the input table, and the exception re-raised. */
  datatype TaskResult = TaskResult(saved: seq<Row>, left: seq<Row>, raised: Option<Error>)

  /** `Task.run` over an input file holding `rows`: the engine, skipping
      failing rows and previous results, goes through the rows from the last
      to the first. If it completes, its results are saved. If an exception
      escapes, the output is the results so far, then the row in flight as
      it was read, then the rows never reached, in their original order. */
  function TaskRun(op: Operation, rows: seq<Row>): TaskResult
  {
    var r := RunRows(op, true, true, Reversed(rows));
    if r.abort.None? then TaskResult(r.emitted, [], None)
    else
      var k := |r.emitted|;
      var left := rows[..|rows| - k - 1];
      TaskResult(r.emitted + [rows[|rows| - 1 - k]] + left, left, r.abort)
  }

  /** No row lost by a Task: the saved file has exactly as many rows as the
      input, on either path. Row i of it is the engine's result for the i-th
      row from the end; after an exception, the row in flight follows
      unprocessed, then the rows never reached, which are also all that the
      input table still holds. Only an exception the engine does not catch is
      re-raised. */
  lemma TaskRunLayout(op: Operation, rows: seq<Row>)
    ensures var t := TaskRun(op, rows);
            && |t.saved| == |rows|
            && (t.raised.None? ==> t.left == [])
            && (t.raised.Some? ==> |t.left| < |rows| && !IsRowProcessError(t.raised.value))
            && t.left == rows[..|t.left|]
            && t.saved[|rows| - |t.left|..] == t.left
            && (forall i :: 0 <= i < |rows| - |t.left| - (if t.raised.Some? then 1 else 0) ==>
                  ProcessRow(op, true, true, Reversed(rows)[i]).Emit?
                  && ProcessRow(op, true, true, Reversed(rows)[i]).row == t.saved[i])
            && (t.raised.Some? ==>
                  && t.saved[|rows| - |t.left| - 1] == rows[|t.left|]
                  && ProcessRow(op, true, true, rows[|t.left|]) == Abort(t.raised.value))
  {
    var t := TaskRun(op, rows);
    var r := RunRows(op, true, true, Reversed(rows));
    RunRowsSound(op, true, true, Reversed(rows));
    var k := |r.emitted|;
    assert |rows| - |t.left| - (if t.raised.Some? then 1 else 0) == k;
    forall i | 0 <= i < k
      ensures ProcessRow(op, true, true, Reversed(rows)[i]).Emit?
      ensures ProcessRow(op, true, true, Reversed(rows)[i]).row == t.saved[i]
    {
      assert t.saved[i] == r.emitted[i];
    }
    if r.abort.Some? {
      assert |rows| - 1 - k == |t.left|;
      assert Reversed(rows)[k] == rows[|t.left|];
    }
  }

  /** The state `run` ends in when the engine went through every row. */
  lemma TaskCompleted(op: Operation, rows: seq<Row>, emitted: seq<Row>, verdicts: seq<Verdict>)
    requires RunRows(op, true, true, Reversed(rows)[..|rows|]) == Core.Run(emitted, verdicts, None)
    ensures TaskRun(op, rows) == TaskResult(emitted, [], None)
  {
    assert Reversed(rows)[..|rows|] == Reversed(rows);
  }

  /** The state `run` ends in when the row at position n from the end made
      the engine raise: the results so far, the row in flight, then the rows
      left in the input list. */
  lemma TaskAborted(op: Operation, rows: seq<Row>, n: nat, emitted: seq<Row>, verdicts: seq<Verdict>,
                    e: Error, left: seq<Row>)
    requires n < |rows| && left == rows[..|rows| - n - 1]
    requires RunRows(op, true, true, Reversed(rows)[..n]) == Core.Run(emitted, verdicts, None)
    requires ProcessRow(op, true, true, Reversed(rows)[n]) == Abort(e)
    ensures TaskRun(op, rows) == TaskResult(emitted + [Reversed(rows)[n]] + left, left, Some(e))
  {
    var rev := Reversed(rows);
    RunRowsStep(op, true, true, rev, n, emitted, verdicts);
    RunRowsStopsAtAbort(op, true, true, rev, n + 1);
    var r := RunRows(op, true, true, rev);
    assert r == Core.Run(emitted, verdicts, Some(e));
    assert |emitted| == n;
    assert rows[|rows| - 1 - n] == rev[n];
  }

  /** What `run` does when an exception escapes the engine: the row in flight
      (the last one handed out), as it was read, then every row not reached,
      are added to the output, which is rebuilt as a new list. */
  method SaveUnprocessed(output: Table, rowIter: RowIterator)
    requires rowIter.rowsReturned != []
    requires output.content != rowIter.rowsLeft
    modifies output, output.content
    ensures fresh(output.content) && output.columnOrder == old(output.columnOrder)
    ensures output.content.items == old(output.content.items)
              + [rowIter.rowsReturned[|rowIter.rowsReturned| - 1]] + rowIter.rowsLeft.items
  {
    output.content.Append(rowIter.rowsReturned[|rowIter.rowsReturned| - 1]);
    output.content := new RowList(output.content.items + rowIter.rowsLeft.items);
  }

  /** A task on a file, with the path its output is saved to. */
  class Task {
    const inputFile: CSVFile
    const outputPath: string
    const operation: Operation

    /** `Task(input_file, output_path, operation)` for a file already loaded. */
    constructor(inputFile: CSVFile, outputPath: string, operation: Operation)
      ensures this.inputFile == inputFile && this.outputPath == outputPath
      ensures this.operation == operation
    {
      this.inputFile := inputFile;
      this.outputPath := outputPath;
      this.operation := operation;
    }

    /** `Task(input_file, output_path, operation)` for a path: the file is
        loaded with its own header as column order, which cannot fail. */
    constructor FromPath(path: string, header: seq<string>, rows: seq<Row>,
                         outputPath: string, operation: Operation)
      ensures fresh(inputFile) && inputFile.path == path
      ensures inputFile.table.content.items == rows && inputFile.table.columnOrder == header
      ensures this.outputPath == outputPath && this.operation == operation
    {
      var loaded := CSVFile.InitFromPath(path, header, rows, None);
      inputFile := loaded.value;
      this.outputPath := outputPath;
      this.operation := operation;
    }

    /** `run`: returns the output file as saved and the exception re-raised.
        The iterator pops from the input table's own list, so that list ends
        up holding only the rows never reached. */
    method Run() returns (output: CSVFile, raised: Option<Error>)
      modifies inputFile.table.content
      ensures var t := TaskRun(operation, old(inputFile.table.content.items));
              && fresh(output) && fresh(output.table.content)
              && output.path == outputPath
              && output.table.columnOrder == inputFile.table.columnOrder
              && output.table.content.items == t.saved
              && inputFile.table.content.items == t.left
              && raised == t.raised
    {
      var empty := new RowList([]);
      output := new CSVFile(outputPath, empty, Some(inputFile.table.columnOrder));
      var rowIter := new RowIterator(inputFile.table.content);
      ghost var rows := rowIter.original;
      ghost var rev := Reversed(rows);
      ghost var verdicts: seq<Verdict> := [];
      while true
        invariant rowIter.Valid() && rowIter.original == rows
        invariant rowIter.rowsLeft == inputFile.table.content
        invariant fresh(output) && fresh(output.table) && fresh(output.table.content)
        invariant output.path == outputPath && output.table.columnOrder == inputFile.table.columnOrder
        invariant |rowIter.rowsReturned| <= |rows|
        invariant rowIter.rowsReturned == rev[..|rowIter.rowsReturned|]
        invariant RunRows(operation, true, true, rev[..|rowIter.rowsReturned|])
                  == Core.Run(output.table.content.items, verdicts, None)
        decreases |rowIter.rowsLeft.items|
      {
        ghost var n := |rowIter.rowsReturned|;
        var next := rowIter.Next();
        IteratorPosition(rowIter.rowsLeft.items, rowIter.rowsReturned, rows);
        if next.None? {
          break;
        }
        var row := next.value;
        match ProcessRow(operation, true, true, row)
        case Emit(result, v) =>
          RunRowsStep(operation, true, true, rev, n, output.table.content.items, verdicts);
          output.table.content.Append(result);
          verdicts := verdicts + [v];
        case Abort(e) =>
          assert rowIter.rowsReturned[n] == rev[n];
          TaskAborted(operation, rows, n, output.table.content.items, verdicts, e, rowIter.rowsLeft.items);
          SaveUnprocessed(output.table, rowIter);
          return output, Some(e);
      }
      TaskCompleted(operation, rows, output.table.content.items, verdicts);
      return output, None;
    }
  }
}
