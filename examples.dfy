/**
 * The example operations of the test suite and the scenarios they are used
 * in: the legacy `Concatenate` and `FetchResult` of tests/example_classes.py
 * (subclasses of the legacy Operation), `MyOperation` of
 * tests/test_examples.py, and Task runs that crash or complete.
 */
module Examples {
  import opened Errors
  import opened Rows
  import Core
  import Legacy
  import Operations
  import IO

  // ---------------------------------------------------------------------------
  // Legacy Concatenate
  // ---------------------------------------------------------------------------

  /** The legacy `Concatenate`: lico's own `apply` (the join of the columns
      under `concatenated`), with `can_be_skipped` true exactly when that
      column is there and not empty. */
  function LegacyConcatenate(columns: seq<string>): Legacy.Operation
  {
    Legacy.Operation((row: Row) => Operations.ConcatenateApply(columns, row),
                     (row: Row) => Operations.HasConcatenated(row))
  }

  /** What the legacy `apply_safe` makes of a row: a row with a result is
      returned as it is, a row with all the columns gains (or overwrites)
      `concatenated`, and a row missing a column raises MissingInputColumn
      naming the first one missing together with the row's columns. */
  lemma LegacyConcatenateResult(columns: seq<string>, row: Row)
    ensures var r := Legacy.SafeResult(LegacyConcatenate(columns), true, row);
            && (Operations.HasConcatenated(row) ==> r == Done(row))
            && (!Operations.HasConcatenated(row) && (forall c :: c in columns ==> c in row) ==>
                  r == Done(row["concatenated" := Operations.Join(row, columns).value]))
            && (!Operations.HasConcatenated(row) && (exists c :: c in columns && c !in row) ==>
                  && r.Raised? && r.error.LegacyMissingInputColumn?
                  && r.error.column in columns && r.error.column !in row
                  && r.error.rowColumns == row.Keys)
            && (forall k :: 0 <= k < |columns| && columns[k] !in row
                            && (forall j :: 0 <= j < k ==> columns[j] in row)
                            && !Operations.HasConcatenated(row)
                  ==> r == Raised(LegacyMissingInputColumn(columns[k], row.Keys)))
  {
    var op := LegacyConcatenate(columns);
    Legacy.SafeResultMeaning(op, true, row);
    forall k | 0 <= k < |columns| && columns[k] !in row
               && (forall j :: 0 <= j < k ==> columns[j] in row)
      ensures Operations.Join(row, columns) == Raised(KeyError(columns[k]))
    {
      Operations.JoinFirstMissing(row, columns, k);
    }
    if !Operations.HasConcatenated(row) && (forall c :: c in columns ==> c in row) {
      var joined := Operations.Join(row, columns).value;
      assert row + map["concatenated" := joined] == row["concatenated" := joined];
    }
  }

  /** The legacy engine with `catch_exceptions` drops exactly the rows that
      miss a column and have no result yet; lico's engine keeps them all
      (Operations.ConcatenateRunsEveryRow). */
  lemma LegacyConcatenateDropsIncomplete(columns: seq<string>, rows: seq<Row>)
    ensures var p := Legacy.ProcessRows(LegacyConcatenate(columns), true, rows);
            && p.abort.None?
            && forall i :: 0 <= i < |rows| ==>
                 (i in p.kept <==> Operations.HasConcatenated(rows[i])
                                   || forall c :: c in columns ==> c in rows[i])
  {
    var op := LegacyConcatenate(columns);
    forall i | 0 <= i < |rows|
      ensures Legacy.SafeResult(op, true, rows[i]).Done?
              <==> Operations.HasConcatenated(rows[i]) || forall c :: c in columns ==> c in rows[i]
      ensures Legacy.SafeResult(op, true, rows[i]).Raised? ==>
                IsLegacyRowProcessError(Legacy.SafeResult(op, true, rows[i]).error)
    {
      LegacyConcatenateResult(columns, rows[i]);
    }
    Legacy.LegacyDropsFailingRows(op, rows);
  }

  // ---------------------------------------------------------------------------
  // Legacy FetchResult
  // ---------------------------------------------------------------------------

  /** The legacy `FetchResult`: lico's own `apply`, with the base
      `can_be_skipped`, which is always false. */
  function LegacyFetchResult(idColumn: string, server: string -> Outcome<string>): Legacy.Operation
  {
    Legacy.Operation((row: Row) => Operations.FetchResultApply(idColumn, server, row),
                     (row: Row) => false)
  }

  /** A row without the id column raises MissingInputColumn; a server
      answer is written into the row under `server_result`; a server failure
      escapes the legacy engine even with `catch_exceptions`, unless the
      server raised the RowProcessError of lico/lico.py itself. */
  lemma LegacyFetchResultOutcome(idColumn: string, server: string -> Outcome<string>, row: Row)
    ensures var op := LegacyFetchResult(idColumn, server);
            var r := Legacy.SafeResult(op, true, row);
            && (idColumn !in row ==> r == Raised(LegacyMissingInputColumn(idColumn, row.Keys)))
            && (idColumn in row && server(row[idColumn]).Done? ==>
                  r == Done(row["server_result" := server(row[idColumn]).value]))
            && (idColumn in row && server(row[idColumn]).Raised? && !server(row[idColumn]).error.KeyError? ==>
                  && r == Raised(server(row[idColumn]).error)
                  && (!IsLegacyRowProcessError(r.error) ==>
                        Legacy.ProcessRows(op, true, [row]).abort == Some(r.error)))
  {
    var op := LegacyFetchResult(idColumn, server);
    Legacy.SafeResultMeaning(op, true, row);
    if idColumn in row && server(row[idColumn]).Done? {
      var answer := server(row[idColumn]).value;
      assert row + map["server_result" := answer] == row["server_result" := answer];
    }
    assert [row][..0] == [];
  }

  // ---------------------------------------------------------------------------
  // MyOperation
  // ---------------------------------------------------------------------------

  /** `MyOperation`: a row whose col1 is "0" cannot be processed (a bare
      RowProcessError, with an empty message); any other row is returned as
      its own result. A row that has a non-empty `result` has been done
      before. */
  function MyOperation(): Core.Operation
  {
    Core.Operation(
      (row: Row) =>
        if "col1" !in row then Raised(KeyError("col1"))
        else if row["col1"] == "0" then Raised(RowProcessError(""))
        else Done(row),
      (row: Row) => "result" in row && row["result"] != "")
  }

  /** `apply_safe` fails exactly on rows without col1 or with col1 "0", and
      only with a row-level error: a missing col1 becomes the RowProcessError
      "Missing column 'col1'". */
  lemma MyOperationFails(row: Row)
    ensures var r := Core.ApplySafe(MyOperation(), row);
            && (r.Raised? <==> "col1" !in row || row["col1"] == "0")
            && (r.Raised? ==> IsRowProcessError(r.error))
            && ("col1" !in row ==> r == Raised(RowProcessError("Missing column 'col1'")))
  {
    assert Core.MissingColumnMessage("col1") == "Missing column 'col1'";
  }

  /** Since a result is the row itself, merging it changes nothing: with
      `skip_failing_rows` every row is emitted exactly as it came in. */
  lemma MyOperationKeepsRows(sp: bool, rows: seq<Row>)
    ensures var r := Core.RunRows(MyOperation(), true, sp, rows);
            r.abort.None? && r.emitted == rows
  {
    var op := MyOperation();
    forall i | 0 <= i < |rows| && Core.ApplySafe(op, rows[i]).Raised?
      ensures IsRowProcessError(Core.ApplySafe(op, rows[i]).error)
    {
      MyOperationFails(rows[i]);
    }
    Core.EveryRowEmitted(op, sp, rows);
    var r := Core.RunRows(op, true, sp, rows);
    forall i | 0 <= i < |rows| ensures r.emitted[i] == rows[i] {
      assert rows[i] + rows[i] == rows[i];
    }
  }

  // ---------------------------------------------------------------------------
  // Task runs
  // ---------------------------------------------------------------------------

  /** A Task whose operation changes nothing saves the rows of its input in
      reverse order, because its iterator pops from the end of the list. */
  lemma TaskReversesRows(rows: seq<Row>)
    ensures IO.TaskRun(Core.BaseOperation(), rows) == IO.TaskResult(IO.Reversed(rows), [], None)
  {
    Core.BaseOperationKeepsRows(true, true, IO.Reversed(rows));
  }

  /** One FetchResult row whose server call answers. */
  lemma FetchedRow(server: string -> Outcome<string>, row: Row)
    requires "field1" in row && server(row["field1"]).Done?
    ensures Core.ProcessRow(Operations.FetchResult("field1", server), true, true, row)
            == Core.Emit(row["server_result" := server(row["field1"]).value], Core.Completed)
  {
    Operations.FetchResultNeverSkipped("field1", server, true, true, row);
  }

  /** The server of the crashing task, seen through the ten rows: it answers
      "one" and "two" for the last two rows and fails with a ValueError on
      the one before. */
  ghost predicate CrashingServer(server: string -> Outcome<string>, rows: seq<Row>)
  {
    && |rows| == 10
    && (forall i :: 0 <= i < 10 ==> "field1" in rows[i] && "server_result" !in rows[i])
    && server(rows[9]["field1"]) == Done("one")
    && server(rows[8]["field1"]) == Done("two")
    && server(rows[7]["field1"]) == Raised(ValueError("Horrible error"))
  }

  /** The first two rows the crashing task goes through gain their answers. */
  lemma CrashPrefix(server: string -> Outcome<string>, rows: seq<Row>)
    requires CrashingServer(server, rows)
    ensures Core.RunRows(Operations.FetchResult("field1", server), true, true, IO.Reversed(rows)[..2])
            == Core.Run([rows[9]["server_result" := "one"], rows[8]["server_result" := "two"]],
                        [Core.Completed, Core.Completed], None)
  {
    var op := Operations.FetchResult("field1", server);
    var rev := IO.Reversed(rows);
    var o9, o8 := rows[9]["server_result" := "one"], rows[8]["server_result" := "two"];
    FetchedRow(server, rows[9]);
    FetchedRow(server, rows[8]);
    assert |rows| == 10;
    assert rev[0] == rows[|rows| - 1 - 0];
    assert rev[1] == rows[|rows| - 1 - 1];
    assert rev[..2] == [rows[9], rows[8]];
    Core.RunRowsAllEmit(op, true, true, rev[..2], [o9, o8], [Core.Completed, Core.Completed]);
  }

  /** The crashing task of the test suite: ten rows with an id in field1, and
      the server above. The run goes through the rows from the end, so the
      saved file starts with the two answers, then the row in flight without
      a result, then the seven rows never reached; the ValueError is
      re-raised and the input table keeps just those seven rows. */
  lemma TaskCrash(server: string -> Outcome<string>, rows: seq<Row>)
    requires CrashingServer(server, rows)
    ensures var t := IO.TaskRun(Operations.FetchResult("field1", server), rows);
            && t.raised == Some(ValueError("Horrible error"))
            && |t.saved| == 10
            && "server_result" in t.saved[0] && t.saved[0]["server_result"] == "one"
            && "server_result" in t.saved[1] && t.saved[1]["server_result"] == "two"
            && "server_result" !in t.saved[2]
            && t.left == rows[..7]
  {
    var op := Operations.FetchResult("field1", server);
    var o9, o8 := rows[9]["server_result" := "one"], rows[8]["server_result" := "two"];
    CrashPrefix(server, rows);
    assert |rows| == 10;
    assert IO.Reversed(rows)[2] == rows[|rows| - 1 - 2];
    assert Core.ProcessRow(op, true, true, rows[7]) == Core.Abort(ValueError("Horrible error"));
    IO.TaskAborted(op, rows, 2, [o9, o8], [Core.Completed, Core.Completed],
                   ValueError("Horrible error"), rows[..7]);
    var saved := [o9, o8] + [rows[7]] + rows[..7];
    assert saved[0] == o9 && saved[1] == o8 && saved[2] == rows[7];
  }
}
