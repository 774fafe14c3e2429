/**
 * The operations shipped in lico/operations.py: `Concatenate`, which joins
 * the values of some columns into a `concatenated` column, and
 * `FetchResult`, which asks a server for a value keyed by one column.
 */
module Operations {
  import opened Errors
  import opened Rows
  import opened Core

  /** `"".join(row[c] for c in columns)`: the values of the columns, in order,
      or the KeyError of the first column the row lacks. */
  function Join(row: Row, columns: seq<string>): (r: Outcome<string>)
    ensures r.Done? <==> forall c :: c in columns ==> c in row
    ensures r.Raised? ==> r.error.KeyError? && r.error.key in columns && r.error.key !in row
  {
    if columns == [] then Done("")
    else if columns[0] !in row then Raised(KeyError(columns[0]))
    else
      match Join(row, columns[1..])
      case Done(rest) => Done(row[columns[0]] + rest)
      case Raised(e) => Raised(e)
  }

  /** The column the error names is the first one missing. */
  lemma {:induction false} JoinFirstMissing(row: Row, columns: seq<string>, k: nat)
    requires k < |columns| && columns[k] !in row
    requires forall j :: 0 <= j < k ==> columns[j] in row
    ensures Join(row, columns) == Raised(KeyError(columns[k]))
  {
    if k > 0 {
      JoinFirstMissing(row, columns[1..], k - 1);
    }
  }

  /** Joining two column lists is joining each and concatenating: together
      with JoinOne this says the value is the in-order concatenation of the
      columns' values. */
  lemma {:induction false} JoinAppend(row: Row, a: seq<string>, b: seq<string>)
    requires forall c :: c in a + b ==> c in row
    ensures Join(row, a + b) == Done(Join(row, a).value + Join(row, b).value)
  {
    if a != [] {
      assert (a + b)[1..] == a[1..] + b;
      JoinAppend(row, a[1..], b);
      var x, y, z := row[a[0]], Join(row, a[1..]).value, Join(row, b).value;
      assert Join(row, a) == Done(x + y);
      assert x + (y + z) == (x + y) + z;
    } else {
      assert a + b == b;
      assert "" + Join(row, b).value == Join(row, b).value;
    }
  }

  lemma JoinOne(row: Row, c: string)
    requires c in row
    ensures Join(row, [c]) == Done(row[c])
  {
    assert [c][1..] == [];
    assert row[c] + "" == row[c];
  }

  /** Two rows that agree on the given columns join them to the same value. */
  lemma {:induction false} JoinAgrees(r1: Row, r2: Row, columns: seq<string>)
    requires forall c :: c in columns ==> (c in r1 <==> c in r2)
    requires forall c :: c in columns && c in r1 ==> r1[c] == r2[c]
    ensures Join(r1, columns) == Join(r2, columns)
  {
    if columns != [] {
      JoinAgrees(r1, r2, columns[1..]);
    }
  }

  // ---------------------------------------------------------------------------
  // Concatenate
  // ---------------------------------------------------------------------------

  /** `Concatenate.apply`: a single new column `concatenated`. */
  function ConcatenateApply(columns: seq<string>, row: Row): (r: Outcome<Row>)
    ensures r.Done? ==> r.value.Keys == {"concatenated"}
                        && Join(row, columns) == Done(r.value["concatenated"])
    ensures r.Raised? ==> Join(row, columns) == Raised(r.error)
  {
    match Join(row, columns)
    case Done(s) => Done(map["concatenated" := s])
    case Raised(e) => Raised(e)
  }

  /** `Concatenate.has_previous_result`: `bool(row.get("concatenated"))`, true
      iff the column is there and not empty. */
  predicate HasConcatenated(row: Row)
  {
    "concatenated" in row && row["concatenated"] != ""
  }

  function Concatenate(columns: seq<string>): Operation
  {
    Operation((row: Row) => ConcatenateApply(columns, row), (row: Row) => HasConcatenated(row))
  }

  /** Concatenate never raises anything but a missing column, which apply_safe
      turns into a RowProcessError naming it. */
  lemma ConcatenateRaisesOnlyRowErrors(columns: seq<string>, row: Row)
    ensures var r := ApplySafe(Concatenate(columns), row);
            r.Raised? ==> exists c :: c in columns && c !in row
                                      && r.error == RowProcessError(MissingColumnMessage(c))
  {
    var r := ApplySafe(Concatenate(columns), row);
    if r.Raised? {
      var e := Join(row, columns).error;
      assert r.error == RowProcessError(MissingColumnMessage(e.key));
    }
  }

  lemma ConcatenateRunsEveryRow(columns: seq<string>, rows: seq<Row>)
    ensures RaisesOnlyRowErrors(Concatenate(columns), rows)
  {
    forall i | 0 <= i < |rows| && ApplySafe(Concatenate(columns), rows[i]).Raised?
      ensures IsRowProcessError(ApplySafe(Concatenate(columns), rows[i]).error)
    {
      ConcatenateRaisesOnlyRowErrors(columns, rows[i]);
    }
  }

  /** Joining patient and date on a row without date fails with the
      RowProcessError "Missing column 'date'"; without skip_failing_rows the
      run stops there. */
  lemma ConcatenateMissingDate(sp: bool, rows: seq<Row>)
    requires |rows| > 0 && "patient" in rows[0] && "date" !in rows[0] && "concatenated" !in rows[0]
    ensures ApplySafe(Concatenate(["patient", "date"]), rows[0])
              == Raised(RowProcessError("Missing column 'date'"))
    ensures RunRows(Concatenate(["patient", "date"]), false, sp, rows)
              == Run([], [], Some(RowProcessError("Missing column 'date'")))
  {
    var cols: seq<string> := ["patient", "date"];
    JoinFirstMissing(rows[0], cols, 1);
    assert MissingColumnMessage("date") == "Missing column 'date'";
    FirstRowErrorStops(Concatenate(cols), sp, rows, 0);
  }

  /** What the engine, skipping failures and previous results, makes of one
      row under Concatenate: a row with a non-empty result is skipped, a row
      with every column gains their join, and any other row fails with the
      RowProcessError naming the first missing column. */
  lemma ConcatenateStep(columns: seq<string>, row: Row)
    ensures ProcessRow(Concatenate(columns), true, true, row)
            == if HasConcatenated(row) then Emit(row, Skipped)
               else if Join(row, columns).Done? then
                 Emit(row["concatenated" := Join(row, columns).value], Completed)
               else Emit(row, Failed(RowProcessError(MissingColumnMessage(Join(row, columns).error.key))))
  {
    if !HasConcatenated(row) && Join(row, columns).Done? {
      var joined := Join(row, columns).value;
      assert row + map["concatenated" := joined] == row["concatenated" := joined];
    }
  }

  /** One row processed twice by Concatenate (skipping failures and previous
      results) comes out as it did the first time: a non-empty result is
      skipped, a failure fails again, and an empty result is recomputed to the
      same empty string. */
  lemma ConcatenateRowIdempotent(columns: seq<string>, row: Row)
    ensures var s1 := ProcessRow(Concatenate(columns), true, true, row);
            && s1.Emit?
            && ProcessRow(Concatenate(columns), true, true, s1.row).Emit?
            && ProcessRow(Concatenate(columns), true, true, s1.row).row == s1.row
  {
    ConcatenateStep(columns, row);
    var s1 := ProcessRow(Concatenate(columns), true, true, row);
    ConcatenateStep(columns, s1.row);
    if !HasConcatenated(row) && Join(row, columns).Done? && Join(row, columns).value == "" {
      JoinAgrees(row, s1.row, columns);
      assert s1.row["concatenated" := ""] == s1.row;
    }
  }

  /** Processing twice equals processing once. */
  lemma ConcatenateIdempotent(columns: seq<string>, rows: seq<Row>)
    ensures var once := RunRows(Concatenate(columns), true, true, rows).emitted;
            RunRows(Concatenate(columns), true, true, once).emitted == once
  {
    var op := Concatenate(columns);
    ConcatenateRunsEveryRow(columns, rows);
    EveryRowEmitted(op, true, rows);
    RunRowsSound(op, true, true, rows);
    var once := RunRows(op, true, true, rows).emitted;
    ConcatenateRunsEveryRow(columns, once);
    EveryRowEmitted(op, true, once);
    RunRowsSound(op, true, true, once);
    var twice := RunRows(op, true, true, once).emitted;
    forall i | 0 <= i < |rows| ensures twice[i] == once[i] {
      ConcatenateRowIdempotent(columns, rows[i]);
    }
  }

  /** A row with a patient and a date (and nothing else) gains their
      concatenation. */
  lemma PatientDateRow(patient: string, date: string)
    ensures ProcessRow(Concatenate(["patient", "date"]), true, true,
                       map["patient" := patient, "date" := date])
            == Emit(map["patient" := patient, "date" := date, "concatenated" := patient + date],
                    Completed)
  {
    var cols: seq<string> := ["patient", "date"];
    var row: Row := map["patient" := patient, "date" := date];
    assert cols[1..] == ["date"];
    JoinOne(row, "date");
    assert Join(row, cols) == Done(patient + date);
    assert row + map["concatenated" := patient + date]
           == map["patient" := patient, "date" := date, "concatenated" := patient + date];
  }

  /** The worked example: two rows with patient and date gain the column
      `concatenated` holding p1d1 and p2d2. */
  lemma ConcatenatePatientDate()
    ensures RunRows(Concatenate(["patient", "date"]), true, true,
                    [map["patient" := "p1", "date" := "d1"], map["patient" := "p2", "date" := "d2"]])
              == Run([map["patient" := "p1", "date" := "d1", "concatenated" := "p1d1"],
                      map["patient" := "p2", "date" := "d2", "concatenated" := "p2d2"]],
                     [Completed, Completed], None)
  {
    var op := Concatenate(["patient", "date"]);
    var r1: Row := map["patient" := "p1", "date" := "d1"];
    var r2: Row := map["patient" := "p2", "date" := "d2"];
    var o1: Row := map["patient" := "p1", "date" := "d1", "concatenated" := "p1d1"];
    var o2: Row := map["patient" := "p2", "date" := "d2", "concatenated" := "p2d2"];
    PatientDateRow("p1", "d1");
    PatientDateRow("p2", "d2");
    assert "p1" + "d1" == "p1d1" && "p2" + "d2" == "p2d2";
    RunRowsAllEmit(op, true, true, [r1, r2], [o1, o2], [Completed, Completed]);
  }

  /** The columns of the two result rows. */
  lemma PatientDateKeys()
    ensures AllKeys([map["patient" := "p1", "date" := "d1", "concatenated" := "p1d1"],
                     map["patient" := "p2", "date" := "d2", "concatenated" := "p2d2"]])
            == {"patient", "date", "concatenated"}
  {
    var o1: Row := map["patient" := "p1", "date" := "d1", "concatenated" := "p1d1"];
    var o2: Row := map["patient" := "p2", "date" := "d2", "concatenated" := "p2d2"];
    AllKeysAppend([o1], [o2]);
    assert [o1] + [o2] == [o1, o2];
    AllKeysAppend([], [o1]);
    assert [] + [o1] == [o1];
  }

  /** The header saved for that result is patient, date, concatenated: the
      only column outside the remembered order is the new one. */
  lemma PatientDateHeader(names: seq<string>)
    requires IsFieldnames(names, ["patient", "date"],
                          [map["patient" := "p1", "date" := "d1", "concatenated" := "p1d1"],
                           map["patient" := "p2", "date" := "d2", "concatenated" := "p2d2"]])
    ensures names == ["patient", "date", "concatenated"]
  {
    var cols: seq<string> := ["patient", "date"];
    PatientDateKeys();
    assert Elems(cols) == {"patient", "date"};
    FieldnamesOneExtra(names, cols, [map["patient" := "p1", "date" := "d1", "concatenated" := "p1d1"],
                                     map["patient" := "p2", "date" := "d2", "concatenated" := "p2d2"]],
                       "concatenated");
    assert cols + ["concatenated"] == ["patient", "date", "concatenated"];
  }

  // ---------------------------------------------------------------------------
  // FetchResult
  // ---------------------------------------------------------------------------

  /** `FetchResult.apply`: look the row's id up with the server and return its
      answer under `server_result`. The server is a call outside lico; here it
      is a parameter that answers or raises. */
  function FetchResultApply(idColumn: string, server: string -> Outcome<string>, row: Row): (r: Outcome<Row>)
    ensures idColumn !in row ==> r == Raised(KeyError(idColumn))
    ensures r.Done? ==> r.value.Keys == {"server_result"}
                        && server(row[idColumn]) == Done(r.value["server_result"])
    ensures idColumn in row && server(row[idColumn]).Raised? ==> r == Raised(server(row[idColumn]).error)
  {
    if idColumn !in row then Raised(KeyError(idColumn))
    else
      match server(row[idColumn])
      case Done(answer) => Done(map["server_result" := answer])
      case Raised(e) => Raised(e)
  }

  /** FetchResult keeps the base `has_previous_result`, which is always false. */
  function FetchResult(idColumn: string, server: string -> Outcome<string>): Operation
  {
    Operation((row: Row) => FetchResultApply(idColumn, server, row), (row: Row) => false)
  }

  /** A FetchResult row is never skipped: each run asks the server again, and
      a row whose server call succeeds gains exactly `server_result`. */
  lemma FetchResultNeverSkipped(idColumn: string, server: string -> Outcome<string>,
                                sf: bool, sp: bool, row: Row)
    ensures var s := ProcessRow(FetchResult(idColumn, server), sf, sp, row);
            && !(s.Emit? && s.verdict.Skipped?)
            && (idColumn in row && server(row[idColumn]).Done? ==>
                  s == Emit(row["server_result" := server(row[idColumn]).value], Completed))
  {
    var s := ProcessRow(FetchResult(idColumn, server), sf, sp, row);
    if idColumn in row && server(row[idColumn]).Done? {
      assert row + map["server_result" := server(row[idColumn]).value]
             == row["server_result" := server(row[idColumn]).value];
    }
  }
}
