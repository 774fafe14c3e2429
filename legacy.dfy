/**
 * The older engine of lico/lico.py. Its `Table` and column bookkeeping are
 * those of lico/core.py, but its `apply_safe` writes the result into the row
 * dict itself (`row.update`), skips through `can_be_skipped`, and its
 * `process` drops every row that raised its own RowProcessError (the class
 * lico/lico.py declares) instead of passing it on.
 *
 * A row here is a `Dict` object, because the engine changes rows in place and
 * its output table holds the very dicts of its input.
 */
module Legacy {
  import opened Errors
  import opened Rows
  import Core

  /** A Python dict holding one row; `update` changes it in place. */
  class Dict {
    var fields: Row

    constructor(fields: Row)
      ensures this.fields == fields
    {
      this.fields := fields;
    }
  }

  /** The current contents of a list of dicts. */
  function Snapshot(ds: seq<Dict>): (rows: seq<Row>)
    reads ds
    ensures |rows| == |ds|
    ensures forall i :: 0 <= i < |ds| ==> rows[i] == ds[i].fields
  {
    if ds == [] then []
    else
      assert forall d :: d in ds[..|ds| - 1] ==> d in ds;
      Snapshot(ds[..|ds| - 1]) + [ds[|ds| - 1].fields]
  }

  // ---------------------------------------------------------------------------
  // Table
  // ---------------------------------------------------------------------------

  /** The legacy `Table`: a list of row dicts and a remembered column order. */
  class Table {
    var content: seq<Dict>
    var columnOrder: seq<string>

    /** `Table(content, column_order)`: a missing or empty column order becomes `[]`. */
    constructor(content: seq<Dict>, columnOrder: Option<seq<string>>)
      ensures this.content == content
      ensures this.columnOrder == (if columnOrder.Some? then columnOrder.value else [])
    {
      this.content := content;
      if columnOrder.None? || columnOrder.value == [] {
        this.columnOrder := [];
      } else {
        this.columnOrder := columnOrder.value;
      }
    }

    /** `append`: the row dict goes last. */
    method Append(row: Dict)
      modifies this
      ensures content == old(content) + [row]
      ensures columnOrder == old(columnOrder)
    {
      content := content + [row];
    }

    /** `get_fieldnames`, as in the new engine: the remembered order, then
        every other key of some row, each once. */
    method GetFieldnames() returns (names: seq<string>)
      ensures IsFieldnames(names, columnOrder, Snapshot(content))
    {
      var fromContent := AllKeys(Snapshot(content));
      var extra := ListOfSet(fromContent - Elems(columnOrder));
      names := columnOrder + extra;
      assert names[|columnOrder|..] == extra;
    }

    /** `concat`, as in the new engine: the other table's dicts follow this
        table's, and the column order becomes the de-duplicated headers of both. */
    method Concat(other: Table)
      modifies this
      ensures content == old(content) + old(other.content)
      ensures Core.IsConcatOrder(columnOrder, old(columnOrder), old(Snapshot(content)),
                                 old(other.columnOrder), old(Snapshot(other.content)))
    {
      var mine := GetFieldnames();
      var theirs := other.GetFieldnames();
      var unique := UniqueInOrder(mine + theirs);
      columnOrder := unique;
      content := content + other.content;
    }
  }

  // ---------------------------------------------------------------------------
  // Operation
  // ---------------------------------------------------------------------------

  /** A legacy operation: `apply` computes the new fields (or raises), and
      `canBeSkipped` tells whether the row already holds this operation's result. */
  datatype Operation = Operation(apply: Row -> Outcome<Row>, canBeSkipped: Row -> bool)

  /** The base class: `apply` returns `{}` and `can_be_skipped` is False. */
  function BaseOperation(): Operation
  {
    Operation((row: Row) => Done(map[]), (row: Row) => false)
  }

  /** What legacy `apply_safe` leaves in a row with the given fields; its
      meaning is stated by SafeResultMeaning. */
  function SafeResult(op: Operation, skip: bool, row: Row): Outcome<Row>
  {
    if skip && op.canBeSkipped(row) then Done(row)
    else
      match op.apply(row)
      case Done(partial) => Done(row + partial)
      case Raised(KeyError(key)) => Raised(LegacyMissingInputColumn(key, row.Keys))
      case Raised(e) => Raised(e)
  }

  /** Legacy `apply_safe` returns a skippable row as it is, without calling
      `apply`; otherwise it updates the row with `apply`'s result, whose keys
      overwrite the row's and leave its other keys alone; a missing key is
      reported as MissingInputColumn with the row's columns, and anything
      else passes through. */
  lemma SafeResultMeaning(op: Operation, skip: bool, row: Row)
    ensures var r := SafeResult(op, skip, row);
            && (skip && op.canBeSkipped(row) ==> r == Done(row))
            && (r.Done? && !(skip && op.canBeSkipped(row)) ==>
                  && op.apply(row).Done?
                  && r.value.Keys == row.Keys + op.apply(row).value.Keys
                  && (forall k :: k in op.apply(row).value ==> r.value[k] == op.apply(row).value[k])
                  && (forall k :: k in row && k !in op.apply(row).value ==> r.value[k] == row[k]))
            && (r.Raised? ==> op.apply(row).Raised? && !r.error.KeyError?)
            && (r.Raised? && op.apply(row).error.KeyError? ==>
                  r.error == LegacyMissingInputColumn(op.apply(row).error.key, row.Keys))
            && (r.Raised? && !op.apply(row).error.KeyError? ==> r.error == op.apply(row).error)
  {
  }

  /** `apply_safe` proper: it returns the same dict it was given, changed in
      place, or raises and leaves the dict alone. */
  method ApplySafe(op: Operation, row: Dict, skip: bool) returns (r: Outcome<Dict>)
    modifies row
    ensures match SafeResult(op, skip, old(row.fields))
            case Done(fields) => r == Done(row) && row.fields == fields
            case Raised(e) => r == Raised(e) && row.fields == old(row.fields)
  {
    if skip && op.canBeSkipped(row.fields) {
      return Done(row);
    }
    match op.apply(row.fields)
    case Done(partial) =>
      row.fields := row.fields + partial;
      return Done(row);
    case Raised(e) =>
      if e.KeyError? {
        return Raised(LegacyMissingInputColumn(e.key, row.fields.Keys));
      }
      return Raised(e);
  }

  /** The legacy engine treats as a row-level error exactly its own RowProcessError
      or a missing key raised by `apply` on a row it does not skip. */
  lemma SafeResultRowErrors(op: Operation, skip: bool, row: Row)
    ensures SafeResult(op, skip, row).Raised? && IsLegacyRowProcessError(SafeResult(op, skip, row).error)
            <==> !(skip && op.canBeSkipped(row)) && op.apply(row).Raised?
                 && (IsLegacyRowProcessError(op.apply(row).error) || op.apply(row).error.KeyError?)
  {
  }

  // ---------------------------------------------------------------------------
  // process
  // ---------------------------------------------------------------------------

  /** The effect of legacy `process` on a list of rows: the new fields of the
      rows it went through, the indices of the rows it kept (in order), and
      the exception that stopped it, if any. */
  datatype Processed = Processed(updated: seq<Row>, kept: seq<nat>, abort: Option<Error>)

  /** One turn of `process`, on the row at index n, after the turns before it. */
  function Turn(p: Processed, op: Operation, c: bool, row: Row, n: nat): Processed
  {
    if p.abort.Some? then p
    else
      match SafeResult(op, true, row)
      case Done(fields) => Processed(p.updated + [fields], p.kept + [n], None)
      case Raised(e) =>
        if IsLegacyRowProcessError(e) && c then Processed(p.updated + [row], p.kept, None)
        else Processed(p.updated, p.kept, Some(e))
  }

  /** Legacy `process` over rows held in distinct dicts. ProcessRowsSound
      says which rows it keeps and why. */
  function ProcessRows(op: Operation, catchExceptions: bool, rows: seq<Row>): (p: Processed)
    ensures |p.updated| <= |rows|
    ensures p.abort.None? ==> |p.updated| == |rows|
  {
    if rows == [] then Processed([], [], None)
    else Turn(ProcessRows(op, catchExceptions, rows[..|rows| - 1]), op, catchExceptions,
              rows[|rows| - 1], |rows| - 1)
  }

  /** How process left one row it went through: kept, as `apply_safe`
      returned it, or dropped for a caught row-level error and left as it was. */
  predicate Handled(op: Operation, c: bool, row: Row, after: Row, isKept: bool)
  {
    if isKept then SafeResult(op, true, row) == Done(after)
    else && after == row
         && SafeResult(op, true, row).Raised?
         && c && IsLegacyRowProcessError(SafeResult(op, true, row).error)
  }

  /** What a run `p` over `rows` accounts for: the kept rows are a
      subsequence of the rows gone through, each row gone through was
      handled, and the exception that stops the run is one it does not catch,
      raised by the first row not gone through. */
  ghost predicate Accounts(op: Operation, c: bool, rows: seq<Row>, p: Processed)
  {
    && |p.updated| <= |rows|
    && (if p.abort.None? then |p.updated| == |rows| else |p.updated| < |rows|)
    && (forall a, b :: 0 <= a < b < |p.kept| ==> p.kept[a] < p.kept[b])
    && (forall j :: 0 <= j < |p.kept| ==> p.kept[j] < |p.updated|)
    && (forall i :: 0 <= i < |p.updated| ==> Handled(op, c, rows[i], p.updated[i], i in p.kept))
    && (p.abort.Some? ==>
          && SafeResult(op, true, rows[|p.updated|]) == Raised(p.abort.value)
          && !(c && IsLegacyRowProcessError(p.abort.value)))
  }

  /** One more turn keeps the account: the step of ProcessRowsSound. */
  lemma TurnAccounts(op: Operation, c: bool, rows: seq<Row>, q: Processed)
    requires rows != []
    requires Accounts(op, c, rows[..|rows| - 1], q)
    ensures Accounts(op, c, rows, Turn(q, op, c, rows[|rows| - 1], |rows| - 1))
  {
    var n := |rows| - 1;
    var front := rows[..n];
    var p := Turn(q, op, c, rows[n], n);
    if q.abort.None? {
      assert n !in q.kept;
      forall i | 0 <= i < |p.updated| ensures Handled(op, c, rows[i], p.updated[i], i in p.kept) {
        if i < n {
          assert rows[i] == front[i];
          assert p.updated[i] == q.updated[i];
          assert (i in p.kept) == (i in q.kept);
        }
      }
    } else {
      assert rows[|q.updated|] == front[|q.updated|];
    }
  }

  /** A row is kept exactly when `apply_safe` returned it, updated; a row is
      dropped only for a caught row-level error, and is left as it was; the
      exception that stops the run is one it does not catch. */
  lemma {:induction false} ProcessRowsSound(op: Operation, c: bool, rows: seq<Row>)
    ensures Accounts(op, c, rows, ProcessRows(op, c, rows))
  {
    if rows != [] {
      ProcessRowsSound(op, c, rows[..|rows| - 1]);
      TurnAccounts(op, c, rows, ProcessRows(op, c, rows[..|rows| - 1]));
    }
  }

  /** Extending the input by one row extends the effect by that row's turn. */
  lemma ProcessRowsStep(op: Operation, c: bool, rows: seq<Row>, i: nat)
    requires i < |rows|
    ensures ProcessRows(op, c, rows[..i + 1]) == Turn(ProcessRows(op, c, rows[..i]), op, c, rows[i], i)
  {
    assert rows[..i + 1][..i] == rows[..i];
  }

  lemma {:induction false} ProcessRowsStopsAtAbort(op: Operation, c: bool, rows: seq<Row>, k: nat)
    requires k <= |rows|
    requires ProcessRows(op, c, rows[..k]).abort.Some?
    ensures ProcessRows(op, c, rows) == ProcessRows(op, c, rows[..k])
    decreases |rows| - k
  {
    if k < |rows| {
      assert rows[..k + 1][..k] == rows[..k];
      ProcessRowsStopsAtAbort(op, c, rows, k + 1);
    } else {
      assert rows[..k] == rows;
    }
  }

  /** The elements of `s` at the given indices, in the order given. */
  function Select<T>(s: seq<T>, indices: seq<nat>): (r: seq<T>)
    requires forall j :: 0 <= j < |indices| ==> indices[j] < |s|
    ensures |r| == |indices|
    ensures forall j :: 0 <= j < |indices| ==> r[j] == s[indices[j]]
  {
    seq(|indices|, j requires 0 <= j < |indices| => s[indices[j]])
  }

  lemma SelectAppend<T>(s: seq<T>, indices: seq<nat>, i: nat)
    requires i < |s| && forall j :: 0 <= j < |indices| ==> indices[j] < |s|
    ensures Select(s, indices + [i]) == Select(s, indices) + [s[i]]
  {
  }

  /** The state of `process`'s loop before the dict at index `n`: the
      first `n` dicts hold their updated rows, the others are untouched,
      and `output` holds the dicts kept so far. */
  ghost predicate Progress(ds: seq<Dict>, output: Table, op: Operation, catchExceptions: bool,
                           rows: seq<Row>, n: nat, done: Processed)
    reads ds, output
  {
    && n <= |ds| == |rows|
    && ProcessRows(op, catchExceptions, rows[..n]) == done && done.abort.None?
    && (forall j :: 0 <= j < n ==> ds[j].fields == done.updated[j])
    && (forall j :: n <= j < |ds| ==> ds[j].fields == rows[j])
    && (forall j :: 0 <= j < |done.kept| ==> done.kept[j] < n)
    && output.content == Select(ds, done.kept)
  }

  /** One turn of `process`'s loop, on the dict at index `n`: apply the
      operation in place, append the dict to `output` unless it raised,
      and say whether an exception escapes. */
  method ProcessOne(output: Table, ds: seq<Dict>, n: nat, op: Operation, catchExceptions: bool,
                    ghost rows: seq<Row>, ghost done: Processed)
    returns (raised: Option<Error>, ghost next: Processed)
    requires n < |ds| && forall i, j :: 0 <= i < j < |ds| ==> ds[i] != ds[j]
    requires Progress(ds, output, op, catchExceptions, rows, n, done)
    modifies output, ds[n]
    ensures next == ProcessRows(op, catchExceptions, rows[..n + 1])
    ensures raised == next.abort
    ensures output.columnOrder == old(output.columnOrder)
    ensures raised.None? ==> Progress(ds, output, op, catchExceptions, rows, n + 1, next)
    ensures raised.Some? ==> forall j :: 0 <= j < |ds| ==>
              ds[j].fields == if j < |next.updated| then next.updated[j] else rows[j]
  {
    ProcessRowsStep(op, catchExceptions, rows, n);
    var row := ds[n];
    next := Turn(done, op, catchExceptions, row.fields, n);
    var r := ApplySafe(op, row, true);
    assert forall j :: 0 <= j < |ds| && j != n ==> ds[j] != row;
    match r {
      case Done(d) =>
        SelectAppend(ds, done.kept, n);
        output.Append(d);
        raised := None;
      case Raised(e) =>
        if IsLegacyRowProcessError(e) && catchExceptions {
          raised := None;
        } else {
          raised := Some(e);
        }
    }
  }

  /** The loop of `process` over the dicts `ds`: each dict is updated in
      place and those not dropped are appended to `output`; an uncaught
      exception ends the loop. */
  method ProcessLoop(ds: seq<Dict>, output: Table, op: Operation, catchExceptions: bool,
                     ghost rows: seq<Row>)
    returns (raised: Option<Error>, ghost done: Processed)
    requires forall i, j :: 0 <= i < j < |ds| ==> ds[i] != ds[j]
    requires |rows| == |ds| && forall j :: 0 <= j < |ds| ==> ds[j].fields == rows[j]
    requires output.content == []
    modifies output, ds
    ensures done == ProcessRows(op, catchExceptions, rows)
    ensures raised == done.abort
    ensures forall j :: 0 <= j < |ds| ==>
              ds[j].fields == if j < |done.updated| then done.updated[j] else rows[j]
    ensures output.columnOrder == old(output.columnOrder)
    ensures raised.None? ==> (forall j :: 0 <= j < |done.kept| ==> done.kept[j] < |ds|)
    ensures raised.None? ==> output.content == Select(ds, done.kept)
  {
    done := Processed([], [], None);
    var i := 0;
    while i < |ds|
      invariant 0 <= i <= |ds|
      invariant Progress(ds, output, op, catchExceptions, rows, i, done)
      invariant output.columnOrder == old(output.columnOrder)
    {
      ghost var next;
      raised, next := ProcessOne(output, ds, i, op, catchExceptions, rows, done);
      if raised.Some? {
        ProcessRowsStopsAtAbort(op, catchExceptions, rows, i + 1);
        done := next;
        return;
      }
      done := next;
      i := i + 1;
    }
    assert rows[..i] == rows;
    raised := None;
  }

  /** `process`: the dicts of the input are updated in place, and the output
      table, with the input's column order, holds those of them that did not
      raise a caught RowProcessError. An uncaught exception leaves the rows
      before it updated and the rest untouched. */
  method Process(inputList: Table, op: Operation, catchExceptions: bool)
    returns (result: Outcome<Table>)
    requires forall i, j :: 0 <= i < j < |inputList.content| ==> inputList.content[i] != inputList.content[j]
    modifies inputList.content
    ensures var p := ProcessRows(op, catchExceptions, old(Snapshot(inputList.content)));
            && (forall j :: 0 <= j < |inputList.content| ==>
                  inputList.content[j].fields
                    == if j < |p.updated| then p.updated[j] else old(inputList.content[j].fields))
            && match result
               case Done(t) =>
                 && p.abort.None? && fresh(t)
                 && t.columnOrder == inputList.columnOrder
                 && (forall j :: 0 <= j < |p.kept| ==> p.kept[j] < |inputList.content|)
                 && t.content == Select(inputList.content, p.kept)
               case Raised(e) => p.abort == Some(e)
  {
    ghost var rows := Snapshot(inputList.content);
    var output := new Table([], Some(inputList.columnOrder));
    var raised;
    ghost var done;
    raised, done := ProcessLoop(inputList.content, output, op, catchExceptions, rows);
    if raised.Some? {
      return Raised(raised.value);
    }
    return Done(output);
  }

  // ---------------------------------------------------------------------------
  // Properties of the legacy engine
  // ---------------------------------------------------------------------------

  /** The number of rows whose `apply_safe` raises. */
  function Failures(op: Operation, rows: seq<Row>): nat
  {
    if rows == [] then 0
    else Failures(op, rows[..|rows| - 1]) + (if SafeResult(op, true, rows[|rows| - 1]).Raised? then 1 else 0)
  }

  /** Rows lost: with `catch_exceptions` and an operation that raises only
      row-level errors (or missing keys), the run goes through every row and
      keeps exactly those that did not fail; the output is shorter than the
      input by the number of failures. */
  lemma {:induction false} LegacyDropsFailingRows(op: Operation, rows: seq<Row>)
    requires forall i :: 0 <= i < |rows| && SafeResult(op, true, rows[i]).Raised? ==>
               IsLegacyRowProcessError(SafeResult(op, true, rows[i]).error)
    ensures var p := ProcessRows(op, true, rows);
            && p.abort.None?
            && |p.kept| + Failures(op, rows) == |rows|
            && forall i :: 0 <= i < |rows| ==> (i in p.kept <==> SafeResult(op, true, rows[i]).Done?)
  {
    if rows != [] {
      var n := |rows| - 1;
      var front := rows[..n];
      LegacyDropsFailingRows(op, front);
      assert front + [rows[n]] == rows;
    }
    ProcessRowsSound(op, true, rows);
  }

  /** At least one failing row means at least one dropped row. */
  lemma {:induction false} FailuresPositive(op: Operation, rows: seq<Row>, i: nat)
    requires i < |rows| && SafeResult(op, true, rows[i]).Raised?
    ensures Failures(op, rows) > 0
  {
    var n := |rows| - 1;
    if i < n {
      FailuresPositive(op, rows[..n], i);
    }
  }

  /** Without `catch_exceptions` the first failing row stops the run: only the
      rows before it are updated, and its exception is re-raised. */
  lemma {:induction false} LegacyFirstFailureStops(op: Operation, rows: seq<Row>, k: nat)
    requires k < |rows|
    requires forall i :: 0 <= i < k ==> SafeResult(op, true, rows[i]).Done?
    requires SafeResult(op, true, rows[k]).Raised?
    ensures var p := ProcessRows(op, false, rows);
            && p.abort == Some(SafeResult(op, true, rows[k]).error)
            && |p.updated| == k
  {
    NoAbortBefore(op, rows, k);
    ProcessRowsStep(op, false, rows, k);
    ProcessRowsStopsAtAbort(op, false, rows, k + 1);
  }

  /** Rows that all succeed do not stop the run, and it goes through each. */
  lemma {:induction false} NoAbortBefore(op: Operation, rows: seq<Row>, k: nat)
    requires k <= |rows|
    requires forall i :: 0 <= i < k ==> SafeResult(op, true, rows[i]).Done?
    ensures ProcessRows(op, false, rows[..k]).abort.None?
    ensures |ProcessRows(op, false, rows[..k]).updated| == k
  {
    if k > 0 {
      NoAbortBefore(op, rows, k - 1);
      ProcessRowsStep(op, false, rows, k - 1);
    }
  }

  /** With the base Operation every row is kept, unchanged, in order. */
  lemma {:induction false} BaseOperationKeepsRows(c: bool, rows: seq<Row>)
    ensures var p := ProcessRows(BaseOperation(), c, rows);
            && p.abort.None? && p.updated == rows
            && |p.kept| == |rows| && forall j :: 0 <= j < |rows| ==> p.kept[j] == j
  {
    if rows != [] {
      var n := |rows| - 1;
      BaseOperationKeepsRows(c, rows[..n]);
      assert rows[n] + map[] == rows[n];
      assert rows[..n] + [rows[n]] == rows;
    }
  }

  /** The contrast with the new engine: given the same apply and the same
      previous-result test, a row with a missing column comes out unchanged at
      its place from the new engine (skipping failing rows), but is dropped
      by the legacy one (catching exceptions). */
  lemma RowLostOnlyByLegacy(apply: Row -> Outcome<Row>, done: Row -> bool,
                            rows: seq<Row>, i: nat, column: string)
    requires forall j :: 0 <= j < |rows| && apply(rows[j]).Raised? ==>
               apply(rows[j]).error.KeyError?
    requires i < |rows| && apply(rows[i]) == Raised(KeyError(column)) && !done(rows[i])
    ensures var r := Core.RunRows(Core.Operation(apply, done), true, true, rows);
            r.abort.None? && |r.emitted| == |rows| && r.emitted[i] == rows[i]
    ensures var p := ProcessRows(Operation(apply, done), true, rows);
            p.abort.None? && i !in p.kept && |p.kept| < |rows|
  {
    var coreOp := Core.Operation(apply, done);
    var op := Operation(apply, done);
    forall j | 0 <= j < |rows| && Core.ApplySafe(coreOp, rows[j]).Raised?
      ensures IsRowProcessError(Core.ApplySafe(coreOp, rows[j]).error)
    {
      Core.ApplySafeRowErrors(coreOp, rows[j]);
    }
    Core.EveryRowEmitted(coreOp, true, rows);
    Core.MissingColumnIsRowFailure(coreOp, true, true, rows[i], column);
    forall j | 0 <= j < |rows| && SafeResult(op, true, rows[j]).Raised?
      ensures IsLegacyRowProcessError(SafeResult(op, true, rows[j]).error)
    {
      SafeResultRowErrors(op, true, rows[j]);
    }
    LegacyDropsFailingRows(op, rows);
    FailuresPositive(op, rows, i);
  }
}
