/**
 * The exceptions that travel through lico, as one closed set of tagged
 * variants (the classes of lico/exceptions.py and lico/lico.py and the Python built-ins that operations raise),
 * and the result type an operation returns instead of raising.
 */
module Errors {

  datatype Option<+T> = None | Some(value: T)

  /** An exception that can surface from an operation or from loading a table.
      lico has two separate RowProcessError hierarchies: lico/exceptions.py,
      which the new engine catches, and the one lico/lico.py declares for
      itself, which only the legacy engine catches. An exception of one is
      not an instance of the other. */
  datatype Error =
    /** RowProcessError of lico/exceptions.py: this row cannot be processed. */
    | RowProcessError(message: string)
    /** MissingInputColumn of lico/exceptions.py, a subclass of the above. */
    | MissingInputColumn(message: string)
    /** RowProcessError of lico/lico.py, caught by the legacy engine only. */
    | LegacyRowProcessError(message: string)
    /** MissingInputColumn of lico/lico.py, a subclass of the legacy
        RowProcessError: names the missing column and lists the columns the
        row does have. */
    | LegacyMissingInputColumn(column: string, rowColumns: set<string>)
    /** Python's KeyError, raised by row[key] when key is absent. */
    | KeyError(key: string)
    /** Python's ValueError, raised when given column names do not fit a file. */
    | ValueError(message: string)
    /** Any other exception (a broken server call, a TypeError, ...). */
    | Fault(message: string)

  /** True for the exceptions the new engine's `except RowProcessError`
      catches: the class of lico/exceptions.py and its subclass. */
  predicate IsRowProcessError(e: Error)
  {
    e.RowProcessError? || e.MissingInputColumn?
  }

  /** True for the exceptions the legacy engine's `except RowProcessError`
      catches: the class of lico/lico.py and its subclass. */
  predicate IsLegacyRowProcessError(e: Error)
  {
    e.LegacyRowProcessError? || e.LegacyMissingInputColumn?
  }

  /** What a call returns: a value, or the exception it raised. */
  datatype Outcome<+T> = Done(value: T) | Raised(error: Error)
}
