/**
 * The values the attribute editor works on: the rows of the user attributes
 * table, the attribute values kept in a node's attribute set, the verdicts of
 * a check, and the behaviour of the collaborators the editor calls but does
 * not define (Python's `eval`, numpy's coercion, the attribute store).
 */
module AttrModel {
  import opened Python

  /** One row of the Properties dialog's table, as the dialog shows it. */
  datatype TableRow = TableRow(name: string, value: string, dtype: string, editable: bool)

  /**
   * One entry of `edited_attrs`: the tuple `(name, value, dtype, multidim)`.
   * `multidim` marks a multidimensional attribute, which the editor neither
   * checks nor writes.
   */
  datatype Row = Row(name: string, value: string, dtype: string, multidim: bool)

  /** A value held in a node's attribute set. */
  datatype Value =
    | Scalar(dtype: string, text: string)     // numpy.array(text).astype(dtype)[()]
    | PyObject(source: string)                // eval(source)

  /**
   * What the model leaves to the editor's collaborators:
   * - `evaluates(v)`: `eval(v)` returns without raising;
   * - `coerce(dtype, v)`: the exception `numpy.array(v).astype(dtype)[()]`
   *   raises, or None when it returns a scalar;
   * - `floatFits(dtype, v)`: `float(v)` parses and lies within `numpy.finfo(dtype)`;
   * - `deleteFails(name)`: deleting the attribute from the node raises;
   * - `writeFails(name, v)`: `setattr(asi, name, v)` raises.
   */
  datatype Env = Env(
    evaluates: string -> bool,
    coerce: (string, string) -> Option<Exception>,
    floatFits: (string, string) -> bool,
    deleteFails: string -> bool,
    writeFails: (string, Value) -> bool)

  /** The reasons checkAttributes gives for refusing the table. */
  datatype AttrError =
    | EmptyName(row: nat)        // 1-based row number
    | Repeated(name: string)
    | DtypeMismatch(name: string)
    | OutOfRange(name: string)
    | Syntax(name: string)

  /**
   * The result of checkAttributes: `(True, None)`, `(False, message)`, or an
   * exception that escapes it.
   */
  datatype Verdict = Accepted | Rejected(error: AttrError) | Crashed(exc: Exception)

  /** A store failure that setAttributes reports and then goes past. */
  datatype StoreFailure = DeleteFailed(name: string) | WriteFailed(name: string)
}
