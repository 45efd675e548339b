# ViTables attribute editor, modelled in Dafny

ViTables is a viewer and editor for PyTables/HDF5 files. Its Properties
dialog lets the user edit a node's user attributes in a table: a name, a
value typed as text, and a dtype chosen from a list (`int8` … `uint64`,
`float32`, `float64`, `complex64`, `complex128`, `bool`, `string`,
`python`, …). Pressing OK builds an `AttrEditor`. The editor:

- copies the table, plus a TITLE row when a title is given, into `edited_attrs`;
- checks it (`checkAttributes`): empty names, then repeated names, then
  the dtype, range and syntax of every scalar row, stopping at the first
  failure and normalising each scalar row's value as it accepts it;
- commits it to the node's attribute set (`setAttributes`): it deletes the
  user attributes that no row names, then writes every scalar row.

The project models that module, `vitables/nodeProperties/attrEditor.py`:

- `python.dfy`: the part of Python's `long()` and `str()` the overflow
  check relies on.
- `attr_values.dfy`: the module-level helpers `checkSyntax`,
  `formatStrValue` and `checkOverflow`.
- `model.dfy`: rows, attribute values, verdicts and the collaborators
  (`Env`).
- `validation.dfy`: `Validate`, the specification of `checkAttributes`,
  and its properties.
- `commit.dfy`: `CommitEdits`, the specification of `setAttributes`, and
  its properties.
- `editor.dfy`: the `AttrEditor` class. Its methods update `asi` and
  `editedAttrs` in place and are proved against `Validate` and
  `CommitEdits`.

Python's `eval` and numpy's coercion are taken as parameters (`Env`). So
are the float range test and the attribute store's failures. Each is a
function of its arguments, and each result holds for every such function.

### Behaviour of the code worth knowing

- An integer outside its dtype's range makes `checkOverflow` raise
  `ValueError`. The handler at line 280 reports that with the "mismatches
  its data type" message, not "is out of range". `Validation.IntOverflowIsDtypeMismatch`
  states this. "Out of range" comes only from an `IndexError` raised by
  numpy's coercion.
- `edited_attrs` is keyed by row numbers, so `has_key(u'TITLE')` (line
  299) never holds. TITLE is a system attribute, not a user attribute, so
  it is never a deletion candidate, even when the title row is absent.
  `Commit.CommitExample` shows a TITLE that stays.
- The complex normalisation drops one pair of parentheses only, so it is
  not idempotent: `formatStrValue` turns "((1+2j))" into "(1+2j)", which
  it turns into "1+2j" (`AttrValues.ComplexStripsOnePair`). Whether a
  check ever gets to do the second strip depends on numpy accepting
  "(1+2j)" when the first check coerces it; if numpy refuses it, the row
  is a dtype mismatch.
- An empty `python` value makes `value[0]` raise `IndexError` outside any
  handler (line 66), so the check raises instead of returning a verdict
  (`Verdict.Crashed`).

## Model

| member | source | states |
|---|---|---|
| Python.ParseLong | vitables/nodeProperties/attrEditor.py:149 | `long()` succeeds exactly on an optional sign followed by decimal digits, and an unsigned spelling is never negative |
| Python.ParseStr | vitables/nodeProperties/attrEditor.py:149 | `long()` reads back the decimal spelling of every integer, negative ones included |
| AttrValues.CheckSyntax | vitables/nodeProperties/attrEditor.py:60-74 | an empty value raises IndexError and nothing else does; a leading quote is refused; otherwise the value is accepted exactly when `eval` succeeds |
| AttrValues.LeadingQuoteRefused | vitables/nodeProperties/attrEditor.py:66-68 | a value starting with a quote is refused whatever `eval` would do with it |
| AttrValues.FormatStrValue | vitables/nodeProperties/attrEditor.py:77-107 | `bool` maps the four true tokens to "1", the four false tokens to "0", and anything else to None; `complex*` drops exactly one surrounding pair of parentheses; every other dtype leaves the value unchanged |
| AttrValues.FormatStable | vitables/nodeProperties/attrEditor.py:87-107 | formatting an already formatted value changes nothing, unless a complex value is still parenthesised |
| AttrValues.ComplexStripsOnePair | vitables/nodeProperties/attrEditor.py:100-103 | "((1+2j))" needs two passes to lose its parentheses |
| AttrValues.IntBoundsMatchWidths | vitables/nodeProperties/attrEditor.py:131-137 | the `iinfo` limits of the eight integer dtypes are exactly the two's-complement or unsigned ranges of their widths |
| AttrValues.CheckOverflow | vitables/nodeProperties/attrEditor.py:110-154 | returns the value unchanged or raises ValueError; dtypes outside the table pass; a float passes exactly when it parses and lies within the range; an integer passes exactly when `long()` parses it and it lies within the `iinfo` limits |
| AttrValues.DecimalInRange | vitables/nodeProperties/attrEditor.py:146-154 | the decimal spelling of n passes an integer dtype's check exactly when n lies in that width's range |
| AttrValues.EightBitLimits | vitables/nodeProperties/attrEditor.py:146-154 | 255 passes uint8 but 256 and -1 do not; -128 passes int8 but -129 does not |
| Validation.FindEmptyName | vitables/nodeProperties/attrEditor.py:237-244 | the first row whose name is empty, and every earlier row has a name |
| Validation.FindRepeat | vitables/nodeProperties/attrEditor.py:247-255 | the first row whose name an earlier row already has, the rows before it being distinct; none only if all names are distinct |
| Validation.Caught | vitables/nodeProperties/attrEditor.py:278-281 | IndexError is reported as out of range, ValueError as a dtype mismatch, and any other exception escapes |
| Validation.CheckRow | vitables/nodeProperties/attrEditor.py:259-285 | a `python` row passes exactly when its syntax check succeeds, and a non-empty unquoted value whose `eval` fails is a syntax error; for any other dtype a value formatStrValue refuses, or one checkOverflow raises on, is a dtype mismatch; a value that passes both is accepted, normalised, when numpy's coercion succeeds, and otherwise gets the handler's verdict for the coercion's exception; "out of range" arises only from an IndexError raised by the coercion |
| Validation.Settle | vitables/nodeProperties/attrEditor.py:283-285 | a row pass 3 goes past keeps its name, dtype and multidim flag; only an accepted scalar row changes, and then only its value |
| Validation.Validate | vitables/nodeProperties/attrEditor.py:209-287 | the check keeps every row's name, dtype and multidim flag, leaves multidimensional rows untouched, and changes only values |
| Validation.EmptyNameFirst | vitables/nodeProperties/attrEditor.py:237-244 | the first empty name ends the check, reported by its 1-based row number, with the rows unchanged |
| Validation.EmptyNameReportedIff | vitables/nodeProperties/attrEditor.py:237-244 | an empty name is reported exactly when some row has one |
| Validation.RepeatedNameFirst | vitables/nodeProperties/attrEditor.py:247-255 | with every name filled in, the first repeated name ends the check, naming that attribute, with the rows unchanged |
| Validation.RepeatedNameAt | vitables/nodeProperties/attrEditor.py:247-255 | the same, for the row whose name is already in `names_list` |
| Validation.AcceptedIff | vitables/nodeProperties/attrEditor.py:209-287 | `(True, None)` exactly when every name is filled in and unique and every scalar row passes; the rows are then all normalised |
| Validation.StopsAtFirstFailingRow | vitables/nodeProperties/attrEditor.py:258-287 | the check stops at the first failing scalar row with that row's verdict; earlier rows are normalised, and that row and later ones are as they were |
| Validation.RevalidationStable | vitables/nodeProperties/attrEditor.py:258-287 | checking an accepted table again accepts it and changes nothing, unless a complex value is still parenthesised |
| Validation.IntOverflowIsDtypeMismatch | vitables/nodeProperties/attrEditor.py:146-152 | an integer outside its dtype's range is reported as a dtype mismatch, never as out of range |
| Validation.Uint8OverflowExample | vitables/nodeProperties/attrEditor.py:273-281 | 256 in a uint8 row is reported as a dtype mismatch |
| Validation.PythonRowOutcomes | vitables/nodeProperties/attrEditor.py:262-265 | a `python` value starting with a quote gives a syntax error; an empty one raises IndexError |
| Commit.AfterDeletes | vitables/nodeProperties/attrEditor.py:305-309 | an attribute survives exactly when it is not a deletion target or its deletion fails; survivors keep their values |
| Commit.RowValue | vitables/nodeProperties/attrEditor.py:318-322 | a `python` row's value is built exactly when `eval` succeeds; any other row's value exactly when numpy's coercion does |
| Commit.WriteFrom | vitables/nodeProperties/attrEditor.py:311-328 | the write loop reports only write failures, and an exception escapes only when building the value of some scalar row raises that exception |
| Commit.CommitEdits | vitables/nodeProperties/attrEditor.py:290-328 | an attribute no row names is deleted when it is a user attribute whose deletion succeeds, and otherwise keeps its presence and value; no attribute is created under a name no row has |
| Commit.WriteFromUntouched | vitables/nodeProperties/attrEditor.py:311-328 | an attribute no scalar row names keeps its presence and value through the write loop |
| Commit.WriteFromKeepsKeys | vitables/nodeProperties/attrEditor.py:311-328 | the write loop never removes an attribute |
| Commit.WriteFromNoRaise | vitables/nodeProperties/attrEditor.py:311-328 | when every scalar row's value can be built, nothing escapes the write loop |
| Commit.WriteFromStoresRow | vitables/nodeProperties/attrEditor.py:311-328 | when every scalar row from `from` on can be built, a scalar row whose name no other scalar row from `from` on has ends up stored with its value unless its own write fails; earlier failures do not stop it |
| Commit.WriteFromReportsFailures | vitables/nodeProperties/attrEditor.py:324-328 | when every scalar row from `from` on can be built, the failures reported are exactly the scalar rows whose write fails |
| Commit.AcceptedRowsBuild | vitables/nodeProperties/attrEditor.py:277 | every scalar row of an accepted table can be built, with the value the check normalised |
| Commit.SettledNames | vitables/nodeProperties/attrEditor.py:285 | normalising values keeps the set of row names |
| Commit.CommitAcceptedRaisesNothing | vitables/nodeProperties/attrEditor.py:290-328 | committing an accepted table raises nothing |
| Commit.CommitAcceptedDeletes | vitables/nodeProperties/attrEditor.py:298-309 | committing an accepted table deletes exactly the user attributes no row names, unless the deletion fails; it never deletes a named attribute and leaves every other attribute as it was |
| Commit.CommitAcceptedWrites | vitables/nodeProperties/attrEditor.py:311-328 | committing an accepted table stores every scalar row whose write does not fail and leaves multidimensional rows' attributes as they were |
| Commit.CommitAcceptedFailedWrites | vitables/nodeProperties/attrEditor.py:324-328 | committing an accepted table leaves the attribute of a scalar row whose write fails as it was before the commit |
| Commit.CommitExample | vitables/nodeProperties/attrEditor.py:298-328 | attributes A, B and TITLE, edited to rows A and C: B is deleted, A is overwritten, C is created and TITLE stays |
| Editor.AttrEditor.constructor | vitables/nodeProperties/attrEditor.py:169-201 | one entry per table row, in row order, with multidim set exactly for rows whose name is not editable, then the TITLE row when a title is given |
| Editor.AttrEditor.CheckAttributes | vitables/nodeProperties/attrEditor.py:209-287 | the verdict and the rows left behind are those of `Validate` on the rows before the call |
| Editor.AttrEditor.FirstEmptyRow | vitables/nodeProperties/attrEditor.py:237-244 | the loop finds the row `FindEmptyName` specifies |
| Editor.AttrEditor.FirstRepeatedRow | vitables/nodeProperties/attrEditor.py:247-255 | the loop over `names_list` finds the row `FindRepeat` specifies |
| Editor.AttrEditor.SettleRows | vitables/nodeProperties/attrEditor.py:258-287 | stops at the first failing scalar row with its verdict, every earlier row normalised in place, or accepts with every row normalised |
| Editor.AttrEditor.DeleteUnedited | vitables/nodeProperties/attrEditor.py:298-309 | the attribute set becomes `AfterDeletes`, and every failed deletion is reported exactly once |
| Editor.AttrEditor.WriteRows | vitables/nodeProperties/attrEditor.py:311-328 | the attribute set, the failures and the escaping exception are those of `WriteFrom` |
| Editor.AttrEditor.SetAttributes | vitables/nodeProperties/attrEditor.py:290-328 | the new attribute set and the escaping exception are those of `CommitEdits`; failed deletions are reported once each, followed by the failed writes in row order |

## Left out

- Reading the Qt table (`model.item`, `indexWidget`, `currentText`): the constructor takes the cells as `TableRow` values.
- `__tr` and the text of the messages: verdicts are datatype values that carry the row number or the attribute name the message would show.
- Python's `eval`: `Env.evaluates` says whether it succeeds. What it evaluates to is not modelled, nor which exception it raises (a failing `eval` in setAttributes escapes as `OtherError`), and a `python` attribute is stored as its source text (`PyObject`).
- numpy's `array(value).astype(dtype)[()]`: `Env.coerce` gives the exception it raises, if any. The stored scalar is the dtype and the text (`Scalar`).
- Floating point: `float()` and `numpy.finfo` limits are folded into `Env.floatFits`.
- AttrValues.CheckOverflow: `long()` is modelled for an optional sign followed by decimal digits only. Python 2's `long()` also accepts surrounding whitespace, a trailing `L` and, on a unicode string, non-ASCII Unicode decimal digits; the model refuses those strings.
- The attribute store: `_f_delAttr` and `setattr` failures are `Env.deleteFails` and `Env.writeFails`, and `formatExceptionInfo` becomes a reported `StoreFailure`. System attribute names are a set given to the constructor.
- Editor.AttrEditor.SetAttributes: deletions follow a set's iteration order, which the model leaves open. Its contract fixes which deletions are reported, not in what order.
- The collaborators are taken as deterministic and free of side effects: `eval`, the coercion and the store give the same answer whenever they are asked the same thing, and asking them changes nothing. User Python code that reads or changes state can break this.
- Commit.CommitAcceptedRaisesNothing: relies on that assumption. It treats the `eval` and the coercion run by setAttributes as giving the results they gave during checkAttributes.
