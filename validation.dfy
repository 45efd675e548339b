/**
 * What AttrEditor.checkAttributes decides and how it leaves `edited_attrs`,
 * as functions of the rows it starts from. The three passes run in a fixed
 * order and the first failure ends the check: empty names, then repeated
 * names, then the per-row dtype, range and syntax check, which overwrites
 * every row it accepts with the value it normalised.
 */
module Validation {
  import opened Python
  import opened AttrValues
  import opened AttrModel

  // ---------------------------------------------------------------------------
  // Pass 1: empty names
  // ---------------------------------------------------------------------------

  /** The first row at or after `from` whose name is empty. */
  function FindEmptyName(rows: seq<Row>, from: nat): (r: Option<nat>)
    requires from <= |rows|
    ensures r.Some? ==>
      && from <= r.value < |rows|
      && rows[r.value].name == ""
      && forall k :: from <= k < r.value ==> rows[k].name != ""
    ensures r.None? ==> forall k :: from <= k < |rows| ==> rows[k].name != ""
    decreases |rows| - from
  {
    if from == |rows| then None
    else if rows[from].name == "" then Some(from)
    else FindEmptyName(rows, from + 1)
  }

  // ---------------------------------------------------------------------------
  // Pass 2: repeated names
  // ---------------------------------------------------------------------------

  /** The names of the rows, in row order (the `names_list` of pass 2). */
  function Names(rows: seq<Row>): (ns: seq<string>)
    ensures |ns| == |rows|
    ensures forall k :: 0 <= k < |rows| ==> ns[k] == rows[k].name
  {
    seq(|rows|, k requires 0 <= k < |rows| => rows[k].name)
  }

  /** No two of the first `n` rows share a name. */
  predicate DistinctUpTo(rows: seq<Row>, n: nat)
    requires n <= |rows|
  {
    forall i, k :: 0 <= i < k < n ==> rows[i].name != rows[k].name
  }

  /** The first row at or after `from` whose name already names an earlier row. */
  function FindRepeat(rows: seq<Row>, from: nat): (r: Option<nat>)
    requires from <= |rows|
    requires DistinctUpTo(rows, from)
    ensures r.Some? ==>
      && from <= r.value < |rows|
      && DistinctUpTo(rows, r.value)
      && exists i :: 0 <= i < r.value && rows[i].name == rows[r.value].name
    ensures r.None? ==> DistinctUpTo(rows, |rows|)
    decreases |rows| - from
  {
    if from == |rows| then None
    else if rows[from].name in Names(rows[..from]) then Some(from)
    else FindRepeat(rows, from + 1)
  }

  // ---------------------------------------------------------------------------
  // Pass 3: dtype, range and syntax of each scalar row
  // ---------------------------------------------------------------------------

  /** The outcome of checking one row: the value it is stored with, or the verdict that ends the check. */
  datatype RowCheck = Pass(value: string) | Stop(verdict: Verdict)

  /**
   * The handlers around the overflow check and the numpy coercion: IndexError
   * means out of range, ValueError a dtype mismatch; anything else escapes.
   */
  function Caught(e: Exception, name: string): (v: Verdict)
    ensures v.Rejected? <==> e == IndexError || e == ValueError
    ensures v == Rejected(OutOfRange(name)) <==> e == IndexError
    ensures v == Rejected(DtypeMismatch(name)) <==> e == ValueError
    ensures v.Crashed? ==> v.exc == e
  {
    match e
    case IndexError => Rejected(OutOfRange(name))
    case ValueError => Rejected(DtypeMismatch(name))
    case _ => Crashed(e)
  }

  /** The body of pass 3 for one row that is not multidimensional. */
  function CheckRow(r: Row, env: Env): (c: RowCheck)
    ensures c.Stop? ==> c.verdict != Accepted
    ensures c.Stop? && c.verdict.Rejected? ==>
      c.verdict.error in {DtypeMismatch(r.name), OutOfRange(r.name), Syntax(r.name)}
    ensures r.dtype == "python" ==>
      (c.Pass? <==> CheckSyntax(r.value, env.evaluates) == Ok(true)) && (c.Pass? ==> c.value == r.value)
    ensures r.dtype != "python" && c.Pass? ==>
      && FormatStrValue(r.dtype, r.value) == Some(c.value)
      && CheckOverflow(r.dtype, c.value, env.floatFits) == Ok(c.value)
      && env.coerce(r.dtype, c.value) == None
    ensures r.dtype == "python" && r.value != "" && !IsQuote(r.value[0]) && !env.evaluates(r.value) ==>
      c == Stop(Rejected(Syntax(r.name)))
    ensures r.dtype != "python" && FormatStrValue(r.dtype, r.value).None? ==>
      c == Stop(Rejected(DtypeMismatch(r.name)))
    ensures r.dtype != "python" && FormatStrValue(r.dtype, r.value).Some? ==>
      var v := FormatStrValue(r.dtype, r.value).value;
      && (CheckOverflow(r.dtype, v, env.floatFits).Raised? ==> c == Stop(Rejected(DtypeMismatch(r.name))))
      && (CheckOverflow(r.dtype, v, env.floatFits).Ok? && env.coerce(r.dtype, v).None? ==> c == Pass(v))
      && (CheckOverflow(r.dtype, v, env.floatFits).Ok? && env.coerce(r.dtype, v).Some? ==>
            c == Stop(Caught(env.coerce(r.dtype, v).value, r.name)))
    ensures c.Stop? && c.verdict == Rejected(OutOfRange(r.name)) ==>
      && r.dtype != "python"
      && FormatStrValue(r.dtype, r.value).Some?
      && env.coerce(r.dtype, FormatStrValue(r.dtype, r.value).value) == Some(IndexError)
  {
    if r.dtype == "python" then
      match CheckSyntax(r.value, env.evaluates)
      case Raised(e) => Stop(Crashed(e))
      case Ok(ok) => if ok then Pass(r.value) else Stop(Rejected(Syntax(r.name)))
    else
      match FormatStrValue(r.dtype, r.value)
      case None => Stop(Rejected(DtypeMismatch(r.name)))
      case Some(v) =>
        match CheckOverflow(r.dtype, v, env.floatFits)
        case Raised(e) => Stop(Caught(e, r.name))
        case Ok(w) =>
          match env.coerce(r.dtype, w)
          case Some(e) => Stop(Caught(e, r.name))
          case None => Pass(w)
  }

  /** A row pass 3 goes past: skipped as multidimensional, or accepted. */
  predicate RowPasses(r: Row, env: Env) {
    r.multidim || CheckRow(r, env).Pass?
  }

  /** A row after pass 3 has gone past it: an accepted scalar row holds its normalised value. */
  function Settle(r: Row, env: Env): (s: Row)
    ensures s.name == r.name && s.dtype == r.dtype && s.multidim == r.multidim
    ensures r.multidim || !CheckRow(r, env).Pass? ==> s == r
  {
    if !r.multidim && CheckRow(r, env).Pass? then r.(value := CheckRow(r, env).value) else r
  }

  /** The first row at or after `from` that pass 3 stops at, or |rows| if there is none. */
  function FirstFailing(rows: seq<Row>, env: Env, from: nat): (j: nat)
    requires from <= |rows|
    ensures from <= j <= |rows|
    ensures forall k :: from <= k < j ==> RowPasses(rows[k], env)
    ensures j < |rows| ==> !RowPasses(rows[j], env)
    decreases |rows| - from
  {
    if from == |rows| then |rows|
    else if !RowPasses(rows[from], env) then from
    else FirstFailing(rows, env, from + 1)
  }

  /** The rows with every row before `j` settled and the others as they were. */
  function SettledUpTo(rows: seq<Row>, env: Env, j: nat): (s: seq<Row>)
    requires j <= |rows|
    ensures |s| == |rows|
    ensures forall k :: 0 <= k < |rows| ==> s[k] == if k < j then Settle(rows[k], env) else rows[k]
  {
    seq(|rows|, k requires 0 <= k < |rows| => if k < j then Settle(rows[k], env) else rows[k])
  }

  // ---------------------------------------------------------------------------
  // The whole check
  // ---------------------------------------------------------------------------

  /** The verdict of checkAttributes and the rows it leaves behind. */
  datatype CheckResult = CheckResult(verdict: Verdict, rows: seq<Row>)

  function Validate(rows: seq<Row>, env: Env): (res: CheckResult)
    ensures |res.rows| == |rows|
    ensures forall k :: 0 <= k < |rows| ==>
      && res.rows[k].name == rows[k].name
      && res.rows[k].dtype == rows[k].dtype
      && res.rows[k].multidim == rows[k].multidim
    ensures forall k :: 0 <= k < |rows| && rows[k].multidim ==> res.rows[k] == rows[k]
  {
    match FindEmptyName(rows, 0)
    case Some(k) => CheckResult(Rejected(EmptyName(k + 1)), rows)
    case None =>
      match FindRepeat(rows, 0)
      case Some(k) => CheckResult(Rejected(Repeated(rows[k].name)), rows)
      case None =>
        var j := FirstFailing(rows, env, 0);
        CheckResult(if j == |rows| then Accepted else CheckRow(rows[j], env).verdict, SettledUpTo(rows, env, j))
  }

  predicate AllNamed(rows: seq<Row>) {
    forall k :: 0 <= k < |rows| ==> rows[k].name != ""
  }

  // ---------------------------------------------------------------------------
  // Properties of the check
  // ---------------------------------------------------------------------------

  /**
   * An empty name ends the check before anything else, naming the first such
   * row by its 1-based number and leaving every row as it was.
   */
  lemma EmptyNameFirst(rows: seq<Row>, env: Env, i: nat)
    requires i < |rows| && rows[i].name == ""
    requires forall k :: 0 <= k < i ==> rows[k].name != ""
    ensures Validate(rows, env) == CheckResult(Rejected(EmptyName(i + 1)), rows)
  {
  }

  /** The check reports an empty name exactly when some row has one. */
  lemma EmptyNameReportedIff(rows: seq<Row>, env: Env)
    ensures (Validate(rows, env).verdict.Rejected? && Validate(rows, env).verdict.error.EmptyName?)
        <==> !AllNamed(rows)
  {
    if AllNamed(rows) {
      var res := Validate(rows, env);
      if FindRepeat(rows, 0).None? {
        var j := FirstFailing(rows, env, 0);
        if j < |rows| {
          assert res.verdict == CheckRow(rows[j], env).verdict;
        }
      }
    }
  }

  /**
   * With every name filled in, the check ends at the first row, in row order,
   * whose name an earlier row already has, names that attribute, and leaves
   * every row as it was.
   */
  lemma RepeatedNameFirst(rows: seq<Row>, env: Env, i: nat, j: nat)
    requires AllNamed(rows)
    requires i < j < |rows| && rows[i].name == rows[j].name
    requires DistinctUpTo(rows, j)
    ensures Validate(rows, env) == CheckResult(Rejected(Repeated(rows[j].name)), rows)
  {
    var r := FindRepeat(rows, 0);
    assert r.Some?;
  }

  /** The same, for the repetition pass 2's `names_list` finds at row `j`. */
  lemma RepeatedNameAt(rows: seq<Row>, env: Env, j: nat)
    requires AllNamed(rows)
    requires j < |rows| && rows[j].name in Names(rows[..j])
    requires DistinctUpTo(rows, j)
    ensures Validate(rows, env) == CheckResult(Rejected(Repeated(rows[j].name)), rows)
  {
    var ns := Names(rows[..j]);
    var i :| 0 <= i < |ns| && ns[i] == rows[j].name;
    RepeatedNameFirst(rows, env, i, j);
  }

  /**
   * `(True, None)`: every name is filled in and unique and every scalar row
   * passes; the rows are then all settled, each scalar row holding the value
   * pass 3 normalised and each multidimensional row its original tuple.
   */
  lemma AcceptedIff(rows: seq<Row>, env: Env)
    ensures Validate(rows, env).verdict == Accepted <==>
      AllNamed(rows) && DistinctUpTo(rows, |rows|) && forall k :: 0 <= k < |rows| ==> RowPasses(rows[k], env)
    ensures Validate(rows, env).verdict == Accepted ==>
      forall k :: 0 <= k < |rows| ==> Validate(rows, env).rows[k] == Settle(rows[k], env)
  {
    var res := Validate(rows, env);
    if AllNamed(rows) && DistinctUpTo(rows, |rows|) {
      assert FindEmptyName(rows, 0).None?;
      assert FindRepeat(rows, 0).None?;
      var j := FirstFailing(rows, env, 0);
      if j < |rows| {
        assert res.verdict == CheckRow(rows[j], env).verdict != Accepted;
      }
    } else if AllNamed(rows) {
      assert FindRepeat(rows, 0).Some?;
    }
  }

  /**
   * With every name filled in and unique, the check stops at the first scalar
   * row that fails, with that row's verdict; the rows before it are settled
   * and it and the rows after it are left as they were.
   */
  lemma StopsAtFirstFailingRow(rows: seq<Row>, env: Env, j: nat)
    requires AllNamed(rows) && DistinctUpTo(rows, |rows|)
    requires j < |rows| && !RowPasses(rows[j], env)
    requires forall k :: 0 <= k < j ==> RowPasses(rows[k], env)
    ensures CheckRow(rows[j], env).Stop?
    ensures Validate(rows, env).verdict == CheckRow(rows[j], env).verdict
    ensures forall k :: 0 <= k < |rows| ==>
      Validate(rows, env).rows[k] == if k < j then Settle(rows[k], env) else rows[k]
  {
    assert FindEmptyName(rows, 0).None?;
    assert FindRepeat(rows, 0).None?;
    assert FirstFailing(rows, env, 0) == j;
  }

  /**
   * Checking an accepted table again accepts it and changes no value, unless
   * some complex value is still wrapped in parentheses after one pair was
   * dropped.
   */
  lemma {:induction false} RevalidationStable(rows: seq<Row>, env: Env)
    requires Validate(rows, env).verdict == Accepted
    requires forall k :: 0 <= k < |rows| && !rows[k].multidim && IsComplex(rows[k].dtype) ==>
      !Parenthesised(Validate(rows, env).rows[k].value)
    ensures Validate(Validate(rows, env).rows, env) == CheckResult(Accepted, Validate(rows, env).rows)
  {
    var settled := Validate(rows, env).rows;
    AcceptedIff(rows, env);
    forall k | 0 <= k < |settled|
      ensures RowPasses(settled[k], env) && Settle(settled[k], env) == settled[k]
    {
      var r := rows[k];
      if !r.multidim {
        var v := CheckRow(r, env).value;
        assert settled[k] == r.(value := v);
        if r.dtype != "python" {
          assert FormatStrValue(r.dtype, r.value) == Some(v);
          FormatStable(r.dtype, r.value);
          assert CheckRow(settled[k], env) == Pass(v);
        }
      }
    }
    AcceptedIff(settled, env);
    assert Validate(settled, env).rows == settled;
  }

  /**
   * An integer outside its dtype's range raises ValueError in checkOverflow,
   * and the handler for ValueError reports a dtype mismatch: an overflow is
   * never reported as out of range.
   */
  lemma IntOverflowIsDtypeMismatch(r: Row, env: Env)
    requires IntBounds(r.dtype).Some? && ParseLong(r.value).Some?
    requires var (lo, hi) := IntBounds(r.dtype).value; !(lo <= ParseLong(r.value).value <= hi)
    ensures CheckRow(r, env) == Stop(Rejected(DtypeMismatch(r.name)))
  {
    assert r.dtype != "bool" && !IsComplex(r.dtype) by {
      assert r.dtype[0] == 'i' || r.dtype[0] == 'u';
    }
  }

  /** `256` in a uint8 row is reported as a dtype mismatch, whatever numpy would do. */
  lemma Uint8OverflowExample(name: string, env: Env)
    ensures CheckRow(Row(name, "256", "uint8", false), env) == Stop(Rejected(DtypeMismatch(name)))
  {
    EightBitLimits(env.floatFits);
    assert FormatStrValue("uint8", "256") == Some("256") by {
      assert !IsComplex("uint8") by { assert "uint8"[0] != "complex"[0]; }
    }
  }

  /**
   * A `python` row whose value starts with a quote is refused with a syntax
   * error whatever `eval` would do; an empty `python` value makes
   * checkAttributes raise IndexError.
   */
  lemma PythonRowOutcomes(r: Row, env: Env)
    requires r.dtype == "python"
    ensures r.value != "" && IsQuote(r.value[0]) ==> CheckRow(r, env) == Stop(Rejected(Syntax(r.name)))
    ensures r.value == "" ==> CheckRow(r, env) == Stop(Crashed(IndexError))
  {
  }
}
