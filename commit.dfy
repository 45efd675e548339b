/**
 * What AttrEditor.setAttributes does to a node's attribute set, as functions
 * of the set it starts from and the rows it commits. It first deletes every
 * user attribute that no row names, going past deletions that fail, then
 * writes every row that is not multidimensional, in row order, going past
 * writes that fail. Building a row's value is outside any handler: if it
 * raises, the exception escapes and the later rows are not written.
 */
module Commit {
  import opened Python
  import opened AttrModel
  import opened Validation

  // ---------------------------------------------------------------------------
  // Deleting removed attributes
  // ---------------------------------------------------------------------------

  /** `_v_attrnamesuser`: the attributes of the set that are not system attributes. */
  function UserNames(asi: map<string, Value>, systemNames: set<string>): (ns: set<string>)
    ensures forall n :: n in ns <==> n in asi && n !in systemNames
  {
    set n | n in asi && n !in systemNames
  }

  /** The names the rows give their attributes. */
  function EditedNames(rows: seq<Row>): (ns: set<string>)
    ensures forall k :: 0 <= k < |rows| ==> rows[k].name in ns
    ensures forall n :: n in ns ==> exists k :: 0 <= k < |rows| && rows[k].name == n
  {
    set k | 0 <= k < |rows| :: rows[k].name
  }

  /** The attributes setAttributes tries to delete: user attributes no row names. */
  function DeletionTargets(asi: map<string, Value>, systemNames: set<string>, rows: seq<Row>): set<string> {
    UserNames(asi, systemNames) - EditedNames(rows)
  }

  /** The attribute set once every deletion that does not fail has happened. */
  function AfterDeletes(asi: map<string, Value>, systemNames: set<string>, rows: seq<Row>, env: Env)
    : (m: map<string, Value>)
    ensures forall n :: n in m <==> n in asi && (n in DeletionTargets(asi, systemNames, rows) ==> env.deleteFails(n))
    ensures forall n :: n in m ==> m[n] == asi[n]
  {
    asi - (set n | n in DeletionTargets(asi, systemNames, rows) && !env.deleteFails(n))
  }

  /** The deletions that fail and are reported. */
  function FailedDeletes(asi: map<string, Value>, systemNames: set<string>, rows: seq<Row>, env: Env): set<string> {
    set n | n in DeletionTargets(asi, systemNames, rows) && env.deleteFails(n)
  }

  // ---------------------------------------------------------------------------
  // Writing the rows
  // ---------------------------------------------------------------------------

  /**
   * The value a scalar row is written with: `eval(value)` for a `python` row,
   * the numpy scalar of the row's dtype otherwise. Either may raise.
   */
  function RowValue(r: Row, env: Env): (v: Result<Value>)
    ensures r.dtype == "python" ==> (v.Ok? <==> env.evaluates(r.value)) && (v.Ok? ==> v.value == PyObject(r.value))
    ensures r.dtype != "python" ==> (v.Ok? <==> env.coerce(r.dtype, r.value).None?) && (v.Ok? ==> v.value == Scalar(r.dtype, r.value))
  {
    if r.dtype == "python" then
      if env.evaluates(r.value) then Ok(PyObject(r.value)) else Raised(OtherError)
    else
      match env.coerce(r.dtype, r.value)
      case None => Ok(Scalar(r.dtype, r.value))
      case Some(e) => Raised(e)
  }

  /** The attribute set, the reported failures and the escaping exception, if any. */
  datatype Outcome = Outcome(store: map<string, Value>, failures: seq<StoreFailure>, raised: Option<Exception>)

  /** The write loop of setAttributes, from row `from` on. */
  function WriteFrom(store: map<string, Value>, rows: seq<Row>, env: Env, from: nat): (o: Outcome)
    requires from <= |rows|
    ensures forall f :: f in o.failures ==> f.WriteFailed?
    ensures o.raised.Some? ==>
      exists k :: from <= k < |rows| && !rows[k].multidim && RowValue(rows[k], env) == Raised(o.raised.value)
    decreases |rows| - from
  {
    if from == |rows| then
      Outcome(store, [], None)
    else
      var r := rows[from];
      if r.multidim then
        WriteFrom(store, rows, env, from + 1)
      else
        match RowValue(r, env)
        case Raised(e) => Outcome(store, [], Some(e))
        case Ok(v) =>
          if env.writeFails(r.name, v) then
            var rest := WriteFrom(store, rows, env, from + 1);
            rest.(failures := [WriteFailed(r.name)] + rest.failures)
          else
            WriteFrom(store[r.name := v], rows, env, from + 1)
  }

  /**
   * setAttributes: the deletions, then the writes. An attribute no row names
   * is deleted if it is a user attribute whose deletion does not fail, and
   * otherwise keeps its presence and its value; in particular nothing is
   * created under a name no row has.
   */
  function CommitEdits(asi: map<string, Value>, systemNames: set<string>, rows: seq<Row>, env: Env): (o: Outcome)
    ensures forall n :: n !in EditedNames(rows) ==>
      && (n in o.store <==> n in asi && (n in UserNames(asi, systemNames) ==> env.deleteFails(n)))
      && (n in o.store ==> o.store[n] == asi[n])
  {
    var deleted := AfterDeletes(asi, systemNames, rows, env);
    WriteFromUntouchedAll(deleted, rows, env, 0);
    WriteFrom(deleted, rows, env, 0)
  }

  // ---------------------------------------------------------------------------
  // Properties of the write loop
  // ---------------------------------------------------------------------------

  /** Every row at or after `from` that is written can be built without raising. */
  predicate BuildsFrom(rows: seq<Row>, env: Env, from: nat)
    requires from <= |rows|
  {
    forall k :: from <= k < |rows| && !rows[k].multidim ==> RowValue(rows[k], env).Ok?
  }

  /** An attribute no scalar row names keeps its presence and its value. */
  lemma {:induction false} WriteFromUntouched(store: map<string, Value>, rows: seq<Row>, env: Env, from: nat, n: string)
    requires from <= |rows|
    requires forall k :: from <= k < |rows| && !rows[k].multidim ==> rows[k].name != n
    ensures var o := WriteFrom(store, rows, env, from);
      (n in o.store <==> n in store) && (n in store ==> o.store[n] == store[n])
    decreases |rows| - from
  {
    if from < |rows| {
      var r := rows[from];
      if r.multidim {
        WriteFromUntouched(store, rows, env, from + 1, n);
      } else if RowValue(r, env).Ok? {
        var v := RowValue(r, env).value;
        if env.writeFails(r.name, v) {
          WriteFromUntouched(store, rows, env, from + 1, n);
        } else {
          WriteFromUntouched(store[r.name := v], rows, env, from + 1, n);
        }
      }
    }
  }

  /** WriteFromUntouched for every name no row has. */
  lemma WriteFromUntouchedAll(store: map<string, Value>, rows: seq<Row>, env: Env, from: nat)
    requires from <= |rows|
    ensures forall n :: n !in EditedNames(rows) ==>
      var o := WriteFrom(store, rows, env, from);
      (n in o.store <==> n in store) && (n in store ==> o.store[n] == store[n])
  {
    forall n | n !in EditedNames(rows)
      ensures var o := WriteFrom(store, rows, env, from);
        (n in o.store <==> n in store) && (n in store ==> o.store[n] == store[n])
    {
      WriteFromUntouched(store, rows, env, from, n);
    }
  }

  /** The write loop never removes an attribute. */
  lemma {:induction false} WriteFromKeepsKeys(store: map<string, Value>, rows: seq<Row>, env: Env, from: nat)
    requires from <= |rows|
    ensures store.Keys <= WriteFrom(store, rows, env, from).store.Keys
    decreases |rows| - from
  {
    if from < |rows| {
      var r := rows[from];
      if r.multidim {
        WriteFromKeepsKeys(store, rows, env, from + 1);
      } else if RowValue(r, env).Ok? {
        var v := RowValue(r, env).value;
        if env.writeFails(r.name, v) {
          WriteFromKeepsKeys(store, rows, env, from + 1);
        } else {
          WriteFromKeepsKeys(store[r.name := v], rows, env, from + 1);
        }
      }
    }
  }

  /** When every row can be built, nothing escapes the write loop. */
  lemma {:induction false} WriteFromNoRaise(store: map<string, Value>, rows: seq<Row>, env: Env, from: nat)
    requires from <= |rows|
    requires BuildsFrom(rows, env, from)
    ensures WriteFrom(store, rows, env, from).raised == None
    decreases |rows| - from
  {
    if from < |rows| {
      var r := rows[from];
      if r.multidim {
        WriteFromNoRaise(store, rows, env, from + 1);
      } else {
        var v := RowValue(r, env).value;
        if env.writeFails(r.name, v) {
          WriteFromNoRaise(store, rows, env, from + 1);
        } else {
          WriteFromNoRaise(store[r.name := v], rows, env, from + 1);
        }
      }
    }
  }

  /**
   * When every scalar row from `from` on can be built, a scalar row whose
   * name no other scalar row from `from` on has ends up stored with its
   * value, unless its own write fails, in which case its attribute is as it
   * was; failures of earlier writes do not stop it.
   */
  lemma {:induction false} WriteFromStoresRow(store: map<string, Value>, rows: seq<Row>, env: Env, from: nat, k: nat)
    requires from <= k < |rows| && !rows[k].multidim
    requires BuildsFrom(rows, env, from)
    requires forall i :: from <= i < |rows| && i != k && !rows[i].multidim ==> rows[i].name != rows[k].name
    ensures var o := WriteFrom(store, rows, env, from);
      var n, v := rows[k].name, RowValue(rows[k], env).value;
      && (!env.writeFails(n, v) ==> n in o.store && o.store[n] == v)
      && (env.writeFails(n, v) ==> (n in o.store <==> n in store) && (n in store ==> o.store[n] == store[n]))
    decreases |rows| - from
  {
    var r := rows[from];
    if from == k {
      var v := RowValue(r, env).value;
      if env.writeFails(r.name, v) {
        WriteFromUntouched(store, rows, env, from + 1, r.name);
      } else {
        WriteFromUntouched(store[r.name := v], rows, env, from + 1, r.name);
      }
    } else if r.multidim {
      WriteFromStoresRow(store, rows, env, from + 1, k);
    } else {
      var v := RowValue(r, env).value;
      if env.writeFails(r.name, v) {
        WriteFromStoresRow(store, rows, env, from + 1, k);
      } else {
        WriteFromStoresRow(store[r.name := v], rows, env, from + 1, k);
      }
    }
  }

  /**
   * When every scalar row from `from` on can be built, the reported
   * failures are exactly the scalar rows whose write fails.
   */
  lemma {:induction false} WriteFromReportsFailures(store: map<string, Value>, rows: seq<Row>, env: Env, from: nat, n: string)
    requires from <= |rows|
    requires BuildsFrom(rows, env, from)
    ensures var o := WriteFrom(store, rows, env, from);
      WriteFailed(n) in o.failures <==>
        exists k :: from <= k < |rows| && !rows[k].multidim && rows[k].name == n
                    && env.writeFails(n, RowValue(rows[k], env).value)
    ensures forall f :: f in WriteFrom(store, rows, env, from).failures ==> f.WriteFailed?
    decreases |rows| - from
  {
    if from < |rows| {
      var r := rows[from];
      if r.multidim {
        WriteFromReportsFailures(store, rows, env, from + 1, n);
      } else {
        var v := RowValue(r, env).value;
        if env.writeFails(r.name, v) {
          WriteFromReportsFailures(store, rows, env, from + 1, n);
        } else {
          WriteFromReportsFailures(store[r.name := v], rows, env, from + 1, n);
        }
      }
    }
  }

  // ---------------------------------------------------------------------------
  // Committing a checked table
  // ---------------------------------------------------------------------------

  /**
   * Every scalar row of a table checkAttributes accepted can be built: a
   * `python` value evaluates, and every other value is the one numpy already
   * coerced during the check.
   */
  lemma AcceptedRowsBuild(rows: seq<Row>, env: Env)
    requires Validate(rows, env).verdict == Accepted
    ensures BuildsFrom(Validate(rows, env).rows, env, 0)
    ensures forall k :: 0 <= k < |rows| && !rows[k].multidim ==>
      RowValue(Validate(rows, env).rows[k], env).value ==
        if rows[k].dtype == "python" then PyObject(rows[k].value)
        else Scalar(rows[k].dtype, CheckRow(rows[k], env).value)
  {
    AcceptedIff(rows, env);
  }

  /** Pass 3 changes values only, so the accepted rows name the same attributes. */
  lemma SettledNames(rows: seq<Row>, env: Env)
    ensures EditedNames(Validate(rows, env).rows) == EditedNames(rows)
  {
    var settled := Validate(rows, env).rows;
    forall n | n in EditedNames(rows) ensures n in EditedNames(settled) {
      var k :| 0 <= k < |rows| && rows[k].name == n;
      assert settled[k].name == n;
    }
  }

  /** Committing a table checkAttributes accepted raises nothing. */
  lemma CommitAcceptedRaisesNothing(asi: map<string, Value>, systemNames: set<string>, rows: seq<Row>, env: Env)
    requires Validate(rows, env).verdict == Accepted
    ensures CommitEdits(asi, systemNames, Validate(rows, env).rows, env).raised == None
  {
    var settled := Validate(rows, env).rows;
    AcceptedRowsBuild(rows, env);
    WriteFromNoRaise(AfterDeletes(asi, systemNames, settled, env), settled, env, 0);
  }

  /**
   * Committing a table checkAttributes accepted deletes exactly the user
   * attributes no row names, except those whose deletion fails; never
   * deletes an attribute a row names; and leaves every other attribute as
   * it was.
   */
  lemma CommitAcceptedDeletes(asi: map<string, Value>, systemNames: set<string>, rows: seq<Row>, env: Env)
    requires Validate(rows, env).verdict == Accepted
    ensures var o := CommitEdits(asi, systemNames, Validate(rows, env).rows, env);
      && (forall n :: n in DeletionTargets(asi, systemNames, rows) ==>
            (n in o.store <==> env.deleteFails(n)) && (n in o.store ==> o.store[n] == asi[n]))
      && (forall n :: n in asi && n in EditedNames(rows) ==> n in o.store)
      && (forall n :: n in asi && n !in EditedNames(rows) && n !in DeletionTargets(asi, systemNames, rows) ==>
            n in o.store && o.store[n] == asi[n])
  {
    var settled := Validate(rows, env).rows;
    SettledNames(rows, env);
    var deleted := AfterDeletes(asi, systemNames, settled, env);
    var o := CommitEdits(asi, systemNames, settled, env);
    WriteFromKeepsKeys(deleted, settled, env, 0);
    forall n | n in asi && n !in EditedNames(rows)
      ensures (n in o.store <==> n in deleted) && (n in deleted ==> o.store[n] == asi[n])
    {
      WriteFromUntouched(deleted, settled, env, 0, n);
    }
  }

  /**
   * Committing a table checkAttributes accepted leaves the attributes of its
   * multidimensional rows as they were, and stores every scalar row, with
   * the value pass 3 normalised, whose write does not fail.
   */
  lemma CommitAcceptedWrites(asi: map<string, Value>, systemNames: set<string>, rows: seq<Row>, env: Env)
    requires Validate(rows, env).verdict == Accepted
    ensures var settled := Validate(rows, env).rows;
      var o := CommitEdits(asi, systemNames, settled, env);
      && (forall k :: 0 <= k < |rows| && rows[k].multidim ==>
            (rows[k].name in o.store <==> rows[k].name in asi) &&
            (rows[k].name in asi ==> o.store[rows[k].name] == asi[rows[k].name]))
      && (forall k :: 0 <= k < |rows| && !rows[k].multidim ==>
            var v := RowValue(settled[k], env).value;
            !env.writeFails(rows[k].name, v) ==> rows[k].name in o.store && o.store[rows[k].name] == v)
  {
    var settled := Validate(rows, env).rows;
    AcceptedIff(rows, env);
    AcceptedRowsBuild(rows, env);
    SettledNames(rows, env);
    var deleted := AfterDeletes(asi, systemNames, settled, env);
    var o := CommitEdits(asi, systemNames, settled, env);
    forall k | 0 <= k < |rows| && rows[k].multidim
      ensures (rows[k].name in o.store <==> rows[k].name in asi)
      ensures rows[k].name in asi ==> o.store[rows[k].name] == asi[rows[k].name]
    {
      WriteFromUntouched(deleted, settled, env, 0, rows[k].name);
    }
    forall k | 0 <= k < |rows| && !rows[k].multidim
      ensures var v := RowValue(settled[k], env).value;
        !env.writeFails(rows[k].name, v) ==> rows[k].name in o.store && o.store[rows[k].name] == v
    {
      WriteFromStoresRow(deleted, settled, env, 0, k);
    }
  }

  /**
   * Committing a table checkAttributes accepted leaves the attribute of a
   * scalar row whose write fails as it was before the commit: the row names
   * it, so it is not deleted, and no other row has its name.
   */
  lemma CommitAcceptedFailedWrites(asi: map<string, Value>, systemNames: set<string>, rows: seq<Row>, env: Env)
    requires Validate(rows, env).verdict == Accepted
    ensures var settled := Validate(rows, env).rows;
      var o := CommitEdits(asi, systemNames, settled, env);
      forall k :: 0 <= k < |rows| && !rows[k].multidim && env.writeFails(rows[k].name, RowValue(settled[k], env).value) ==>
        (rows[k].name in o.store <==> rows[k].name in asi) &&
        (rows[k].name in asi ==> o.store[rows[k].name] == asi[rows[k].name])
  {
    var settled := Validate(rows, env).rows;
    AcceptedIff(rows, env);
    AcceptedRowsBuild(rows, env);
    var deleted := AfterDeletes(asi, systemNames, settled, env);
    var o := CommitEdits(asi, systemNames, settled, env);
    forall k | 0 <= k < |rows| && !rows[k].multidim && env.writeFails(rows[k].name, RowValue(settled[k], env).value)
      ensures (rows[k].name in o.store <==> rows[k].name in asi)
      ensures rows[k].name in asi ==> o.store[rows[k].name] == asi[rows[k].name]
    {
      assert settled[k].name in EditedNames(settled);
      WriteFromStoresRow(deleted, settled, env, 0, k);
    }
  }

  /**
   * A node with attributes A, B and the system attribute TITLE, edited to
   * rows A and C with no title row: B is deleted, A is overwritten, C is
   * created and TITLE, not being a user attribute, stays.
   */
  lemma CommitExample(old_a: Value, b: Value, title: Value, env: Env)
    requires forall n :: !env.deleteFails(n)
    requires forall n, v :: !env.writeFails(n, v)
    requires env.coerce("int32", "5") == None && env.coerce("int32", "7") == None
    ensures var rows := [Row("A", "5", "int32", false), Row("C", "7", "int32", false)];
      CommitEdits(map["A" := old_a, "B" := b, "TITLE" := title], {"TITLE"}, rows, env)
        == Outcome(map["A" := Scalar("int32", "5"), "C" := Scalar("int32", "7"), "TITLE" := title], [], None)
  {
    var rows := [Row("A", "5", "int32", false), Row("C", "7", "int32", false)];
    var asi := map["A" := old_a, "B" := b, "TITLE" := title];
    assert rows[0].name == "A" && rows[1].name == "C";
    assert "B" !in EditedNames(rows);
    assert UserNames(asi, {"TITLE"}) == {"A", "B"};
    assert AfterDeletes(asi, {"TITLE"}, rows, env) == map["A" := old_a, "TITLE" := title];
  }
}
