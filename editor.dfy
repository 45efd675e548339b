/**
 * The AttrEditor class: it copies the Properties dialog's table into
 * `edited_attrs`, checks it in place (checkAttributes) and commits it to the
 * node's attribute set (setAttributes). Each method is proved against the
 * function that specifies it in module Validation or Commit.
 */
module Editor {
  import opened Python
  import opened AttrModel
  import opened Validation
  import opened Commit

  class AttrEditor {
    /** The node's attribute set, `asi`, by attribute name. */
    var asi: map<string, Value>
    /** The names the attribute set treats as system attributes (TITLE, CLASS, ...). */
    const systemNames: set<string>
    /**
     * `edited_attrs`. The dict is keyed by the table rows 0..n-1, plus n for
     * the TITLE row, and such a dict of small integers iterates its keys in
     * ascending order, so a sequence indexed by row stands for it.
     */
    var editedAttrs: seq<Row>

    /**
     * Reads the table row by row, marking the rows whose name cell is not
     * editable as multidimensional, and appends a TITLE row when a title is
     * given.
     */
    constructor (asi: map<string, Value>, systemNames: set<string>, title: Option<string>, table: seq<TableRow>)
      ensures this.asi == asi && this.systemNames == systemNames
      ensures |editedAttrs| == |table| + (if title.Some? then 1 else 0)
      ensures forall k :: 0 <= k < |table| ==>
        editedAttrs[k] == Row(table[k].name, table[k].value, table[k].dtype, !table[k].editable)
      ensures title.Some? ==> editedAttrs[|table|] == Row("TITLE", title.value, "string", false)
    {
      this.asi := asi;
      this.systemNames := systemNames;
      var attrs: seq<Row> := [];
      var row := 0;
      while row < |table|
        invariant 0 <= row <= |table|
        invariant |attrs| == row
        invariant forall k :: 0 <= k < row ==>
          attrs[k] == Row(table[k].name, table[k].value, table[k].dtype, !table[k].editable)
      {
        var item := table[row];
        var multidim := !item.editable;
        attrs := attrs + [Row(item.name, item.value, item.dtype, multidim)];
        row := row + 1;
      }
      if title.Some? {
        attrs := attrs + [Row("TITLE", title.value, "string", false)];
      }
      editedAttrs := attrs;
    }

    /**
     * checkAttributes: the three passes over the rows, in order, ending at the
     * first failure; pass 3 overwrites each row it accepts with its
     * normalised value.
     */
    method CheckAttributes(env: Env) returns (verdict: Verdict)
      modifies this`editedAttrs
      ensures verdict == Validate(old(editedAttrs), env).verdict
      ensures editedAttrs == Validate(old(editedAttrs), env).rows
    {
      var empty := FirstEmptyRow();
      if empty.Some? {
        return Rejected(EmptyName(empty.value + 1));  // rows are numbered from 1
      }
      var repeat := FirstRepeatedRow();
      if repeat.Some? {
        return Rejected(Repeated(editedAttrs[repeat.value].name));
      }
      verdict := SettleRows(env);
    }

    /** Pass 1 of checkAttributes: the first row whose name is empty. */
    method FirstEmptyRow() returns (found: Option<nat>)
      ensures found == FindEmptyName(editedAttrs, 0)
    {
      var row := 0;
      while row < |editedAttrs|
        invariant 0 <= row <= |editedAttrs|
        invariant FindEmptyName(editedAttrs, row) == FindEmptyName(editedAttrs, 0)
      {
        if editedAttrs[row].name == "" {
          return Some(row);
        }
        row := row + 1;
      }
      return None;
    }

    /**
     * Pass 2 of checkAttributes: the first row whose name is already in
     * `names_list`, the names of the rows before it.
     */
    method FirstRepeatedRow() returns (found: Option<nat>)
      ensures found == FindRepeat(editedAttrs, 0)
    {
      var namesList: seq<string> := [];
      var row := 0;
      while row < |editedAttrs|
        invariant 0 <= row <= |editedAttrs|
        invariant namesList == Names(editedAttrs[..row])
        invariant DistinctUpTo(editedAttrs, row)
        invariant FindRepeat(editedAttrs, row) == FindRepeat(editedAttrs, 0)
      {
        var name := editedAttrs[row].name;
        if name in namesList {
          return Some(row);
        }
        namesList := namesList + [name];
        row := row + 1;
      }
      return None;
    }

    /**
     * Pass 3 of checkAttributes: checks each scalar row in turn, overwriting
     * it with its normalised value, and stops at the first row that fails.
     */
    method SettleRows(env: Env) returns (verdict: Verdict)
      modifies this`editedAttrs
      ensures var j := FirstFailing(old(editedAttrs), env, 0);
        && verdict == (if j == |old(editedAttrs)| then Accepted else CheckRow(old(editedAttrs)[j], env).verdict)
        && editedAttrs == SettledUpTo(old(editedAttrs), env, j)
    {
      ghost var rows := editedAttrs;
      var row := 0;
      while row < |editedAttrs|
        invariant 0 <= row <= |rows| == |editedAttrs|
        invariant FirstFailing(rows, env, row) == FirstFailing(rows, env, 0)
        invariant editedAttrs == SettledUpTo(rows, env, row)
      {
        var r := editedAttrs[row];
        assert r == rows[row];
        if r.multidim {
          row := row + 1;
          continue;
        }
        match CheckRow(r, env) {
          case Stop(failure) =>
            return failure;
          case Pass(value) =>
            // the row passed every test: its entry now holds the normalised value
            editedAttrs := editedAttrs[row := Row(r.name, value, r.dtype, r.multidim)];
        }
        row := row + 1;
      }
      return Accepted;
    }

    /**
     * The first half of setAttributes: deletes the user attributes no row
     * names and reports, once each, the deletions that fail. The order of
     * the deletions is that of a set and is left open.
     */
    method DeleteUnedited(env: Env) returns (reported: seq<StoreFailure>)
      modifies this`asi
      ensures asi == AfterDeletes(old(asi), systemNames, editedAttrs, env)
      ensures forall k :: 0 <= k < |reported| ==>
        reported[k].DeleteFailed? && reported[k].name in FailedDeletes(old(asi), systemNames, editedAttrs, env)
      ensures forall n :: n in FailedDeletes(old(asi), systemNames, editedAttrs, env) ==> DeleteFailed(n) in reported
      ensures forall i, j :: 0 <= i < j < |reported| ==> reported[i] != reported[j]
    {
      // `edited_attrs` is keyed by row numbers, so its has_key(u'TITLE') test
      // never holds and only the user attributes are candidates.
      var allAttrs := UserNames(asi, systemNames);
      var editedNames := EditedNames(editedAttrs);
      var remaining := allAttrs - editedNames;
      ghost var targets := remaining;
      ghost var before := asi;
      reported := [];
      while remaining != {}
        invariant remaining <= targets
        invariant forall n :: n in asi <==> n in before && (n in targets - remaining ==> env.deleteFails(n))
        invariant forall n :: n in asi ==> asi[n] == before[n]
        invariant forall k :: 0 <= k < |reported| ==>
          reported[k].DeleteFailed? && reported[k].name in targets - remaining && env.deleteFails(reported[k].name)
        invariant forall n :: n in targets - remaining && env.deleteFails(n) ==> DeleteFailed(n) in reported
        invariant forall i, j :: 0 <= i < j < |reported| ==> reported[i] != reported[j]
        decreases remaining
      {
        var attr :| attr in remaining;
        if env.deleteFails(attr) {
          reported := reported + [DeleteFailed(attr)];
        } else {
          asi := asi - {attr};
        }
        remaining := remaining - {attr};
      }
    }

    /**
     * The second half of setAttributes: writes every scalar row in row
     * order, reporting the writes that fail, until building a value raises.
     */
    method WriteRows(env: Env) returns (failures: seq<StoreFailure>, raised: Option<Exception>)
      modifies this`asi
      ensures var o := WriteFrom(old(asi), editedAttrs, env, 0);
        asi == o.store && failures == o.failures && raised == o.raised
    {
      failures := [];
      var row := 0;
      while row < |editedAttrs|
        invariant 0 <= row <= |editedAttrs|
        invariant var whole, rest := WriteFrom(old(asi), editedAttrs, env, 0), WriteFrom(asi, editedAttrs, env, row);
          && whole.store == rest.store
          && whole.raised == rest.raised
          && whole.failures == failures + rest.failures
      {
        var r := editedAttrs[row];
        if r.multidim {
          row := row + 1;
          continue;
        }
        var value: Value;
        if r.dtype == "python" {
          if !env.evaluates(r.value) {
            return failures, Some(OtherError);  // whatever eval raised escapes
          }
          value := PyObject(r.value);
        } else {
          var coerced := env.coerce(r.dtype, r.value);
          if coerced.Some? {
            return failures, coerced;
          }
          value := Scalar(r.dtype, r.value);
        }
        if env.writeFails(r.name, value) {
          failures := failures + [WriteFailed(r.name)];
        } else {
          asi := asi[r.name := value];
        }
        row := row + 1;
      }
      raised := None;
    }

    /**
     * setAttributes: the deletions, then the writes. `deletions` counts the
     * reports of the first phase.
     */
    method SetAttributes(env: Env) returns (reported: seq<StoreFailure>, raised: Option<Exception>, ghost deletions: nat)
      modifies this`asi
      ensures var o := CommitEdits(old(asi), systemNames, editedAttrs, env);
        asi == o.store && raised == o.raised
      ensures deletions <= |reported|
      ensures reported[deletions..] == CommitEdits(old(asi), systemNames, editedAttrs, env).failures
      ensures forall k :: 0 <= k < deletions ==>
        reported[k].DeleteFailed? && reported[k].name in FailedDeletes(old(asi), systemNames, editedAttrs, env)
      ensures forall n :: n in FailedDeletes(old(asi), systemNames, editedAttrs, env) ==>
        DeleteFailed(n) in reported[..deletions]
      ensures forall i, j :: 0 <= i < j < deletions ==> reported[i] != reported[j]
    {
      var deleteLog := DeleteUnedited(env);
      var writeLog;
      writeLog, raised := WriteRows(env);
      reported := deleteLog + writeLog;
      deletions := |deleteLog|;
      assert reported[..deletions] == deleteLog && reported[deletions..] == writeLog;
    }
  }
}
