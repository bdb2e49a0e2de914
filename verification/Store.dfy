// SQLiteWrapper: two tables, each statement modelled by its effect on them.

module Store {
  import opened Options
  import opened Wire
  import opened DataModel
  import opened Times

  datatype Err = Ok | Failed

  // ---------- The tables ----------

  datatype VariableRow = VariableRow(id: nat, name: Bytes, color: Bytes)
  datatype ValueRow = ValueRow(id: nat, val: real, timestamp: I64, variableId: nat)

  // The sequences are the largest IDs handed out so far (AUTOINCREMENT).
  datatype Tables = Tables(created: bool,
                           variables: seq<VariableRow>, variableSeq: nat,
                           values: seq<ValueRow>, valueSeq: nat)

  const NO_TABLES := Tables(false, [], 0, [], 0)

  /** A text argument is passed as a C string, so it ends before its first zero byte. */
  function CStr(s: Bytes): (c: Bytes)
    ensures c <= s && 0 !in c
    ensures c != s ==> s[|c|] == 0
  {
    if s == [] || s[0] == 0 then [] else [s[0]] + CStr(s[1..])
  }

  /** The row with the given name, or the number of rows if there is none. */
  function FindRow(rows: seq<VariableRow>, name: Bytes, from: nat := 0): (i: nat)
    requires from <= |rows|
    ensures from <= i <= |rows|
    ensures i < |rows| ==> rows[i].name == name
    ensures forall j :: from <= j < i ==> rows[j].name != name
    decreases |rows| - from
  {
    if from == |rows| || rows[from].name == name then from else FindRow(rows, name, from + 1)
  }

  /** The sub-select `SELECT ID FROM VARIABLE WHERE NAME = ...`; None is SQL's NULL. */
  function IdOf(t: Tables, name: Bytes): Option<nat> {
    var i := FindRow(t.variables, CStr(name));
    if i < |t.variables| then Some(t.variables[i].id) else None
  }

  datatype Range = Always | Between(start: TimePoint, end: TimePoint)

  predicate InRange(range: Range, timestamp: I64) {
    range.Between? ==> ToMillis(range.start) <= timestamp <= ToMillis(range.end)
  }

  /** The WHERE clause of the four queries on VARIABLE_VALUE; comparing with NULL is never true. */
  predicate Matches(row: ValueRow, id: Option<nat>, range: Range) {
    id == Some(row.variableId) && InRange(range, row.timestamp)
  }

  // The two columns of a reading that a query selects.
  datatype Stored = Stored(val: real, timestamp: I64)

  function Select(rows: seq<ValueRow>, id: Option<nat>, range: Range): seq<Stored> {
    if rows == [] then []
    else
      var last := rows[|rows| - 1];
      Select(rows[..|rows| - 1], id, range)
      + if Matches(last, id, range) then [Stored(last.val, last.timestamp)] else []
  }

  /** What a row callback makes of a selected row: the name stays empty, and the text of a negative
      timestamp is read into an unsigned number. */
  function AsReading(s: Stored): Reading {
    Reading([], s.val, ToUnsigned(s.timestamp))
  }

  function AsReadings(rows: seq<Stored>): (r: seq<Reading>)
    ensures |r| == |rows|
    ensures forall i :: 0 <= i < |rows| ==> r[i] == AsReading(rows[i])
  {
    if rows == [] then [] else AsReadings(rows[..|rows| - 1]) + [AsReading(rows[|rows| - 1])]
  }

  // ---------- The statements ----------

  function CreateScheme(t: Tables): (Tables, Err) {
    if t.created then (t, Failed) else (t.(created := true), Ok)
  }

  function AddVariable(t: Tables, name: Bytes, color: Bytes): (Tables, Err) {
    if !t.created || FindRow(t.variables, CStr(name)) < |t.variables| then (t, Failed)
    else (t.(variables := t.variables + [VariableRow(t.variableSeq + 1, CStr(name), CStr(color))],
             variableSeq := t.variableSeq + 1), Ok)
  }

  function AddVariableValue(t: Tables, name: Bytes, val: real, now: I64): (Tables, Err) {
    if !t.created || IdOf(t, name).None? then (t, Failed)
    else (t.(values := t.values + [ValueRow(t.valueSeq + 1, val, now, IdOf(t, name).value)],
             valueSeq := t.valueSeq + 1), Ok)
  }

  function VariablesOf(rows: seq<VariableRow>): (vs: seq<Variable>)
    ensures |vs| == |rows|
    ensures forall i :: 0 <= i < |rows| ==> vs[i] == Variable(rows[i].name, rows[i].color)
  {
    if rows == [] then []
    else
      var last := rows[|rows| - 1];
      VariablesOf(rows[..|rows| - 1]) + [Variable(last.name, last.color)]
  }

  function FetchVariables(t: Tables): (seq<Variable>, Err) {
    if t.created then (VariablesOf(t.variables), Ok) else ([], Failed)
  }

  function FetchValues(t: Tables, name: Bytes, range: Range): (seq<Reading>, Err) {
    if t.created then (AsReadings(Select(t.values, IdOf(t, name), range)), Ok) else ([], Failed)
  }

  /** The calls of `send_vale` by a fetch of all variables, in order: every one has index 0. */
  function VariableCalls(t: Tables): (calls: seq<(Variable, nat)>)
    ensures |calls| == |FetchVariables(t).0|
    ensures forall i :: 0 <= i < |calls| ==> calls[i].0 == FetchVariables(t).0[i]
  {
    var variables := FetchVariables(t).0;
    seq(|variables|, i requires 0 <= i < |variables| => (variables[i], 0))
  }

  /** The documented index, that of the variable, is given exactly when there are not two of them. */
  lemma CallsAreNumbered(t: Tables)
    requires t.created
    ensures (forall i :: 0 <= i < |VariableCalls(t)| ==> VariableCalls(t)[i].1 == i) <==> |t.variables| <= 1
  {
    if |t.variables| > 1 {
      assert VariableCalls(t)[1].1 == 0;
    }
  }

  /** The rows that a query counts, by position. */
  ghost function MatchingRows(rows: seq<ValueRow>, id: Option<nat>, range: Range): set<nat> {
    set i: nat | i < |rows| && Matches(rows[i], id, range)
  }

  ghost function CountValues(t: Tables, name: Bytes, range: Range): (nat, Err) {
    if t.created then (|MatchingRows(t.values, IdOf(t, name), range)|, Ok) else (0, Failed)
  }

  // ---------- What every statement keeps ----------

  /** A foreign key resolves: the id is that of a variable. */
  ghost predicate Resolves(variables: seq<VariableRow>, id: nat) {
    exists i :: 0 <= i < |variables| && variables[i].id == id
  }

  ghost predicate Valid(t: Tables) {
    && (!t.created ==> t == NO_TABLES)
    && (forall i :: 0 <= i < |t.variables| ==> 1 <= t.variables[i].id <= t.variableSeq)
    && (forall i, j :: 0 <= i < j < |t.variables| ==> t.variables[i].id < t.variables[j].id)
    && (forall i, j :: 0 <= i < j < |t.variables| ==> t.variables[i].name != t.variables[j].name)
    && (forall i :: 0 <= i < |t.values| ==> 1 <= t.values[i].id <= t.valueSeq)
    && (forall i, j :: 0 <= i < j < |t.values| ==> t.values[i].id < t.values[j].id)
    && (forall k :: 0 <= k < |t.values| ==> Resolves(t.variables, t.values[k].variableId))
  }

  /** The rows only grow, and a refused statement changes nothing. */
  ghost predicate Extends(t: Tables, t': Tables) {
    t.variables <= t'.variables && t.values <= t'.values && (t.created ==> t'.created)
  }

  lemma StillResolves(variables: seq<VariableRow>, more: seq<VariableRow>, id: nat)
    requires variables <= more && Resolves(variables, id)
    ensures Resolves(more, id)
  {
    var i :| 0 <= i < |variables| && variables[i].id == id;
    assert more[i].id == id;
  }

  lemma FoundResolves(t: Tables, name: Bytes)
    requires IdOf(t, name).Some?
    ensures Resolves(t.variables, IdOf(t, name).value)
  {
    assert t.variables[FindRow(t.variables, CStr(name))].id == IdOf(t, name).value;
  }

  lemma AddVariableKeepsValid(t: Tables, name: Bytes, color: Bytes)
    requires Valid(t)
    ensures var (t', err) := AddVariable(t, name, color);
            Valid(t') && Extends(t, t') && (err == Failed ==> t' == t)
  {
    var (t', err) := AddVariable(t, name, color);
    if err == Ok {
      forall k | 0 <= k < |t'.values|
        ensures Resolves(t'.variables, t'.values[k].variableId)
      {
        StillResolves(t.variables, t'.variables, t.values[k].variableId);
      }
    }
  }

  lemma ValueAppended(t: Tables, row: ValueRow)
    requires Valid(t) && t.created && row.id == t.valueSeq + 1 && Resolves(t.variables, row.variableId)
    ensures Valid(t.(values := t.values + [row], valueSeq := row.id))
  {
    var values := t.values + [row];
    forall k | 0 <= k < |values|
      ensures Resolves(t.variables, values[k].variableId) && 1 <= values[k].id <= row.id
      ensures k < |t.values| ==> values[k].id < row.id
    {
      assert k < |t.values| ==> values[k] == t.values[k];
    }
  }

  lemma AddValueKeepsValid(t: Tables, name: Bytes, val: real, now: I64)
    requires Valid(t)
    ensures var (t', err) := AddVariableValue(t, name, val, now);
            Valid(t') && Extends(t, t') && (err == Failed ==> t' == t)
  {
    var id := IdOf(t, name);
    if t.created && id.Some? {
      var row := ValueRow(t.valueSeq + 1, val, now, id.value);
      FoundResolves(t, name);
      ValueAppended(t, row);
      assert AddVariableValue(t, name, val, now) == (t.(values := t.values + [row], valueSeq := row.id), Ok);
    } else {
      assert AddVariableValue(t, name, val, now) == (t, Failed);
    }
  }

  // ---------- Counting agrees with fetching ----------

  /** A query selects as many rows as the matching COUNT(*) reports. */
  lemma {:induction false} CountIsNumberSelected(rows: seq<ValueRow>, id: Option<nat>, range: Range)
    ensures |Select(rows, id, range)| == |MatchingRows(rows, id, range)|
  {
    if rows == [] {
      assert MatchingRows(rows, id, range) == {};
    } else {
      var last := |rows| - 1;
      CountIsNumberSelected(rows[..last], id, range);
      LastRowMatches(rows, id, range);
    }
  }

  lemma LastRowMatches(rows: seq<ValueRow>, id: Option<nat>, range: Range)
    requires rows != []
    ensures MatchingRows(rows, id, range)
         == MatchingRows(rows[..|rows| - 1], id, range)
            + if Matches(rows[|rows| - 1], id, range) then {|rows| - 1} else {}
  {
    var last := |rows| - 1;
    forall i: nat | i < last
      ensures i in MatchingRows(rows, id, range) <==> i in MatchingRows(rows[..last], id, range)
    {
      assert rows[..last][i] == rows[i];
    }
  }

  lemma {:induction false} SelectedRow(rows: seq<ValueRow>, id: Option<nat>, range: Range, k: nat) returns (i: nat)
    requires k < |Select(rows, id, range)|
    ensures i < |rows| && Matches(rows[i], id, range) && |MatchingRows(rows[..i], id, range)| == k
    ensures Select(rows, id, range)[k] == Stored(rows[i].val, rows[i].timestamp)
  {
    var init := rows[..|rows| - 1];
    if k < |Select(init, id, range)| {
      i := SelectedRow(init, id, range, k);
      assert init[..i] == rows[..i];
    } else {
      i := |init|;
      CountIsNumberSelected(init, id, range);
    }
  }

  /** Fetched reading k is that of row i, which matches, with k matching rows before it: its value, and
      its timestamp as an unsigned number, without a name. */
  lemma FetchedReading(t: Tables, name: Bytes, range: Range, k: nat) returns (i: nat)
    requires k < |FetchValues(t, name, range).0|
    ensures i < |t.values| && |MatchingRows(t.values[..i], IdOf(t, name), range)| == k
    ensures IdOf(t, name) == Some(t.values[i].variableId)
    ensures range.Between? ==> ToMillis(range.start) <= t.values[i].timestamp <= ToMillis(range.end)
    ensures FetchValues(t, name, range).0[k]
         == Reading([], t.values[i].val,
                    if t.values[i].timestamp < 0 then t.values[i].timestamp + TWO_TO_64 else t.values[i].timestamp)
  {
    i := SelectedRow(t.values, IdOf(t, name), range, k);
  }

  /** The schema can be created once. */
  lemma SchemaOnlyOnce(t: Tables)
    ensures var (t', err) := CreateScheme(t);
            t'.created && (err == Ok <==> !t.created) && CreateScheme(t') == (t', Failed)
  {
  }

  /** Two adjoining ranges count, together, what the range that spans both counts. */
  lemma CountsAddUp(t: Tables, name: Bytes, a: TimePoint, b: TimePoint, b': TimePoint, c: TimePoint)
    requires ToMillis(b') == ToMillis(b) + 1
    requires ToMillis(a) <= ToMillis(b') && ToMillis(b) <= ToMillis(c)
    ensures CountValues(t, name, Between(a, b)).0 + CountValues(t, name, Between(b', c)).0
         == CountValues(t, name, Between(a, c)).0
  {
    var id := IdOf(t, name);
    var low, high := MatchingRows(t.values, id, Between(a, b)), MatchingRows(t.values, id, Between(b', c));
    assert low !! high;
    assert low + high == MatchingRows(t.values, id, Between(a, c));
  }

  // ---------- SQLiteWrapper ----------

  class SQLiteWrapper {
    var created: bool
    var variables: seq<VariableRow>
    var variableSeq: nat
    var values: seq<ValueRow>
    var valueSeq: nat

    ghost function Contents(): Tables
      reads this
    {
      Tables(created, variables, variableSeq, values, valueSeq)
    }

    constructor ()
      ensures Contents() == NO_TABLES
    {
      created, variables, variableSeq, values, valueSeq := false, [], 0, [], 0;
    }

    method CreateTables() returns (err: Err)
      modifies this
      ensures (Contents(), err) == CreateScheme(old(Contents()))
    {
      if created {
        return Failed;
      }
      created := true;
      err := Ok;
    }

    /** Looks a name up, as the UNIQUE constraint and the sub-selects do. */
    method Lookup(name: Bytes) returns (id: Option<nat>)
      ensures id == IdOf(Contents(), name)
    {
      var i := 0;
      while i < |variables|
        invariant 0 <= i <= |variables|
        invariant FindRow(variables, CStr(name)) == FindRow(variables, CStr(name), i)
      {
        if variables[i].name == CStr(name) {
          return Some(variables[i].id);
        }
        i := i + 1;
      }
      id := None;
    }

    method InsertVariable(variable: Variable) returns (err: Err)
      modifies this
      ensures (Contents(), err) == AddVariable(old(Contents()), variable.name, variable.color)
    {
      var id := Lookup(variable.name);
      if !created || id.Some? {
        return Failed;
      }
      variableSeq := variableSeq + 1;
      variables := variables + [VariableRow(variableSeq, CStr(variable.name), CStr(variable.color))];
      err := Ok;
    }

    /** The timestamp is the clock's and not the one in the reading. */
    method InsertValue(value: Reading, now: I64) returns (err: Err)
      modifies this
      ensures (Contents(), err) == AddVariableValue(old(Contents()), value.name, value.val, now)
    {
      var id := Lookup(value.name);
      if !created || id.None? {
        return Failed;
      }
      valueSeq := valueSeq + 1;
      values := values + [ValueRow(valueSeq, value.val, now, id.value)];
      err := Ok;
    }

    method SelectVariables() returns (calls: seq<(Variable, nat)>, err: Err)
      ensures err == FetchVariables(Contents()).1
      ensures calls == VariableCalls(Contents())
    {
      calls := [];
      if !created {
        return calls, Failed;
      }
      for i := 0 to |variables|
        invariant |calls| == i
        invariant forall k :: 0 <= k < i ==> calls[k] == (Variable(variables[k].name, variables[k].color), 0)
      {
        calls := calls + [(Variable(variables[i].name, variables[i].color), 0)];
      }
      assert calls == VariableCalls(Contents());
      err := Ok;
    }

    /** The bounds of a fetch query. */
    method Bounds(range: Range) returns (start: I64, end: I64)
      ensures range.Between? ==> start == ToMillis(range.start) && end == ToMillis(range.end)
    {
      start, end := 0, 0;
      if range.Between? {
        start, end := ToMillisTwice(range.start), ToMillisTwice(range.end);
        TwoCastsAreOne(range.start);
        TwoCastsAreOne(range.end);
      }
    }

    /** The calls of `send_vale`: one per matching row, in row order, numbered from 0. */
    method SelectValues(name: Bytes, range: Range) returns (calls: seq<(Reading, nat)>, err: Err)
      ensures err == FetchValues(Contents(), name, range).1
      ensures |calls| == |FetchValues(Contents(), name, range).0|
      ensures forall i :: 0 <= i < |calls| ==> calls[i] == (FetchValues(Contents(), name, range).0[i], i)
    {
      calls := [];
      if !created {
        return calls, Failed;
      }
      var start, end := Bounds(range);
      var id := Lookup(name);
      var index := 0;
      ghost var selected := [];
      for i := 0 to |values|
        invariant selected == Select(values[..i], id, range)
        invariant index == |calls| == |selected|
        invariant forall k :: 0 <= k < index ==> calls[k] == (AsReading(selected[k]), k)
      {
        var row := values[i];
        assert values[..i + 1][..i] == values[..i];
        var wanted := id == Some(row.variableId);
        if range.Between? {
          wanted := wanted && row.timestamp >= start && row.timestamp <= end;
        }
        if wanted {
          calls := calls + [(Reading([], row.val, ToUnsigned(row.timestamp)), index)];
          selected := selected + [Stored(row.val, row.timestamp)];
          index := index + 1;
        }
      }
      assert values[..|values|] == values;
      err := Ok;
    }

    /** COUNT(*): the argument of `send_count`. */
    method Count(name: Bytes, range: Range) returns (count: nat, err: Err)
      ensures (count, err) == CountValues(Contents(), name, range)
    {
      count := 0;
      if !created {
        return count, Failed;
      }
      var id := Lookup(name);
      ghost var counted: set<nat> := {};
      for i := 0 to |values|
        invariant counted == set k: nat | k < i && Matches(values[k], id, range)
        invariant count == |counted|
      {
        var row := values[i];
        var wanted := id == Some(row.variableId);
        if range.Between? {
          wanted := wanted && row.timestamp >= ToMillis(range.start) && row.timestamp <= ToMillis(range.end);
        }
        if wanted {
          count, counted := count + 1, counted + {i};
        }
      }
      err := Ok;
    }
  }
}
