// The store seen from outside: an ordered map from names to a color and a list of readings.

module Catalogs {
  import opened Options
  import opened Wire
  import opened DataModel
  import Times
  import opened Store

  datatype Entry = Entry(color: Bytes, readings: seq<Stored>)

  // `order` lists the names in the order in which they were added.
  datatype Catalog = Catalog(created: bool, order: seq<Bytes>, entries: map<Bytes, Entry>)

  const NO_CATALOG := Catalog(false, [], map[])

  ghost predicate WellFormed(c: Catalog) {
    && (forall name :: name in c.order <==> name in c.entries)
    && (forall i, j :: 0 <= i < j < |c.order| ==> c.order[i] != c.order[j])
    && (!c.created ==> c == NO_CATALOG)
  }

  function CreateCatalog(c: Catalog): (Catalog, Err) {
    if c.created then (c, Failed) else (c.(created := true), Ok)
  }

  function Add(c: Catalog, name: Bytes, color: Bytes): (Catalog, Err) {
    if !c.created || CStr(name) in c.entries then (c, Failed)
    else (c.(order := c.order + [CStr(name)], entries := c.entries[CStr(name) := Entry(CStr(color), [])]), Ok)
  }

  function Record(c: Catalog, name: Bytes, val: real, now: I64): (Catalog, Err) {
    if !c.created || CStr(name) !in c.entries then (c, Failed)
    else
      var e := c.entries[CStr(name)];
      (c.(entries := c.entries[CStr(name) := e.(readings := e.readings + [Stored(val, now)])]), Ok)
  }

  function ListFrom(order: seq<Bytes>, entries: map<Bytes, Entry>): (vs: seq<Variable>)
    requires forall name :: name in order ==> name in entries
    ensures |vs| == |order|
    ensures forall i :: 0 <= i < |order| ==> vs[i] == Variable(order[i], entries[order[i]].color)
  {
    if order == [] then [] else [Variable(order[0], entries[order[0]].color)] + ListFrom(order[1..], entries)
  }

  ghost function List(c: Catalog): (seq<Variable>, Err)
    requires WellFormed(c)
  {
    if c.created then (ListFrom(c.order, c.entries), Ok) else ([], Failed)
  }

  function Within(rows: seq<Stored>, range: Range): seq<Stored> {
    if rows == [] then []
    else
      var last := rows[|rows| - 1];
      Within(rows[..|rows| - 1], range) + if InRange(range, last.timestamp) then [last] else []
  }

  function Lookup(c: Catalog, name: Bytes, range: Range): (seq<Reading>, Err) {
    if !c.created then ([], Failed)
    else if CStr(name) !in c.entries then ([], Ok)
    else (AsReadings(Within(c.entries[CStr(name)].readings, range)), Ok)
  }

  function CountIn(c: Catalog, name: Bytes, range: Range): (nat, Err) {
    (|Lookup(c, name, range).0|, Lookup(c, name, range).1)
  }

  // ---------- Abstraction ----------

  ghost function Names(t: Tables): set<Bytes> {
    set i | 0 <= i < |t.variables| :: t.variables[i].name
  }

  lemma NamedRow(t: Tables, name: Bytes)
    ensures name in Names(t) <==> FindRow(t.variables, name) < |t.variables|
  {
    var i := FindRow(t.variables, name);
    if i < |t.variables| {
      assert t.variables[i].name in Names(t);
    }
  }

  ghost function EntryOf(t: Tables, name: Bytes): Entry
    requires name in Names(t)
  {
    NamedRow(t, name);
    var row := t.variables[FindRow(t.variables, name)];
    Entry(row.color, Select(t.values, Some(row.id), Always))
  }

  function NamesInOrder(rows: seq<VariableRow>): (names: seq<Bytes>)
    ensures |names| == |rows|
    ensures forall i :: 0 <= i < |rows| ==> names[i] == rows[i].name
  {
    seq(|rows|, i requires 0 <= i < |rows| => rows[i].name)
  }

  ghost function Abstract(t: Tables): Catalog {
    Catalog(t.created, NamesInOrder(t.variables), map name | name in Names(t) :: EntryOf(t, name))
  }

  lemma AbstractIsWellFormed(t: Tables)
    requires Valid(t)
    ensures WellFormed(Abstract(t))
  {
    var order := NamesInOrder(t.variables);
    forall name
      ensures name in order <==> name in Names(t)
    {
      if name in order {
        var i :| 0 <= i < |order| && order[i] == name;
        assert t.variables[i].name == name;
      }
      if name in Names(t) {
        var i :| 0 <= i < |t.variables| && t.variables[i].name == name;
        assert order[i] == name;
      }
    }
  }

  // ---------- Each statement does on the tables what it should do on the catalog ----------

  lemma {:induction false} NoRowsOfNewId(rows: seq<ValueRow>, id: nat, range: Range)
    requires forall k :: 0 <= k < |rows| ==> rows[k].variableId != id
    ensures Select(rows, Some(id), range) == []
  {
    if rows != [] {
      NoRowsOfNewId(rows[..|rows| - 1], id, range);
    }
  }

  /** FindRow finds the only row with a name. */
  lemma FoundAt(rows: seq<VariableRow>, name: Bytes, i: nat)
    requires i < |rows| && rows[i].name == name && forall j :: 0 <= j < i ==> rows[j].name != name
    ensures FindRow(rows, name) == i
  {
  }

  lemma FindAfterInsert(rows: seq<VariableRow>, row: VariableRow, name: Bytes)
    requires FindRow(rows, row.name) == |rows|
    ensures name == row.name ==> FindRow(rows + [row], name) == |rows|
    ensures name != row.name && FindRow(rows, name) < |rows| ==> FindRow(rows + [row], name) == FindRow(rows, name)
  {
    if name == row.name {
      FoundAt(rows + [row], name, |rows|);
    } else if FindRow(rows, name) < |rows| {
      FoundAt(rows + [row], name, FindRow(rows, name));
    }
  }

  lemma NamesAfterInsert(t: Tables, t': Tables, row: VariableRow)
    requires t'.variables == t.variables + [row]
    ensures Names(t') == Names(t) + {row.name}
    ensures NamesInOrder(t'.variables) == NamesInOrder(t.variables) + [row.name]
  {
    assert forall i :: 0 <= i < |t.variables| ==> t'.variables[i] == t.variables[i];
    assert t'.variables[|t.variables|] == row;
  }

  lemma EntryAfterInsert(t: Tables, t': Tables, row: VariableRow, name: Bytes)
    requires Valid(t) && t.variableSeq < row.id && FindRow(t.variables, row.name) == |t.variables|
    requires t'.variables == t.variables + [row] && t'.values == t.values
    requires name in Names(t')
    ensures name == row.name ==> EntryOf(t', name) == Entry(row.color, [])
    ensures name != row.name ==> name in Names(t) && EntryOf(t', name) == EntryOf(t, name)
  {
    NamesAfterInsert(t, t', row);
    FindAfterInsert(t.variables, row, name);
    if name == row.name {
      forall k | 0 <= k < |t.values|
        ensures t.values[k].variableId != row.id
      {
        assert Resolves(t.variables, t.values[k].variableId);
      }
      NoRowsOfNewId(t.values, row.id, Always);
    } else {
      NamedRow(t, name);
    }
  }

  /** When a catalog is the abstraction of some tables. */
  lemma AbstractIs(t: Tables, c: Catalog)
    requires c.created == t.created && c.order == NamesInOrder(t.variables)
    requires c.entries.Keys == Names(t) && forall n :: n in Names(t) ==> c.entries[n] == EntryOf(t, n)
    ensures Abstract(t) == c
  {
    assert Abstract(t).entries == c.entries;
  }

  lemma AddVariableRefines(t: Tables, name: Bytes, color: Bytes)
    requires Valid(t)
    ensures Abstract(AddVariable(t, name, color).0) == Add(Abstract(t), name, color).0
    ensures AddVariable(t, name, color).1 == Add(Abstract(t), name, color).1
  {
    NamedRow(t, CStr(name));
    var (t', err) := AddVariable(t, name, color);
    if err == Ok {
      var row := VariableRow(t.variableSeq + 1, CStr(name), CStr(color));
      NamesAfterInsert(t, t', row);
      var c' := Add(Abstract(t), name, color).0;
      forall n | n in Names(t')
        ensures EntryOf(t', n) == c'.entries[n]
      {
        EntryAfterInsert(t, t', row, n);
      }
      AbstractIs(t', c');
    }
  }

  lemma SameId(t: Tables, a: Bytes, b: Bytes)
    requires Valid(t) && FindRow(t.variables, a) < |t.variables| && FindRow(t.variables, b) < |t.variables|
    requires t.variables[FindRow(t.variables, a)].id == t.variables[FindRow(t.variables, b)].id
    ensures a == b
  {
  }

  lemma SelectAfterInsert(rows: seq<ValueRow>, row: ValueRow, id: nat)
    ensures Select(rows + [row], Some(id), Always)
         == Select(rows, Some(id), Always) + if row.variableId == id then [Stored(row.val, row.timestamp)] else []
  {
    assert (rows + [row])[..|rows|] == rows;
  }

  lemma EntryAfterRecord(t: Tables, t': Tables, name: Bytes, row: ValueRow, n: Bytes)
    requires Valid(t) && IdOf(t, name) == Some(row.variableId)
    requires t'.variables == t.variables && t'.values == t.values + [row]
    requires n in Names(t)
    ensures EntryOf(t', n).color == EntryOf(t, n).color
    ensures EntryOf(t', n).readings
         == EntryOf(t, n).readings + if n == CStr(name) then [Stored(row.val, row.timestamp)] else []
  {
    NamedRow(t, n);
    var id := t.variables[FindRow(t.variables, n)].id;
    SelectAfterInsert(t.values, row, id);
    if n != CStr(name) && id == row.variableId {
      SameId(t, n, CStr(name));
    }
  }

  lemma EntriesAfterRecord(t: Tables, t': Tables, name: Bytes, row: ValueRow, n: Bytes)
    requires Valid(t) && IdOf(t, name) == Some(row.variableId) && CStr(name) in Names(t)
    requires t'.variables == t.variables && t'.values == t.values + [row]
    requires n in Names(t)
    ensures n in Names(t')
    ensures EntryOf(t', n)
         == if n == CStr(name)
            then Entry(EntryOf(t, n).color, EntryOf(t, n).readings + [Stored(row.val, row.timestamp)])
            else EntryOf(t, n)
  {
    assert Names(t') == Names(t);
    EntryAfterRecord(t, t', name, row, n);
  }

  lemma RecordedEntry(t: Tables, t': Tables, name: Bytes, row: ValueRow, c': Catalog, n: Bytes)
    requires Valid(t) && t.created && IdOf(t, name) == Some(row.variableId) && CStr(name) in Names(t)
    requires t'.variables == t.variables && t'.values == t.values + [row]
    requires c' == Record(Abstract(t), name, row.val, row.timestamp).0
    requires n in Names(t)
    ensures n in Names(t') && n in c'.entries && EntryOf(t', n) == c'.entries[n]
  {
    EntriesAfterRecord(t, t', name, row, n);
  }

  lemma RecordRefines(t: Tables, t': Tables, name: Bytes, row: ValueRow, c': Catalog)
    requires Valid(t) && t.created && IdOf(t, name) == Some(row.variableId)
    requires t' == t.(values := t.values + [row], valueSeq := row.id)
    requires c' == Record(Abstract(t), name, row.val, row.timestamp).0
    ensures Abstract(t') == c'
  {
    NamedRow(t, CStr(name));
    assert Names(t') == Names(t) == c'.entries.Keys;
    forall n | n in Names(t)
      ensures n in Names(t') && n in c'.entries && EntryOf(t', n) == c'.entries[n]
    {
      RecordedEntry(t, t', name, row, c', n);
    }
    AbstractIs(t', c');
  }

  lemma AddValueRefines(t: Tables, name: Bytes, val: real, now: I64)
    requires Valid(t)
    ensures Abstract(AddVariableValue(t, name, val, now).0) == Record(Abstract(t), name, val, now).0
    ensures AddVariableValue(t, name, val, now).1 == Record(Abstract(t), name, val, now).1
  {
    NamedRow(t, CStr(name));
    if t.created && IdOf(t, name).Some? {
      RecordRefines(t, AddVariableValue(t, name, val, now).0, name,
                    ValueRow(t.valueSeq + 1, val, now, IdOf(t, name).value), Record(Abstract(t), name, val, now).0);
    }
  }

  lemma SelectMore(rows: seq<ValueRow>, row: ValueRow, id: Option<nat>, range: Range)
    ensures Select(rows + [row], id, range)
         == Select(rows, id, range) + if Matches(row, id, range) then [Stored(row.val, row.timestamp)] else []
  {
    assert (rows + [row])[..|rows|] == rows;
  }

  lemma ReadMore(rows: seq<Stored>, x: Stored)
    ensures AsReadings(rows + [x]) == AsReadings(rows) + [AsReading(x)]
  {
    assert (rows + [x])[..|rows|] == rows;
  }

  lemma ReadingsOfMore(rows: seq<ValueRow>, row: ValueRow, id: Option<nat>, range: Range)
    ensures AsReadings(Select(rows + [row], id, range))
         == AsReadings(Select(rows, id, range))
            + if Matches(row, id, range)
              then [Reading([], row.val, if row.timestamp < 0 then row.timestamp + TWO_TO_64 else row.timestamp)]
              else []
  {
    SelectMore(rows, row, id, range);
    if Matches(row, id, range) {
      ReadMore(Select(rows, id, range), Stored(row.val, row.timestamp));
    } else {
      assert Select(rows, id, range) + [] == Select(rows, id, range);
    }
  }

  lemma SameIdMeansSameName(t: Tables, name: Bytes, other: Bytes)
    requires Valid(t) && IdOf(t, name).Some?
    ensures IdOf(t, other) == IdOf(t, name) <==> CStr(other) == CStr(name)
  {
    if IdOf(t, other) == IdOf(t, name) {
      SameId(t, CStr(other), CStr(name));
    }
  }

  /** A saved value is fetched, behind the values that were there, with the time at which it was saved,
      by its name and in every range with that time; nothing else changes for any name. */
  lemma SavedValueIsFetched(t: Tables, name: Bytes, val: real, now: I64, other: Bytes, range: Range)
    requires Valid(t) && AddVariableValue(t, name, val, now).1 == Ok
    ensures FetchValues(AddVariableValue(t, name, val, now).0, other, range).0
         == FetchValues(t, other, range).0
            + if CStr(other) == CStr(name)
                 && (range.Between? ==> Times.ToMillis(range.start) <= now <= Times.ToMillis(range.end))
              then [Reading([], val, if now < 0 then now + TWO_TO_64 else now)] else []
  {
    var row := ValueRow(t.valueSeq + 1, val, now, IdOf(t, name).value);
    assert AddVariableValue(t, name, val, now).0 == t.(values := t.values + [row], valueSeq := row.id);
    SameIdMeansSameName(t, name, other);
    ReadingsOfMore(t.values, row, IdOf(t, other), range);
  }

  lemma ListedAs(t: Tables, i: nat)
    requires Valid(t) && i < |t.variables|
    ensures t.variables[i].name in Names(t)
    ensures EntryOf(t, t.variables[i].name).color == t.variables[i].color
  {
    FoundAt(t.variables, t.variables[i].name, i);
  }

  lemma SameVariable(t: Tables, c: Catalog, i: nat)
    requires Valid(t) && c == Abstract(t) && WellFormed(c) && i < |t.variables|
    ensures i < |c.order| && c.order[i] in c.entries
    ensures Variable(c.order[i], c.entries[c.order[i]].color) == Variable(t.variables[i].name, t.variables[i].color)
  {
    ListedAs(t, i);
  }

  lemma SameSequence(a: seq<Variable>, b: seq<Variable>)
    requires |a| == |b| && forall i :: 0 <= i < |a| ==> a[i] == b[i]
    ensures a == b
  {
  }

  lemma FetchVariablesRefines(t: Tables)
    requires Valid(t)
    ensures WellFormed(Abstract(t)) && FetchVariables(t) == List(Abstract(t))
  {
    AbstractIsWellFormed(t);
    var c := Abstract(t);
    var vs, list := VariablesOf(t.variables), ListFrom(c.order, c.entries);
    assert |c.order| == |t.variables|;
    forall i | 0 <= i < |vs|
      ensures vs[i] == list[i]
    {
      SameVariable(t, c, i);
    }
    SameSequence(vs, list);
  }

  /** A range query keeps a reading exactly when it lies between the bounds, both included. */
  lemma WithinOne(x: Stored, range: Range)
    ensures Within([x], range)
         == if range.Between? && !(Times.ToMillis(range.start) <= x.timestamp <= Times.ToMillis(range.end))
            then [] else [x]
  {
    assert [x][..0] == [];
  }

  /** It looks at every reading by itself, and keeps their order. */
  lemma {:induction false} WithinConcat(rows: seq<Stored>, more: seq<Stored>, range: Range)
    ensures Within(rows + more, range) == Within(rows, range) + Within(more, range)
  {
    if more == [] {
      assert rows + more == rows;
    } else {
      var last := |more| - 1;
      assert (rows + more)[..|rows + more| - 1] == rows + more[..last];
      WithinConcat(rows, more[..last], range);
    }
  }

  lemma {:induction false} SelectThenFilter(rows: seq<ValueRow>, id: nat, range: Range)
    ensures Select(rows, Some(id), range) == Within(Select(rows, Some(id), Always), range)
  {
    if rows != [] {
      var last := rows[|rows| - 1];
      SelectThenFilter(rows[..|rows| - 1], id, range);
      var x := Stored(last.val, last.timestamp);
      WithinConcat(Select(rows[..|rows| - 1], Some(id), Always), if last.variableId == id then [x] else [], range);
      WithinOne(x, range);
    }
  }

  lemma {:induction false} NullSelectsNothing(rows: seq<ValueRow>, range: Range)
    ensures Select(rows, None, range) == []
  {
    if rows != [] {
      NullSelectsNothing(rows[..|rows| - 1], range);
    }
  }

  lemma FetchValuesRefines(t: Tables, name: Bytes, range: Range)
    requires Valid(t)
    ensures FetchValues(t, name, range) == Lookup(Abstract(t), name, range)
  {
    NamedRow(t, CStr(name));
    match IdOf(t, name)
    case None => NullSelectsNothing(t.values, range);
    case Some(id) => SelectThenFilter(t.values, id, range);
  }

  /** What the map answers: the readings of the name within the range, in order, with their values and
      their timestamps as unsigned numbers, without a name. */
  lemma LookupReads(c: Catalog, name: Bytes, range: Range, k: nat)
    requires c.created && CStr(name) in c.entries && k < |Lookup(c, name, range).0|
    ensures var kept := Within(c.entries[CStr(name)].readings, range);
            && |kept| == |Lookup(c, name, range).0|
            && Lookup(c, name, range).0[k]
            == Reading([], kept[k].val,
                       if kept[k].timestamp < 0 then kept[k].timestamp + TWO_TO_64 else kept[k].timestamp)
  {
  }

  lemma CountRefines(t: Tables, name: Bytes, range: Range)
    requires Valid(t)
    ensures CountValues(t, name, range) == CountIn(Abstract(t), name, range)
  {
    FetchValuesRefines(t, name, range);
    CountIsNumberSelected(t.values, IdOf(t, name), range);
  }

  // ---------- Whole histories ----------

  datatype Statement =
    | Create
    | InsertVariable(name: Bytes, color: Bytes)
    | InsertValue(name: Bytes, val: real, now: I64)
    | SelectVariables
    | SelectValues(name: Bytes, range: Range)
    | CountOf(name: Bytes, range: Range)

  datatype Answer =
    | Status(err: Err)
    | Variables(variables: seq<Variable>, err: Err)
    | Values(values: seq<Reading>, err: Err)
    | Number(count: nat, err: Err)

  ghost function Execute(t: Tables, s: Statement): (Tables, Answer) {
    match s
    case Create => var (t', err) := CreateScheme(t); (t', Status(err))
    case InsertVariable(name, color) => var (t', err) := AddVariable(t, name, color); (t', Status(err))
    case InsertValue(name, val, now) => var (t', err) := AddVariableValue(t, name, val, now); (t', Status(err))
    case SelectVariables => var (vs, err) := FetchVariables(t); (t, Variables(vs, err))
    case SelectValues(name, range) => var (vs, err) := FetchValues(t, name, range); (t, Values(vs, err))
    case CountOf(name, range) => var (n, err) := CountValues(t, name, range); (t, Number(n, err))
  }

  ghost function Specify(c: Catalog, s: Statement): (Catalog, Answer)
    requires WellFormed(c)
  {
    match s
    case Create => var (c', err) := CreateCatalog(c); (c', Status(err))
    case InsertVariable(name, color) => var (c', err) := Add(c, name, color); (c', Status(err))
    case InsertValue(name, val, now) => var (c', err) := Record(c, name, val, now); (c', Status(err))
    case SelectVariables => var (vs, err) := List(c); (c, Variables(vs, err))
    case SelectValues(name, range) => var (vs, err) := Lookup(c, name, range); (c, Values(vs, err))
    case CountOf(name, range) => var (n, err) := CountIn(c, name, range); (c, Number(n, err))
  }

  lemma SpecifyKeepsWellFormed(c: Catalog, s: Statement)
    requires WellFormed(c)
    ensures WellFormed(Specify(c, s).0)
  {
  }

  lemma QueryRefines(t: Tables, s: Statement)
    requires Valid(t) && WellFormed(Abstract(t))
    requires s.SelectVariables? || s.SelectValues? || s.CountOf?
    ensures Execute(t, s).0 == t && Specify(Abstract(t), s).0 == Abstract(t)
    ensures Execute(t, s).1 == Specify(Abstract(t), s).1
  {
    match s
    case SelectVariables => FetchVariablesRefines(t);
    case SelectValues(name, range) => FetchValuesRefines(t, name, range);
    case CountOf(name, range) => CountRefines(t, name, range);
  }

  lemma UpdateRefines(t: Tables, s: Statement)
    requires Valid(t) && WellFormed(Abstract(t))
    requires s.Create? || s.InsertVariable? || s.InsertValue?
    ensures Abstract(Execute(t, s).0) == Specify(Abstract(t), s).0
    ensures Execute(t, s).1 == Specify(Abstract(t), s).1
  {
    match s
    case Create => assert Names(Execute(t, s).0) == Names(t);
    case InsertVariable(name, color) => AddVariableRefines(t, name, color);
    case InsertValue(name, val, now) => AddValueRefines(t, name, val, now);
  }

  lemma ExecuteKeepsValid(t: Tables, s: Statement)
    requires Valid(t)
    ensures Valid(Execute(t, s).0) && Extends(t, Execute(t, s).0)
  {
    match s
    case InsertVariable(name, color) => AddVariableKeepsValid(t, name, color);
    case InsertValue(name, val, now) => AddValueKeepsValid(t, name, val, now);
    case _ =>
  }

  /** One statement does on the tables what its specification does on the catalog. */
  lemma ExecuteRefines(t: Tables, s: Statement)
    requires Valid(t)
    ensures Valid(Execute(t, s).0) && WellFormed(Abstract(t)) && Extends(t, Execute(t, s).0)
    ensures Abstract(Execute(t, s).0) == Specify(Abstract(t), s).0
    ensures Execute(t, s).1 == Specify(Abstract(t), s).1
  {
    AbstractIsWellFormed(t);
    ExecuteKeepsValid(t, s);
    if s.Create? || s.InsertVariable? || s.InsertValue? {
      UpdateRefines(t, s);
    } else {
      QueryRefines(t, s);
    }
  }

  /** The tables and the answers after a history of statements. */
  ghost function ExecuteAll(t: Tables, history: seq<Statement>): (Tables, seq<Answer>) {
    if history == [] then (t, [])
    else
      var (before, answers) := ExecuteAll(t, history[..|history| - 1]);
      var (after, answer) := Execute(before, history[|history| - 1]);
      (after, answers + [answer])
  }

  /** The catalog and the answers after the same history. */
  ghost function SpecifyAll(history: seq<Statement>): (r: (Catalog, seq<Answer>))
    ensures WellFormed(r.0)
  {
    if history == [] then (NO_CATALOG, [])
    else
      var (before, answers) := SpecifyAll(history[..|history| - 1]);
      SpecifyKeepsWellFormed(before, history[|history| - 1]);
      var (after, answer) := Specify(before, history[|history| - 1]);
      (after, answers + [answer])
  }

  /** From no tables at all, any history of statements leaves valid tables, and neither the tables
      nor any answer can be told from those of a plain ordered map. */
  lemma {:induction false} StoreIsAnOrderedMap(history: seq<Statement>)
    ensures Valid(ExecuteAll(NO_TABLES, history).0)
    ensures Abstract(ExecuteAll(NO_TABLES, history).0) == SpecifyAll(history).0
    ensures ExecuteAll(NO_TABLES, history).1 == SpecifyAll(history).1
  {
    if history == [] {
      assert Names(NO_TABLES) == {};
      assert Abstract(NO_TABLES) == NO_CATALOG;
    } else {
      var before := history[..|history| - 1];
      StoreIsAnOrderedMap(before);
      ExecuteRefines(ExecuteAll(NO_TABLES, before).0, history[|history| - 1]);
    }
  }

  /** Rows are never deleted, so the ids are 1, 2, 3, ... in both tables. */
  ghost predicate Numbered(t: Tables) {
    && t.variableSeq == |t.variables| && t.valueSeq == |t.values|
    && (forall i :: 0 <= i < |t.variables| ==> t.variables[i].id == i + 1)
    && (forall i :: 0 <= i < |t.values| ==> t.values[i].id == i + 1)
  }

  lemma {:induction false} RowsAreNumbered(history: seq<Statement>)
    ensures Numbered(ExecuteAll(NO_TABLES, history).0)
  {
    if history != [] {
      RowsAreNumbered(history[..|history| - 1]);
    }
  }

  /** With a second variable, the fetch of all variables gives it the index 0 and not its own. */
  lemma SecondVariableHasIndex0(first: Statement, second: Statement)
    requires first.InsertVariable? && second.InsertVariable? && CStr(first.name) != CStr(second.name)
    ensures VariableCalls(ExecuteAll(NO_TABLES, [Create, first, second]).0)
         == [(Variable(CStr(first.name), CStr(first.color)), 0), (Variable(CStr(second.name), CStr(second.color)), 0)]
  {
    var history := [Create, first, second];
    assert history[..2] == [Create, first] && history[..2][..1] == [Create] && [Create][..0] == [];
    var t0 := ExecuteAll(NO_TABLES, [Create]).0;
    var t1 := ExecuteAll(NO_TABLES, [Create, first]).0;
    assert t1 == AddVariable(t0, first.name, first.color).0;
    assert t1.variables == [VariableRow(1, CStr(first.name), CStr(first.color))];
    FindNothing(t1.variables, CStr(second.name));
  }

  lemma FindNothing(rows: seq<VariableRow>, name: Bytes)
    requires forall i :: 0 <= i < |rows| ==> rows[i].name != name
    ensures FindRow(rows, name) == |rows|
  {
  }
}
