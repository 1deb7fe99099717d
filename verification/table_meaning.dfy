/** What statements do to a table, and what the changes they were built from mean. */
module TableMeanings {
  import opened TextLines
  import opened TableEdits

  /** A row gives every column, by its quoted name, a value or NULL. */
  type Row = map<string, Option<string>>

  // ----- rows chosen by a condition -----

  function Keep(rows: seq<Row>, drop: Row -> bool): (kept: seq<Row>) {
    if rows == [] then []
    else Keep(rows[..|rows| - 1], drop) + (if drop(rows[|rows| - 1]) then [] else [rows[|rows| - 1]])
  }

  function Change(rows: seq<Row>, chosen: Row -> bool, change: Row -> Row): seq<Row> {
    seq(|rows|, i requires 0 <= i < |rows| => if chosen(rows[i]) then change(rows[i]) else rows[i])
  }

  function Count(rows: seq<Row>, chosen: Row -> bool): nat {
    if rows == [] then 0
    else Count(rows[..|rows| - 1], chosen) + if chosen(rows[|rows| - 1]) then 1 else 0
  }

  // ----- what a database does for a statement -----

  function Bound(params: Params, hole: nat): Option<string> {
    if 0 < hole <= |params| then params[hole - 1] else None
  }

  /** SQL equality is never true of NULL. */
  predicate Holds(equations: seq<Equation>, params: Params, row: Row) {
    forall e | e in equations :: e.name in row && Bound(params, e.hole).Some? && row[e.name] == Bound(params, e.hole)
  }

  function Assign(sets: seq<Equation>, params: Params, row: Row): Row {
    if sets == [] then row
    else
      var last := sets[|sets| - 1];
      Assign(sets[..|sets| - 1], params, row)[last.name := Bound(params, last.hole)]
  }

  function Inserted(names: seq<string>, holes: seq<nat>, params: Params, defaults: Row): Row
    requires |names| == |holes|
  {
    if names == [] then defaults
    else
      Inserted(names[..|names| - 1], holes[..|holes| - 1], params, defaults)
        [names[|names| - 1] := Bound(params, holes[|holes| - 1])]
  }

  predicate WellFormedStatement(statement: Statement) {
    statement.Insert? ==> |statement.names| == |statement.holes|
  }

  function Effect(statement: Statement, params: Params, rows: seq<Row>, defaults: Row): seq<Row>
    requires WellFormedStatement(statement)
  {
    match statement
    case Delete(_, where) => Keep(rows, row => Holds(where, params, row))
    case Update(_, sets, where) => Change(rows, row => Holds(where, params, row), row => Assign(sets, params, row))
    case Insert(_, names, holes) => rows + [Inserted(names, holes, params, defaults)]
    case InsertDefaults(_, _) => rows + [defaults]
  }

  /** MySQL connections count the rows that an update changes, the other engines the rows that it matches. */
  datatype Counting = MatchedRows | ChangedRows

  /** The number of affected rows that is reported for a statement. */
  function Affected(counting: Counting, statement: Statement, params: Params, rows: seq<Row>): nat {
    match statement
    case Delete(_, where) => Count(rows, row => Holds(where, params, row))
    case Update(_, sets, where) =>
      Count(rows, row => Holds(where, params, row) && (counting == ChangedRows ==> Assign(sets, params, row) != row))
    case _ => 1
  }

  // ----- what the changes mean -----

  /** The row has the values that the key gives for all key columns. */
  predicate Hits(meta: Meta, key: seq<Cell>, row: Row)
    requires WellFormed(meta) && ValidKey(meta, key)
  {
    forall c | c in meta.keys :: meta.columns[c] in row && row[meta.columns[c]] == KeyValue(key, c)
  }

  /** The value that the cells give for the column of a name. */
  function ValueFor(meta: Meta, values: seq<Cell>, name: string): Option<Option<string>>
    requires ValidValues(meta, values)
  {
    if values == [] then None
    else if meta.columns[values[|values| - 1].column] == name then Some(values[|values| - 1].value)
    else ValueFor(meta, values[..|values| - 1], name)
  }

  function NamesOf(meta: Meta, values: seq<Cell>): set<string>
    requires ValidValues(meta, values)
  {
    set i | 0 <= i < |values| :: meta.columns[values[i].column]
  }

  /** The row with the given cells, every other column as it was. */
  function Edited(meta: Meta, values: seq<Cell>, row: Row): Row
    requires ValidValues(meta, values)
  {
    map name | name in row.Keys + NamesOf(meta, values) ::
      if ValueFor(meta, values, name).Some? then ValueFor(meta, values, name).value
      else if name in row then row[name]
      else None
  }

  ghost predicate ValidChange(meta: Meta, kind: Kind, change: RowChange) {
    && (kind != Inserting ==> ValidKey(meta, change.key))
    && (kind != Deleting ==> ValidValues(meta, change.values))
    && (kind == Updating ==> change.values != [])
  }

  ghost function Meaning(meta: Meta, kind: Kind, change: RowChange, rows: seq<Row>, defaults: Row): seq<Row>
    requires WellFormed(meta) && ValidChange(meta, kind, change)
  {
    match kind
    case Deleting => Keep(rows, row => Hits(meta, change.key, row))
    case Updating => Change(rows, row => Hits(meta, change.key, row), row => Edited(meta, change.values, row))
    case Inserting => rows + [Edited(meta, change.values, defaults)]
  }

  /** The row has the key of the change and, where changes are counted, is not already what an update makes of it. */
  predicate Found(counting: Counting, meta: Meta, kind: Kind, change: RowChange, row: Row)
    requires WellFormed(meta) && ValidKey(meta, change.key) && (kind != Deleting ==> ValidValues(meta, change.values))
  {
    Hits(meta, change.key, row)
    && (kind == Updating && counting == ChangedRows ==> Edited(meta, change.values, row) != row)
  }

  ghost function FoundCount(counting: Counting, meta: Meta, kind: Kind, change: RowChange, rows: seq<Row>): nat
    requires WellFormed(meta) && ValidChange(meta, kind, change)
  {
    if kind == Inserting then 1 else Count(rows, row => Found(counting, meta, kind, change, row))
  }

  // ----- the statement does what the change means -----

  lemma BuiltExactlyWhenValid(meta: Meta, kind: Kind, change: RowChange)
    ensures Built(meta, kind, change).Ok? <==> ValidChange(meta, kind, change)
  {
    ValidValuesHaveNoError(meta, change.values);
  }

  lemma {:induction false} SameKept(rows: seq<Row>, p: Row -> bool, q: Row -> bool)
    requires forall row | row in rows :: p(row) == q(row)
    ensures Keep(rows, p) == Keep(rows, q) && Count(rows, p) == Count(rows, q)
  {
    if rows != [] {
      SameKept(rows[..|rows| - 1], p, q);
    }
  }

  lemma KeyHolds(meta: Meta, key: seq<Cell>, start: nat, params: Params, row: Row)
    requires WellFormed(meta) && ValidKey(meta, key)
    requires |params| == start + |meta.keys| && params[start..] == KeyParams(meta, |meta.keys|, key)
    ensures Holds(KeyEquations(meta, |meta.keys|, start), params, row) <==> Hits(meta, key, row)
  {
    var equations := KeyEquations(meta, |meta.keys|, start);
    forall i | 0 <= i < |meta.keys|
      ensures equations[i].name == meta.columns[meta.keys[i]]
      ensures Bound(params, equations[i].hole) == KeyValue(key, meta.keys[i])
    {
      assert params[start..][i] == params[start + i];
    }
    if Holds(equations, params, row) {
      forall c | c in meta.keys
        ensures meta.columns[c] in row && row[meta.columns[c]] == KeyValue(key, c)
      {
        var i :| 0 <= i < |meta.keys| && meta.keys[i] == c;
        assert equations[i] in equations;
      }
    }
  }

  lemma NamesOneMore(meta: Meta, values: seq<Cell>)
    requires ValidValues(meta, values) && values != []
    ensures ValidValues(meta, values[..|values| - 1])
    ensures NamesOf(meta, values)
            == NamesOf(meta, values[..|values| - 1]) + {meta.columns[values[|values| - 1].column]}
  {
    var before, last := values[..|values| - 1], values[|values| - 1];
    assert forall cell | cell in before :: cell in values;
    assert last in values;
    forall name | name in NamesOf(meta, values)
      ensures name in NamesOf(meta, before) + {meta.columns[last.column]}
    {
      var i :| 0 <= i < |values| && meta.columns[values[i].column] == name;
      assert i < |before| ==> before[i] == values[i];
    }
    forall name | name in NamesOf(meta, before)
      ensures name in NamesOf(meta, values)
    {
      var i :| 0 <= i < |before| && meta.columns[before[i].column] == name;
      assert before[i] == values[i];
    }
  }

  lemma EditedOneMore(meta: Meta, values: seq<Cell>, row: Row)
    requires ValidValues(meta, values) && values != []
    ensures ValidValues(meta, values[..|values| - 1])
    ensures Edited(meta, values, row)
            == Edited(meta, values[..|values| - 1], row)
                 [meta.columns[values[|values| - 1].column] := values[|values| - 1].value]
  {
    NamesOneMore(meta, values);
    hide NamesOf, ValidValues;
  }

  /** The cells' columns have the cells' values, and every other column is as it was. */
  lemma {:induction false} EditedColumns(meta: Meta, values: seq<Cell>, row: Row, i: nat, name: string)
    requires WellFormed(meta) && ValidValues(meta, values) && i < |values|
    ensures meta.columns[values[i].column] in Edited(meta, values, row)
    ensures Edited(meta, values, row)[meta.columns[values[i].column]] == values[i].value
    ensures name !in NamesOf(meta, values) ==>
              (name in Edited(meta, values, row) <==> name in row)
              && (name in row ==> Edited(meta, values, row)[name] == row[name])
  {
    hide Edited, NamesOf;
    EditedOneMore(meta, values, row);
    NamesOneMore(meta, values);
    if i < |values| - 1 {
      EditedColumns(meta, values[..|values| - 1], row, i, name);
    } else if |values| > 1 {
      EditedColumns(meta, values[..|values| - 1], row, 0, name);
    } else {
      assert values[..|values| - 1] == [];
      EditedNothing(meta, row);
    }
  }

  lemma EditedNothing(meta: Meta, row: Row)
    ensures Edited(meta, [], row) == row
  {
  }

  lemma {:induction false} AssignEdits(meta: Meta, values: seq<Cell>, params: Params, row: Row)
    requires WellFormed(meta) && ValidValues(meta, values) && Values(values) <= params
    ensures Assign(Sets(Names(meta, values)), params, row) == Edited(meta, values, row)
  {
    hide Edited;
    if values == [] {
      EditedNothing(meta, row);
    } else {
      var before := values[..|values| - 1];
      EditedOneMore(meta, values, row);
      assert Sets(Names(meta, values))[..|before|] == Sets(Names(meta, before));
      AssignEdits(meta, before, params, row);
      assert Values(values)[|before|] == values[|before|].value;
    }
  }

  lemma {:induction false} InsertedEdits(meta: Meta, values: seq<Cell>, params: Params, defaults: Row)
    requires WellFormed(meta) && ValidValues(meta, values) && Values(values) <= params
    ensures Inserted(Names(meta, values), From(0, |values|), params, defaults) == Edited(meta, values, defaults)
  {
    hide Edited;
    if values == [] {
      EditedNothing(meta, defaults);
    } else {
      var before := values[..|values| - 1];
      EditedOneMore(meta, values, defaults);
      assert Names(meta, values)[..|before|] == Names(meta, before);
      assert From(0, |values|)[..|before|] == From(0, |before|);
      InsertedEdits(meta, before, params, defaults);
      assert Values(values)[|before|] == values[|before|].value;
    }
  }

  /** Executing the statement of a change, bound to its parameters, does to any table what the change means. */
  lemma StatementMeansTheChange(counting: Counting, meta: Meta, kind: Kind, change: RowChange, rows: seq<Row>,
                                defaults: Row)
    requires WellFormed(meta) && Built(meta, kind, change).Ok?
    ensures WellFormedStatement(Built(meta, kind, change).value.0) && ValidChange(meta, kind, change)
    ensures var (statement, params) := Built(meta, kind, change).value;
            && Effect(statement, params, rows, defaults) == Meaning(meta, kind, change, rows, defaults)
            && Affected(counting, statement, params, rows) == FoundCount(counting, meta, kind, change, rows)
  {
    BuiltExactlyWhenValid(meta, kind, change);
    match kind
    case Deleting => DeleteMeans(counting, meta, change, rows);
    case Updating => UpdateMeans(counting, meta, change, rows);
    case Inserting => InsertMeans(meta, change, defaults);
  }

  lemma DeleteMeans(counting: Counting, meta: Meta, change: RowChange, rows: seq<Row>)
    requires WellFormed(meta) && ValidKey(meta, change.key)
    ensures var where, params := KeyEquations(meta, |meta.keys|, 0), KeyParams(meta, |meta.keys|, change.key);
            && Keep(rows, row => Holds(where, params, row)) == Keep(rows, row => Hits(meta, change.key, row))
            && Count(rows, row => Holds(where, params, row)) == FoundCount(counting, meta, Deleting, change, rows)
  {
    hide Hits, Holds;
    var where, params := KeyEquations(meta, |meta.keys|, 0), KeyParams(meta, |meta.keys|, change.key);
    forall row: Row
      ensures Holds(where, params, row) == Hits(meta, change.key, row)
    {
      KeyHolds(meta, change.key, 0, params, row);
    }
    SameKept(rows, row => Holds(where, params, row), row => Hits(meta, change.key, row));
    SameKept(rows, row => Holds(where, params, row), row => Found(counting, meta, Deleting, change, row));
  }

  lemma UpdateMeans(counting: Counting, meta: Meta, change: RowChange, rows: seq<Row>)
    requires WellFormed(meta) && ValidChange(meta, Updating, change)
    ensures var sets, where := Sets(Names(meta, change.values)), KeyEquations(meta, |meta.keys|, |change.values|);
            var params := Values(change.values) + KeyParams(meta, |meta.keys|, change.key);
            && Change(rows, row => Holds(where, params, row), row => Assign(sets, params, row))
               == Meaning(meta, Updating, change, rows, map[])
            && Count(rows,
                     row => Holds(where, params, row) && (counting == ChangedRows ==> Assign(sets, params, row) != row))
               == FoundCount(counting, meta, Updating, change, rows)
  {
    hide Edited, Hits, Holds, Assign;
    var sets, where := Sets(Names(meta, change.values)), KeyEquations(meta, |meta.keys|, |change.values|);
    var params := Values(change.values) + KeyParams(meta, |meta.keys|, change.key);
    forall row: Row
      ensures Holds(where, params, row) == Hits(meta, change.key, row)
      ensures Assign(sets, params, row) == Edited(meta, change.values, row)
    {
      KeyHolds(meta, change.key, |change.values|, params, row);
      AssignEdits(meta, change.values, params, row);
    }
    SameKept(rows, row => Holds(where, params, row) && (counting == ChangedRows ==> Assign(sets, params, row) != row),
             row => Found(counting, meta, Updating, change, row));
  }

  lemma InsertMeans(meta: Meta, change: RowChange, defaults: Row)
    requires WellFormed(meta) && ValidValues(meta, change.values)
    ensures Inserted(Names(meta, change.values), From(0, |change.values|), Values(change.values), defaults)
            == Edited(meta, change.values, defaults)
    ensures change.values == [] ==> Edited(meta, change.values, defaults) == defaults
  {
    InsertedEdits(meta, change.values, Values(change.values), defaults);
    EditedNothing(meta, defaults);
  }

  lemma DeletesCountHits(counting: Counting, meta: Meta, change: RowChange, rows: seq<Row>)
    requires WellFormed(meta) && ValidChange(meta, Deleting, change)
    ensures FoundCount(counting, meta, Deleting, change, rows) == Count(rows, row => Hits(meta, change.key, row))
  {
    hide Hits;
    SameKept(rows, row => Found(counting, meta, Deleting, change, row), row => Hits(meta, change.key, row));
  }
}
