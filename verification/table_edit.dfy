/** The statements that save edited rows, and what they mean for a table. */
module TableEdits {
  import opened TextLines

  type Column = n: nat | n < 0x1_0000

  datatype Cell = Cell(column: Column, value: Option<string>)

  datatype RowChange = RowChange(key: seq<Cell>, values: seq<Cell>)

  datatype Changes = Changes(deletes: seq<RowChange>, updates: seq<RowChange>, inserts: seq<RowChange>)

  datatype Placeholder = Dollar | Colon | Question

  datatype Meta = Meta(
    qualifiedName: string,
    defaultValues: string,
    keys: seq<Column>,
    columns: map<Column, string>,
    placeholder: Placeholder)

  /** What loading a table establishes: key columns are columns, and columns have different names. */
  predicate WellFormed(meta: Meta) {
    && (forall c | c in meta.keys :: c in meta.columns)
    && (forall c, d | c in meta.columns && d in meta.columns && meta.columns[c] == meta.columns[d] :: c == d)
  }

  function Bind(meta: Meta, position: nat): string {
    match meta.placeholder
    case Dollar => "$" + Decimal(position)
    case Colon => ":" + Decimal(position)
    case Question => "?"
  }

  /** A missing column has the empty name. */
  function Name(meta: Meta, column: Column): string {
    if column in meta.columns then meta.columns[column] else ""
  }

  // ----- statements and their text -----

  type Params = seq<Option<string>>

  /** `name = hole`, in a WHERE or a SET. */
  datatype Equation = Equation(name: string, hole: nat)

  datatype Statement =
    | Delete(table: string, where: seq<Equation>)
    | Update(table: string, sets: seq<Equation>, where: seq<Equation>)
    | Insert(table: string, names: seq<string>, holes: seq<nat>)
    | InsertDefaults(table: string, text: string)

  datatype Piece = Sql(text: string) | Hole(position: nat)

  function EquationPieces(equations: seq<Equation>, separator: string): seq<Piece> {
    if equations == [] then []
    else
      var last := equations[|equations| - 1];
      EquationPieces(equations[..|equations| - 1], separator)
      + [Sql((if |equations| == 1 then "" else separator) + last.name + " = "), Hole(last.hole)]
  }

  function HolePieces(holes: seq<nat>): seq<Piece> {
    if holes == [] then []
    else
      HolePieces(holes[..|holes| - 1]) + [Sql(if |holes| == 1 then "" else ", "), Hole(holes[|holes| - 1])]
  }

  function JoinNames(names: seq<string>): string {
    if |names| == 0 then "" else if |names| == 1 then names[0]
    else JoinNames(names[..|names| - 1]) + ", " + names[|names| - 1]
  }

  /** The text of a statement, with its placeholders in the order of the text. */
  function Pieces(statement: Statement): seq<Piece> {
    match statement
    case Delete(table, where) => [Sql("DELETE FROM " + table + " WHERE ")] + EquationPieces(where, " AND ")
    case Update(table, sets, where) =>
      [Sql("UPDATE " + table + " SET ")] + EquationPieces(sets, ", ") + [Sql(" WHERE ")]
        + EquationPieces(where, " AND ")
    case Insert(table, names, holes) =>
      [Sql("INSERT INTO " + table + " (" + JoinNames(names) + ") VALUES (")] + HolePieces(holes) + [Sql(")")]
    case InsertDefaults(table, text) => [Sql("INSERT INTO " + table + text)]
  }

  function Text(meta: Meta, pieces: seq<Piece>): string {
    if pieces == [] then ""
    else
      Text(meta, pieces[..|pieces| - 1])
      + match pieces[|pieces| - 1] { case Sql(text) => text case Hole(position) => Bind(meta, position) }
  }

  /** The numbers of the placeholders, in the order of the text. */
  function Holes(pieces: seq<Piece>): seq<nat> {
    if pieces == [] then []
    else
      var before := Holes(pieces[..|pieces| - 1]);
      if pieces[|pieces| - 1].Hole? then before + [pieces[|pieces| - 1].position] else before
  }

  function From(start: nat, count: nat): (r: seq<nat>)
    ensures |r| == count
  {
    seq(count, i requires 0 <= i => start + 1 + i)
  }

  // ----- building the statements -----

  datatype Error =
    | IncompleteKey
    | UnknownColumn(column: Column)
    | RepeatedColumn(name: string)
    | NothingChanged

  /** The last value that a list of cells gives for a column. */
  function LastValue(cells: seq<Cell>, column: Column): Option<Option<string>> {
    if cells == [] then None
    else if cells[|cells| - 1].column == column then Some(cells[|cells| - 1].value)
    else LastValue(cells[..|cells| - 1], column)
  }

  predicate GivesKey(key: seq<Cell>, column: Column) {
    LastValue(key, column).Some? && LastValue(key, column).value.Some?
  }

  predicate ValidKey(meta: Meta, key: seq<Cell>) {
    |key| == |meta.keys| && forall c | c in meta.keys :: GivesKey(key, c)
  }

  function KeyEquations(meta: Meta, count: nat, start: nat): seq<Equation>
    requires count <= |meta.keys|
  {
    seq(count, i requires 0 <= i < count => Equation(Name(meta, meta.keys[i]), start + 1 + i))
  }

  function KeyValue(key: seq<Cell>, column: Column): (value: Option<string>)
    requires GivesKey(key, column)
    ensures value.Some?
  {
    LastValue(key, column).value
  }

  function KeyParams(meta: Meta, count: nat, key: seq<Cell>): Params
    requires count <= |meta.keys| && forall i | 0 <= i < count :: GivesKey(key, meta.keys[i])
  {
    seq(count, i requires 0 <= i < count => KeyValue(key, meta.keys[i]))
  }

  method WhereClause(meta: Meta, key: seq<Cell>, params: Params)
    returns (r: Result<(seq<Equation>, Params), Error>)
    ensures r == if ValidKey(meta, key)
                 then Ok((KeyEquations(meta, |meta.keys|, |params|), params + KeyParams(meta, |meta.keys|, key)))
                 else Err(IncompleteKey)
  {
    if |key| != |meta.keys| {
      return Err(IncompleteKey);
    }
    var values: map<Column, Option<string>> := map[];
    for i := 0 to |key|
      invariant forall c :: LastValue(key[..i], c) == if c in values then Some(values[c]) else None
    {
      assert key[..i + 1][..i] == key[..i];
      values := values[key[i].column := key[i].value];
    }
    assert key[..|key|] == key;
    var conditions, all: Params := [], params;
    for i := 0 to |meta.keys|
      invariant forall j | 0 <= j < i :: GivesKey(key, meta.keys[j])
      invariant conditions == KeyEquations(meta, i, |params|)
      invariant all == params + KeyParams(meta, i, key)
    {
      var column := meta.keys[i];
      if column !in values || values[column].None? {
        assert column in meta.keys && !GivesKey(key, column);
        return Err(IncompleteKey);
      }
      all := all + [values[column]];
      conditions := conditions + [Equation(Name(meta, column), |all|)];
    }
    return Ok((conditions, all));
  }

  predicate ValidValues(meta: Meta, values: seq<Cell>) {
    && (forall cell | cell in values :: cell.column in meta.columns)
    && (forall i, j | 0 <= i < j < |values| :: values[i].column != values[j].column)
  }

  function Names(meta: Meta, values: seq<Cell>): (names: seq<string>)
    ensures |names| == |values|
  {
    seq(|values|, i requires 0 <= i < |values| => Name(meta, values[i].column))
  }

  function Values(values: seq<Cell>): (params: Params)
    ensures |params| == |values|
  {
    seq(|values|, i requires 0 <= i < |values| => values[i].value)
  }

  /** The error for the first cell that is wrong. */
  function ValuesError(meta: Meta, values: seq<Cell>): Option<Error> {
    if values == [] then None
    else
      var before, last := values[..|values| - 1], values[|values| - 1];
      if ValuesError(meta, before).Some? then ValuesError(meta, before)
      else if last.column !in meta.columns then Some(UnknownColumn(last.column))
      else if exists cell :: cell in before && cell.column == last.column
      then Some(RepeatedColumn(meta.columns[last.column]))
      else None
  }

  lemma {:induction false} ValidValuesHaveNoError(meta: Meta, values: seq<Cell>)
    ensures ValidValues(meta, values) <==> ValuesError(meta, values).None?
  {
    if values != [] {
      var before, last := values[..|values| - 1], values[|values| - 1];
      ValidValuesHaveNoError(meta, before);
      if ValidValues(meta, values) {
        assert last in values;
        assert forall cell | cell in before :: cell in values;
      } else if ValuesError(meta, values).None? {
        assert false;
      }
    }
  }

  lemma {:induction false} FirstErrorStays(meta: Meta, values: seq<Cell>, n: nat)
    requires n <= |values| && ValuesError(meta, values[..n]).Some?
    ensures ValuesError(meta, values) == ValuesError(meta, values[..n])
  {
    if n == |values| {
      assert values[..n] == values;
    } else {
      assert values[..|values| - 1][..n] == values[..n];
      FirstErrorStays(meta, values[..|values| - 1], n);
    }
  }

  method Assignments(meta: Meta, values: seq<Cell>) returns (r: Result<(seq<string>, Params), Error>)
    ensures r == match ValuesError(meta, values) {
                   case None => Ok((Names(meta, values), Values(values)))
                   case Some(error) => Err(error)
                 }
  {
    var seen: set<Column> := {};
    var names: seq<string>, params: Params := [], [];
    for i := 0 to |values|
      invariant names == Names(meta, values[..i]) && params == Values(values[..i])
      invariant forall c :: c in seen <==> exists cell :: cell in values[..i] && cell.column == c
      invariant ValuesError(meta, values[..i]).None?
    {
      var cell := values[i];
      assert values[..i + 1] == values[..i] + [cell];
      assert values[..i + 1][..i] == values[..i];
      if cell.column !in meta.columns {
        FirstErrorStays(meta, values, i + 1);
        return Err(UnknownColumn(cell.column));
      }
      var name := meta.columns[cell.column];
      if cell.column in seen {
        FirstErrorStays(meta, values, i + 1);
        return Err(RepeatedColumn(name));
      }
      seen := seen + {cell.column};
      names := names + [name];
      params := params + [cell.value];
    }
    assert values[..|values|] == values;
    return Ok((names, params));
  }

  datatype Kind = Deleting | Updating | Inserting

  function Sets(names: seq<string>): seq<Equation> {
    seq(|names|, i requires 0 <= i < |names| => Equation(names[i], i + 1))
  }

  /** The statement and the parameters for a change. */
  function Built(meta: Meta, kind: Kind, change: RowChange): Result<(Statement, Params), Error> {
    match kind
    case Deleting =>
      if !ValidKey(meta, change.key) then Err(IncompleteKey)
      else Ok((Delete(meta.qualifiedName, KeyEquations(meta, |meta.keys|, 0)),
               KeyParams(meta, |meta.keys|, change.key)))
    case Updating =>
      if ValuesError(meta, change.values).Some? then Err(ValuesError(meta, change.values).value)
      else if change.values == [] then Err(NothingChanged)
      else if !ValidKey(meta, change.key) then Err(IncompleteKey)
      else
        Ok((Update(meta.qualifiedName, Sets(Names(meta, change.values)),
                   KeyEquations(meta, |meta.keys|, |change.values|)),
            Values(change.values) + KeyParams(meta, |meta.keys|, change.key)))
    case Inserting =>
      if ValuesError(meta, change.values).Some? then Err(ValuesError(meta, change.values).value)
      else if change.values == [] then
        Ok((InsertDefaults(meta.qualifiedName,
                           if meta.defaultValues == "" then " DEFAULT VALUES" else meta.defaultValues), []))
      else
        Ok((Insert(meta.qualifiedName, Names(meta, change.values), From(0, |change.values|)), Values(change.values)))
  }

  method DeleteStatement(meta: Meta, change: RowChange) returns (r: Result<(Statement, Params), Error>)
    ensures r == Built(meta, Deleting, change)
  {
    var where := WhereClause(meta, change.key, []);
    if where.Err? {
      return Err(where.error);
    }
    assert [] + KeyParams(meta, |meta.keys|, change.key) == KeyParams(meta, |meta.keys|, change.key);
    return Ok((Delete(meta.qualifiedName, where.value.0), where.value.1));
  }

  method UpdateStatement(meta: Meta, change: RowChange) returns (r: Result<(Statement, Params), Error>)
    ensures r == Built(meta, Updating, change)
  {
    var settings := Assignments(meta, change.values);
    if settings.Err? {
      return Err(settings.error);
    }
    var names, params := settings.value.0, settings.value.1;
    if |names| == 0 {
      return Err(NothingChanged);
    }
    var sets: seq<Equation> := [];
    for i := 0 to |names|
      invariant sets == Sets(names[..i])
    {
      sets := sets + [Equation(names[i], i + 1)];
    }
    assert names[..|names|] == names;
    var where := WhereClause(meta, change.key, params);
    if where.Err? {
      return Err(where.error);
    }
    return Ok((Update(meta.qualifiedName, sets, where.value.0), where.value.1));
  }

  method InsertStatement(meta: Meta, change: RowChange) returns (r: Result<(Statement, Params), Error>)
    ensures r == Built(meta, Inserting, change)
  {
    var settings := Assignments(meta, change.values);
    if settings.Err? {
      return Err(settings.error);
    }
    var names, params := settings.value.0, settings.value.1;
    if |names| == 0 {
      var defaultValues := meta.defaultValues;
      if defaultValues == "" {
        defaultValues := " DEFAULT VALUES";
      }
      return Ok((InsertDefaults(meta.qualifiedName, defaultValues), []));
    }
    var holes: seq<nat> := [];
    for i := 0 to |names|
      invariant holes == From(0, i)
    {
      holes := holes + [i + 1];
    }
    return Ok((Insert(meta.qualifiedName, names, holes), params));
  }

  // ----- placeholders -----

  lemma {:induction false} HolesOfConcat(a: seq<Piece>, b: seq<Piece>)
    ensures Holes(a + b) == Holes(a) + Holes(b)
  {
    if b == [] {
      assert a + b == a;
    } else {
      assert (a + b)[..|a + b| - 1] == a + b[..|b| - 1];
      HolesOfConcat(a, b[..|b| - 1]);
    }
  }

  lemma HolesOfSql(text: string)
    ensures Holes([Sql(text)]) == []
  {
    assert [Sql(text)][..0] == [];
  }

  lemma HolesOfPair(text: string, position: nat)
    ensures Holes([Sql(text), Hole(position)]) == [position]
  {
    HolesOfSql(text);
    assert [Sql(text), Hole(position)][..1] == [Sql(text)];
  }

  lemma {:induction false} HolesOfEquations(equations: seq<Equation>, separator: string, start: nat)
    requires forall i | 0 <= i < |equations| :: equations[i].hole == start + 1 + i
    ensures Holes(EquationPieces(equations, separator)) == From(start, |equations|)
  {
    if equations != [] {
      var n := |equations| - 1;
      var text := (if n == 0 then "" else separator) + equations[n].name + " = ";
      HolesOfEquations(equations[..n], separator, start);
      HolesOfConcat(EquationPieces(equations[..n], separator), [Sql(text), Hole(equations[n].hole)]);
      HolesOfPair(text, equations[n].hole);
      hide Holes;
      assert From(start, n) + [start + n + 1] == From(start, n + 1);
    }
  }

  lemma LastHole(holes: seq<nat>)
    requires holes != []
    ensures Holes(HolePieces(holes)) == Holes(HolePieces(holes[..|holes| - 1])) + [holes[|holes| - 1]]
  {
    hide Holes;
    var text := if |holes| == 1 then "" else ", ";
    HolesOfConcat(HolePieces(holes[..|holes| - 1]), [Sql(text), Hole(holes[|holes| - 1])]);
    HolesOfPair(text, holes[|holes| - 1]);
  }

  lemma {:induction false} HolesOfHoles(holes: seq<nat>)
    ensures Holes(HolePieces(holes)) == holes
  {
    if holes != [] {
      hide HolePieces, Holes;
      var n := |holes| - 1;
      HolesOfHoles(holes[..n]);
      LastHole(holes);
      assert holes[..n] + [holes[n]] == holes;
    }
  }

  /** The placeholders of a statement in the order of its text, clause by clause. */
  lemma HolesOfStatement(statement: Statement)
    ensures Holes(Pieces(statement))
            == match statement {
                 case Delete(_, where) => Holes(EquationPieces(where, " AND "))
                 case Update(_, sets, where) =>
                   Holes(EquationPieces(sets, ", ")) + Holes(EquationPieces(where, " AND "))
                 case Insert(_, _, holes) => holes
                 case InsertDefaults(_, _) => []
               }
  {
    hide EquationPieces, HolePieces, JoinNames, Holes;
    match statement
    case Delete(table, where) =>
      HolesOfSql("DELETE FROM " + table + " WHERE ");
      HolesOfConcat([Sql("DELETE FROM " + table + " WHERE ")], EquationPieces(where, " AND "));
    case Update(table, sets, where) =>
      var head, middle := [Sql("UPDATE " + table + " SET ")], [Sql(" WHERE ")];
      HolesOfSql("UPDATE " + table + " SET ");
      HolesOfSql(" WHERE ");
      HolesOfConcat(head, EquationPieces(sets, ", "));
      HolesOfConcat(head + EquationPieces(sets, ", "), middle);
      HolesOfConcat(head + EquationPieces(sets, ", ") + middle, EquationPieces(where, " AND "));
    case Insert(table, names, holes) =>
      var head := [Sql("INSERT INTO " + table + " (" + JoinNames(names) + ") VALUES (")];
      HolesOfSql("INSERT INTO " + table + " (" + JoinNames(names) + ") VALUES (");
      HolesOfSql(")");
      HolesOfHoles(holes);
      HolesOfConcat(head, HolePieces(holes));
      HolesOfConcat(head + HolePieces(holes), [Sql(")")]);
    case InsertDefaults(table, text) =>
      HolesOfSql("INSERT INTO " + table + text);
  }

  /**
   * Whatever the change, the placeholders of its statement are numbered 1, 2, ... in the order of the text and there is
   * one for every parameter: numbered placeholders and `?` bind the same values.
   */
  lemma PlaceholdersMatchParameters(meta: Meta, kind: Kind, change: RowChange)
    requires Built(meta, kind, change).Ok?
    ensures var built := Built(meta, kind, change).value; Holes(Pieces(built.0)) == From(0, |built.1|)
  {
    hide EquationPieces, HolePieces, Holes, Pieces;
    var built := Built(meta, kind, change).value;
    HolesOfStatement(built.0);
    match built.0
    case Delete(_, where) =>
      HolesOfEquations(where, " AND ", 0);
    case Update(_, sets, where) =>
      HolesOfEquations(sets, ", ", 0);
      HolesOfEquations(where, " AND ", |sets|);
      assert From(0, |sets|) + From(|sets|, |where|) == From(0, |sets| + |where|);
    case Insert(_, _, _) =>
    case InsertDefaults(_, _) =>
  }

  /** Values travel only as parameters: changes of the same columns have the same text. */
  lemma ValuesStayOutOfTheText(meta: Meta, kind: Kind, a: RowChange, b: RowChange)
    requires Built(meta, kind, a).Ok? && Built(meta, kind, b).Ok?
    requires |a.values| == |b.values| && forall i | 0 <= i < |a.values| :: a.values[i].column == b.values[i].column
    ensures Text(meta, Pieces(Built(meta, kind, a).value.0)) == Text(meta, Pieces(Built(meta, kind, b).value.0))
  {
    hide Text, Pieces, KeyEquations, KeyParams, Names, Values, ValidKey, ValuesError, Sets, From;
    SameNames(meta, a.values, b.values);
  }

  lemma SameNames(meta: Meta, a: seq<Cell>, b: seq<Cell>)
    requires |a| == |b| && forall i | 0 <= i < |a| :: a[i].column == b[i].column
    ensures Names(meta, a) == Names(meta, b)
  {
  }
}
