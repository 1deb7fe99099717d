/** How the columns of a result are matched with the columns of its table, so that its rows can be edited. */
module EditableTables {
  import opened TextLines
  import opened TableEdits
  import opened TableMeanings

  datatype TableColumn = TableColumn(name: string, position: Column, keyOrder: int, quotedName: string)

  /** Positions count from 1, and neither they nor the quoted names repeat. */
  ghost predicate ValidColumns(columns: seq<TableColumn>) {
    && (forall c | c in columns :: c.position > 0)
    && (forall i, j | 0 <= i < j < |columns| ::
          columns[i].position != columns[j].position && columns[i].quotedName != columns[j].quotedName)
  }

  // ----- matching result columns -----

  function LastNamed(columns: seq<TableColumn>, name: string): Option<TableColumn> {
    if columns == [] then None
    else if columns[|columns| - 1].name == name then Some(columns[|columns| - 1])
    else LastNamed(columns[..|columns| - 1], name)
  }

  function LastFolded(columns: seq<TableColumn>, name: string): Option<TableColumn> {
    if columns == [] then None
    else if Lower(columns[|columns| - 1].name) == Lower(name) then Some(columns[|columns| - 1])
    else LastFolded(columns[..|columns| - 1], name)
  }

  /** The column a result name stands for: spelled like it, or else only differing in case. */
  function Match(columns: seq<TableColumn>, name: string): Option<TableColumn> {
    if LastNamed(columns, name).Some? then LastNamed(columns, name) else LastFolded(columns, name)
  }

  /** Every result column has the position of its match, unless an earlier one has it already; 0 stands for none. */
  ghost predicate Mapped(columns: seq<TableColumn>, names: seq<string>, numbers: seq<Column>) {
    && |numbers| == |names|
    && forall i | 0 <= i < |names| ::
         var found := Match(columns, names[i]);
         numbers[i] == if found.Some? && found.value.position !in numbers[..i] then found.value.position else 0
  }

  method MapColumns(columns: seq<TableColumn>, names: seq<string>) returns (numbers: seq<Column>)
    requires forall c | c in columns :: c.position > 0
    ensures Mapped(columns, names, numbers)
  {
    var exactNames: map<string, TableColumn>, foldedNames: map<string, TableColumn> := map[], map[];
    for i := 0 to |columns|
      invariant forall name ::
                  LastNamed(columns[..i], name) == if name in exactNames then Some(exactNames[name]) else None
      invariant forall name ::
                  LastFolded(columns[..i], name)
                  == if Lower(name) in foldedNames then Some(foldedNames[Lower(name)]) else None
    {
      assert columns[..i + 1][..i] == columns[..i];
      exactNames := exactNames[columns[i].name := columns[i]];
      foldedNames := foldedNames[Lower(columns[i].name) := columns[i]];
    }
    assert columns[..|columns|] == columns;
    var used: set<Column> := {};
    numbers := [];
    for i := 0 to |names|
      invariant Mapped(columns, names[..i], numbers)
      invariant forall p: Column | p > 0 :: p in used <==> p in numbers
    {
      var found := if names[i] in exactNames then Some(exactNames[names[i]])
      else if Lower(names[i]) in foldedNames then Some(foldedNames[Lower(names[i])])
      else None;
      assert found == Match(columns, names[i]);
      MatchIsThere(columns, names[i]);
      var number: Column := 0;
      if found.Some? && found.value.position !in used {
        used := used + {found.value.position};
        number := found.value.position;
      }
      MappedOneMore(columns, names, i, numbers, number);
      numbers := numbers + [number];
    }
    assert names[..|names|] == names;
  }

  lemma MappedOneMore(columns: seq<TableColumn>, names: seq<string>, i: nat, numbers: seq<Column>, number: Column)
    requires i < |names| && Mapped(columns, names[..i], numbers)
    requires var found := Match(columns, names[i]);
             number == if found.Some? && found.value.position !in numbers then found.value.position else 0
    ensures Mapped(columns, names[..i + 1], numbers + [number])
  {
    hide Match;
    var more := numbers + [number];
    forall j | 0 <= j < i + 1
      ensures more[..j] == numbers[..j] && names[..i + 1][j] == (if j < i then names[..i][j] else names[i])
    {
    }
    assert numbers[..i] == numbers;
  }

  lemma {:induction false} MatchIsThere(columns: seq<TableColumn>, name: string)
    ensures LastNamed(columns, name).Some? ==> LastNamed(columns, name).value in columns
    ensures LastFolded(columns, name).Some? ==> LastFolded(columns, name).value in columns
  {
    if columns != [] {
      MatchIsThere(columns[..|columns| - 1], name);
    }
  }

  predicate SameLetter(x: char, y: char) {
    x == y || ('A' <= x <= 'Z' && y as int == x as int + 32) || ('A' <= y <= 'Z' && x as int == y as int + 32)
  }

  /** The letters are the same but for case. */
  predicate SameButCase(a: string, b: string) {
    |a| == |b| && forall i | 0 <= i < |a| :: SameLetter(a[i], b[i])
  }

  lemma SameLetterExactly(x: char, y: char)
    ensures LowerChar(x) == LowerChar(y) <==> SameLetter(x, y)
  {
  }

  lemma LowerIsSameButCase(a: string, b: string)
    ensures Lower(a) == Lower(b) <==> SameButCase(a, b)
  {
    if |a| == |b| {
      forall i | 0 <= i < |a|
        ensures Lower(a)[i] == Lower(b)[i] <==> SameLetter(a[i], b[i])
      {
        SameLetterExactly(a[i], b[i]);
      }
    }
    hide SameLetter, LowerChar;
  }

  /** `column` is the last of those for which `name` is spelled alike, or the last with other case if there is none. */
  predicate IsMatch(columns: seq<TableColumn>, name: string, i: nat) {
    && i < |columns|
    && if columns[i].name == name then forall j | i < j < |columns| :: columns[j].name != name
       else
         && SameButCase(columns[i].name, name) && (forall j | 0 <= j < |columns| :: columns[j].name != name)
         && forall j | i < j < |columns| :: !SameButCase(columns[j].name, name)
  }

  lemma {:induction false} LastNamedExactly(columns: seq<TableColumn>, name: string)
    ensures match LastNamed(columns, name)
            case None => forall j | 0 <= j < |columns| :: columns[j].name != name
            case Some(c) => exists i :: 0 <= i < |columns| && columns[i] == c && c.name == name
                                        && forall j | i < j < |columns| :: columns[j].name != name
  {
    if columns != [] && columns[|columns| - 1].name != name {
      LastNamedExactly(columns[..|columns| - 1], name);
    }
  }

  lemma {:induction false} LastFoldedExactly(columns: seq<TableColumn>, name: string)
    ensures match LastFolded(columns, name)
            case None => forall j | 0 <= j < |columns| :: !SameButCase(columns[j].name, name)
            case Some(c) => exists i :: 0 <= i < |columns| && columns[i] == c && SameButCase(c.name, name)
                                        && forall j | i < j < |columns| :: !SameButCase(columns[j].name, name)
  {
    hide SameButCase, Lower;
    if columns != [] {
      LowerIsSameButCase(columns[|columns| - 1].name, name);
      if Lower(columns[|columns| - 1].name) != Lower(name) {
        LastFoldedExactly(columns[..|columns| - 1], name);
      }
    }
  }

  /** A result name stands for the column that is spelled like it, or else for one that only differs in case. */
  lemma MatchExactly(columns: seq<TableColumn>, name: string)
    ensures match Match(columns, name)
            case None => forall j | 0 <= j < |columns| :: !SameButCase(columns[j].name, name)
            case Some(c) => exists i: nat :: IsMatch(columns, name, i) && columns[i] == c
  {
    LastNamedExactly(columns, name);
    LastFoldedExactly(columns, name);
    hide SameButCase, LastNamed, LastFolded;
    if LastNamed(columns, name).Some? {
      var i :| 0 <= i < |columns| && columns[i] == LastNamed(columns, name).value && columns[i].name == name
               && forall j | i < j < |columns| :: columns[j].name != name;
      assert IsMatch(columns, name, i);
    } else if LastFolded(columns, name).Some? {
      var i :| 0 <= i < |columns| && columns[i] == LastFolded(columns, name).value && SameButCase(columns[i].name, name)
               && forall j | i < j < |columns| :: !SameButCase(columns[j].name, name);
      assert IsMatch(columns, name, i);
    }
  }

  /** No two result columns stand for the same column of the table. */
  lemma MappedIsInjective(columns: seq<TableColumn>, names: seq<string>, numbers: seq<Column>, i: nat, j: nat)
    requires Mapped(columns, names, numbers) && i < j < |numbers| && numbers[j] != 0
    ensures numbers[i] != numbers[j]
  {
    hide Match;
    assert numbers[j] !in numbers[..j];
    assert numbers[..j][i] == numbers[i];
  }

  // ----- the key -----

  function InsertByOrder(column: TableColumn, sorted: seq<TableColumn>): seq<TableColumn> {
    if sorted != [] && sorted[0].keyOrder < column.keyOrder then [sorted[0]] + InsertByOrder(column, sorted[1..])
    else [column] + sorted
  }

  /** Stable sorting by key order. */
  function ByKeyOrder(columns: seq<TableColumn>): seq<TableColumn> {
    if columns == [] then [] else InsertByOrder(columns[0], ByKeyOrder(columns[1..]))
  }

  function KeysOf(columns: seq<TableColumn>): seq<TableColumn> {
    if columns == [] then []
    else KeysOf(columns[..|columns| - 1])
         + if columns[|columns| - 1].keyOrder > 0 then [columns[|columns| - 1]] else []
  }

  lemma {:induction false} InsertKeeps(column: TableColumn, sorted: seq<TableColumn>)
    ensures multiset(InsertByOrder(column, sorted)) == multiset([column] + sorted)
  {
    if sorted != [] && sorted[0].keyOrder < column.keyOrder {
      InsertKeeps(column, sorted[1..]);
      assert sorted == [sorted[0]] + sorted[1..];
    }
  }

  /** Sorting keeps every column, as often. */
  lemma {:induction false} SortingKeeps(columns: seq<TableColumn>)
    ensures multiset(ByKeyOrder(columns)) == multiset(columns)
  {
    if columns != [] {
      SortingKeeps(columns[1..]);
      InsertKeeps(columns[0], ByKeyOrder(columns[1..]));
      assert columns == [columns[0]] + columns[1..];
    }
  }

  lemma SortingKeepsEach(columns: seq<TableColumn>, x: TableColumn)
    ensures x in ByKeyOrder(columns) <==> x in columns
  {
    SortingKeeps(columns);
    assert x in ByKeyOrder(columns) <==> x in multiset(ByKeyOrder(columns));
  }

  function WithKeyOrder(columns: seq<TableColumn>, order: int): seq<TableColumn> {
    if columns == [] then []
    else (if columns[0].keyOrder == order then [columns[0]] else []) + WithKeyOrder(columns[1..], order)
  }

  lemma {:induction false} InsertIsStable(column: TableColumn, sorted: seq<TableColumn>, order: int)
    ensures WithKeyOrder(InsertByOrder(column, sorted), order) == WithKeyOrder([column] + sorted, order)
  {
    assert ([column] + sorted)[1..] == sorted;
    if sorted != [] && sorted[0].keyOrder < column.keyOrder {
      InsertIsStable(column, sorted[1..], order);
      assert ([column] + sorted[1..])[1..] == sorted[1..];
      assert ([sorted[0]] + InsertByOrder(column, sorted[1..]))[1..] == InsertByOrder(column, sorted[1..]);
    }
  }

  /** Columns of the same key order keep their order. */
  lemma {:induction false} SortingIsStable(columns: seq<TableColumn>, order: int)
    ensures WithKeyOrder(ByKeyOrder(columns), order) == WithKeyOrder(columns, order)
  {
    if columns != [] {
      SortingIsStable(columns[1..], order);
      InsertIsStable(columns[0], ByKeyOrder(columns[1..]), order);
      assert ([columns[0]] + ByKeyOrder(columns[1..]))[1..] == ByKeyOrder(columns[1..]);
    }
  }

  lemma {:induction false} KeysAreKeys(columns: seq<TableColumn>, x: TableColumn)
    ensures x in KeysOf(columns) <==> x in columns && x.keyOrder > 0
  {
    if columns != [] {
      KeysAreKeys(columns[..|columns| - 1], x);
      assert columns == columns[..|columns| - 1] + [columns[|columns| - 1]];
    }
  }

  predicate Sorted(columns: seq<TableColumn>) {
    forall i, j | 0 <= i < j < |columns| :: columns[i].keyOrder <= columns[j].keyOrder
  }

  lemma {:induction false} InsertSorts(column: TableColumn, sorted: seq<TableColumn>)
    requires Sorted(sorted)
    ensures Sorted(InsertByOrder(column, sorted))
  {
    if sorted != [] && sorted[0].keyOrder < column.keyOrder {
      InsertSorts(column, sorted[1..]);
      var rest := InsertByOrder(column, sorted[1..]);
      forall i | 0 <= i < |rest|
        ensures sorted[0].keyOrder <= rest[i].keyOrder
      {
        InsertKeeps(column, sorted[1..]);
        assert rest[i] in multiset(rest);
      }
    }
  }

  lemma {:induction false} SortingSorts(columns: seq<TableColumn>)
    ensures Sorted(ByKeyOrder(columns))
  {
    if columns != [] {
      SortingSorts(columns[1..]);
      InsertSorts(columns[0], ByKeyOrder(columns[1..]));
    }
  }

  /** Where the result shows the key columns: for each, the first result column with its position. */
  ghost predicate KeyShown(keys: seq<TableColumn>, numbers: seq<Column>, indexes: seq<nat>) {
    && |indexes| == |keys|
    && forall i | 0 <= i < |keys| ::
         indexes[i] < |numbers| && numbers[indexes[i]] == keys[i].position && keys[i].position !in numbers[..indexes[i]]
  }

  function Positions(columns: seq<TableColumn>): seq<Column> {
    seq(|columns|, i requires 0 <= i < |columns| => columns[i].position)
  }

  method FirstIndex(numbers: seq<Column>, position: Column) returns (index: Option<nat>)
    ensures index.None? <==> position !in numbers
    ensures index.Some? ==>
              index.value < |numbers| && numbers[index.value] == position && position !in numbers[..index.value]
  {
    for i := 0 to |numbers|
      invariant position !in numbers[..i]
    {
      if numbers[i] == position {
        return Some(i);
      }
    }
    return None;
  }

  method KeyColumns(keys: seq<TableColumn>, numbers: seq<Column>) returns (indexes: Option<seq<nat>>)
    ensures indexes.Some? <==> forall key | key in keys :: key.position in numbers
    ensures indexes.Some? ==> KeyShown(keys, numbers, indexes.value)
  {
    var found: seq<nat> := [];
    for i := 0 to |keys|
      invariant KeyShown(keys[..i], numbers, found)
      invariant forall key | key in keys[..i] :: key.position in numbers
    {
      var index := FirstIndex(numbers, keys[i].position);
      if index.None? {
        assert keys[i] in keys;
        return None;
      }
      found := found + [index.value];
    }
    assert keys[..|keys|] == keys;
    return Some(found);
  }

  // ----- the session -----

  datatype Editable = Editable(tableId: nat, keyColumns: seq<nat>, columnNumbers: seq<Column>)

  /** What a table is edited with: all its columns, and its whole key in key order. */
  ghost predicate DescribesTable(meta: Meta, columns: seq<TableColumn>) {
    && meta.keys == Positions(ByKeyOrder(KeysOf(columns)))
    && (forall c | c in columns :: c.position in meta.columns && meta.columns[c.position] == c.quotedName)
    && (forall p | p in meta.columns :: exists c :: c in columns && c.position == p)
  }

  class GenericSession {
    var nextTableID: nat
    var editableTables: map<nat, Meta>
    /** The last id that was given out before the current run. */
    ghost var givenBefore: nat

    ghost predicate Valid()
      reads this
    {
      givenBefore <= nextTableID
      && forall id | id in editableTables :: givenBefore < id <= nextTableID && WellFormed(editableTables[id])
    }

    constructor ()
      ensures Valid()
    {
      nextTableID, editableTables, givenBefore := 0, map[], 0;
    }

    /** A run forgets the tables of earlier results: their ids are never given out or found again. */
    method StartRun()
      requires Valid()
      modifies this
      ensures Valid() && nextTableID == old(nextTableID)
      ensures givenBefore == old(nextTableID) && forall id | id <= old(nextTableID) :: id !in editableTables
    {
      editableTables := map[];
      givenBefore := nextTableID;
    }

    /**
     * Makes a result editable exactly when its table has a key and the result shows every column of the key. Then the
     * key columns are where the result shows the key, and the new id stands for what describes the table.
     */
    method EditableTable(columns: seq<TableColumn>, names: seq<string>, qualifiedName: string, defaultValues: string,
                         placeholder: Placeholder)
      returns (r: Option<Editable>, ghost numbers: seq<Column>)
      requires Valid() && ValidColumns(columns)
      modifies this
      ensures Valid() && givenBefore == old(givenBefore)
      ensures Mapped(columns, names, numbers)
      ensures r.Some? <==> KeysOf(columns) != [] && forall key | key in KeysOf(columns) :: key.position in numbers
      ensures r.None? ==> unchanged(this)
      ensures r.Some? ==>
                var keys, id := ByKeyOrder(KeysOf(columns)), r.value.tableId;
                && r.value.columnNumbers == numbers
                && KeyShown(keys, numbers, r.value.keyColumns)
                && id == nextTableID == old(nextTableID) + 1
                && editableTables.Keys == old(editableTables).Keys + {id}
                && (forall i | i in old(editableTables) :: editableTables[i] == old(editableTables)[i])
                && DescribesTable(editableTables[id], columns)
                && editableTables[id].qualifiedName == qualifiedName
                && editableTables[id].defaultValues == defaultValues
                && editableTables[id].placeholder == placeholder
    {
      hide Mapped, KeysOf, ByKeyOrder, DescribesTable;
      numbers := [];
      var columnNumbers := MapColumns(columns, names);
      numbers := columnNumbers;
      var keys := KeysOf(columns);
      if |keys| == 0 {
        return None, numbers;
      }
      keys := ByKeyOrder(keys);
      forall x
        ensures x in keys <==> x in KeysOf(columns)
      {
        SortingKeepsEach(KeysOf(columns), x);
      }
      var keyColumns := KeyColumns(keys, columnNumbers);
      if keyColumns.None? {
        return None, numbers;
      }
      var quotedColumns := QuotedColumns(columns);
      nextTableID := nextTableID + 1;
      var meta := Meta(qualifiedName, defaultValues, Positions(keys), quotedColumns, placeholder);
      DescribedIsWellFormed(meta, columns);
      editableTables := editableTables[nextTableID := meta];
      r := Some(Editable(nextTableID, keyColumns.value, columnNumbers));
    }
  }

  method QuotedColumns(columns: seq<TableColumn>) returns (quoted: map<Column, string>)
    requires ValidColumns(columns)
    ensures forall c | c in columns :: c.position in quoted && quoted[c.position] == c.quotedName
    ensures forall p | p in quoted :: exists c :: c in columns && c.position == p
  {
    quoted := map[];
    for i := 0 to |columns|
      invariant forall j | 0 <= j < i ::
                  columns[j].position in quoted && quoted[columns[j].position] == columns[j].quotedName
      invariant forall p | p in quoted :: exists c :: c in columns && c.position == p
    {
      quoted := quoted[columns[i].position := columns[i].quotedName];
    }
  }

  lemma DescribedIsWellFormed(meta: Meta, columns: seq<TableColumn>)
    requires ValidColumns(columns)
    requires meta.keys == Positions(ByKeyOrder(KeysOf(columns)))
    requires forall c | c in columns :: c.position in meta.columns && meta.columns[c.position] == c.quotedName
    requires forall p | p in meta.columns :: exists c :: c in columns && c.position == p
    ensures DescribesTable(meta, columns) && WellFormed(meta)
  {
    var keys := ByKeyOrder(KeysOf(columns));
    forall p | p in meta.keys
      ensures p in meta.columns
    {
      var i :| 0 <= i < |keys| && keys[i].position == p;
      SortingKeepsEach(KeysOf(columns), keys[i]);
      KeysAreKeys(columns, keys[i]);
    }
    forall p, q | p in meta.columns && q in meta.columns && meta.columns[p] == meta.columns[q]
      ensures p == q
    {
      var c :| c in columns && c.position == p;
      var d :| d in columns && d.position == q;
    }
  }

  // ----- the key of a result row finds the row -----

  /** The key cells of a result row, as they are sent back with a change. */
  function KeyCells(meta: Meta, keyColumns: seq<nat>, shown: seq<Option<string>>): seq<Cell>
    requires |keyColumns| == |meta.keys| && forall i | 0 <= i < |keyColumns| :: keyColumns[i] < |shown|
  {
    seq(|keyColumns|, i requires 0 <= i < |keyColumns| => Cell(meta.keys[i], shown[keyColumns[i]]))
  }

  /** The result row shows a row of the table: each result column that stands for a column has its value. */
  ghost predicate Shows(meta: Meta, numbers: seq<Column>, shown: seq<Option<string>>, row: Row) {
    && |shown| == |numbers|
    && forall i | 0 <= i < |numbers| && numbers[i] in meta.columns ::
         meta.columns[numbers[i]] in row && row[meta.columns[numbers[i]]] == shown[i]
  }

  /**
   * The key that is sent back for a result row is complete and finds the row of the table that it shows, unless a key
   * column is NULL, in which case it is refused.
   */
  lemma KeyFindsItsRow(meta: Meta, columns: seq<TableColumn>, numbers: seq<Column>, keyColumns: seq<nat>,
                       shown: seq<Option<string>>, row: Row)
    requires ValidColumns(columns) && DescribesTable(meta, columns) && WellFormed(meta)
    requires KeyShown(ByKeyOrder(KeysOf(columns)), numbers, keyColumns) && Shows(meta, numbers, shown, row)
    ensures var key := KeyCells(meta, keyColumns, shown);
            && (ValidKey(meta, key) <==> forall c | c in meta.keys :: row[meta.columns[c]].Some?)
            && (ValidKey(meta, key) ==> Hits(meta, key, row))
  {
    hide ByKeyOrder, KeysOf;
    var key := KeyCells(meta, keyColumns, shown);
    forall c | c in meta.keys
      ensures meta.columns[c] in row && LastValue(key, c) == Some(row[meta.columns[c]])
    {
      var i :| 0 <= i < |meta.keys| && meta.keys[i] == c;
      assert numbers[keyColumns[i]] == c;
      assert key[i] == Cell(c, row[meta.columns[c]]);
      forall j | 0 <= j < |key| && key[j].column == c
        ensures key[j].value == row[meta.columns[c]]
      {
        assert numbers[keyColumns[j]] == c;
      }
      LastValueOf(key, c, i);
    }
  }

  lemma {:induction false} LastValueOf(cells: seq<Cell>, column: Column, i: nat)
    requires i < |cells| && cells[i].column == column
    requires forall j | 0 <= j < |cells| && cells[j].column == column :: cells[j].value == cells[i].value
    ensures LastValue(cells, column) == Some(cells[i].value)
  {
    if cells[|cells| - 1].column != column {
      LastValueOf(cells[..|cells| - 1], column, i);
    }
  }
}
