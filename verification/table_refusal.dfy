/** Which changes of a table are refused before anything is sent, and why. */
module TableRefusals {
  import opened TextLines
  import opened TableEdits

  /** The key gives no value for the column: no cell is for it, or the last one that is holds NULL. */
  predicate LacksKey(key: seq<Cell>, column: Column) {
    forall i | 0 <= i < |key| && key[i].column == column && (forall j | i < j < |key| :: key[j].column != column) ::
      key[i].value == None
  }

  lemma {:induction false} LastCell(cells: seq<Cell>, column: Column)
    ensures match LastValue(cells, column)
            case None => forall i | 0 <= i < |cells| :: cells[i].column != column
            case Some(value) =>
              exists i :: 0 <= i < |cells| && cells[i] == Cell(column, value)
                          && forall j | i < j < |cells| :: cells[j].column != column
  {
    if cells != [] && cells[|cells| - 1].column != column {
      LastCell(cells[..|cells| - 1], column);
    }
  }

  lemma LacksExactly(key: seq<Cell>, column: Column)
    ensures LacksKey(key, column) <==> !GivesKey(key, column)
  {
    LastCell(key, column);
    hide LastValue;
  }

  predicate KeyIsIncomplete(meta: Meta, key: seq<Cell>) {
    |key| != |meta.keys| || exists c :: c in meta.keys && LacksKey(key, c)
  }

  /** The cell at `i` is the first that is for no column, or for one that an earlier cell is for. */
  predicate FirstWrong(meta: Meta, values: seq<Cell>, i: nat) {
    && i < |values| && (values[i].column !in meta.columns || Repeats(values, i))
    && forall j | 0 <= j < i :: values[j].column in meta.columns && !Repeats(values, j)
  }

  predicate Repeats(values: seq<Cell>, i: nat)
    requires i < |values|
  {
    exists j :: 0 <= j < i && values[j].column == values[i].column
  }

  predicate NoneWrong(meta: Meta, values: seq<Cell>) {
    forall j | 0 <= j < |values| :: values[j].column in meta.columns && !Repeats(values, j)
  }

  lemma RepeatsInFront(values: seq<Cell>, n: nat, i: nat)
    requires i < n <= |values|
    ensures Repeats(values[..n], i) <==> Repeats(values, i)
  {
    if j :| 0 <= j < i && values[j].column == values[i].column {
      assert values[..n][j].column == values[..n][i].column;
    }
  }

  lemma {:induction false} ErrorOfFirst(meta: Meta, values: seq<Cell>, i: nat)
    ensures FirstWrong(meta, values, i) ==>
              ValuesError(meta, values)
                == Some(if values[i].column !in meta.columns then UnknownColumn(values[i].column)
                                                else RepeatedColumn(meta.columns[values[i].column]))
    ensures NoneWrong(meta, values) ==> ValuesError(meta, values) == None
  {
    if values != [] {
      var n := |values| - 1;
      var before, last := values[..n], values[n];
      ErrorOfFirst(meta, before, i);
      forall j | 0 <= j < n
        ensures Repeats(before, j) <==> Repeats(values, j)
      {
        RepeatsInFront(values, n, j);
      }
      LastRepeats(values);
      hide ValuesError, Repeats;
      LastError(meta, values);
      assert FirstWrong(meta, values, i) && i < n ==> FirstWrong(meta, before, i);
      assert FirstWrong(meta, values, n) ==> NoneWrong(meta, before);
      assert NoneWrong(meta, values) ==> NoneWrong(meta, before);
    }
  }

  lemma LastRepeats(values: seq<Cell>)
    requires values != []
    ensures var n := |values| - 1;
            Repeats(values, n) <==> exists cell :: cell in values[..n] && cell.column == values[n].column
  {
    var n := |values| - 1;
    if j :| 0 <= j < n && values[j].column == values[n].column {
      assert values[j] in values[..n];
    }
    if cell :| cell in values[..n] && cell.column == values[n].column {
      var j :| 0 <= j < n && values[j] == cell;
      assert values[j].column == values[n].column;
    }
  }

  lemma LastError(meta: Meta, values: seq<Cell>)
    requires values != []
    ensures var n := |values| - 1;
            ValuesError(meta, values)
            == if ValuesError(meta, values[..n]).Some? then ValuesError(meta, values[..n])
               else if values[n].column !in meta.columns then Some(UnknownColumn(values[n].column))
               else if Repeats(values, n) then Some(RepeatedColumn(meta.columns[values[n].column]))
               else None
  {
    LastRepeats(values);
    hide Repeats;
  }

  lemma KeyExactly(meta: Meta, key: seq<Cell>)
    ensures ValidKey(meta, key) <==> !KeyIsIncomplete(meta, key)
  {
    forall c | c in meta.keys
      ensures LacksKey(key, c) <==> !GivesKey(key, c)
    {
      LacksExactly(key, c);
    }
    hide LacksKey, GivesKey;
  }

  /**
   * A delete needs a complete key; an insert known columns, each once; an update both, and a column at least. The first
   * wrong cell is reported before a missing column, and that before the key.
   */
  lemma RefusedExactly(meta: Meta, kind: Kind, change: RowChange, wrong: nat)
    ensures kind == Deleting ==>
              if KeyIsIncomplete(meta, change.key) then Built(meta, kind, change) == Err(IncompleteKey)
              else Built(meta, kind, change).Ok?
    ensures kind != Deleting && FirstWrong(meta, change.values, wrong) ==>
              Built(meta, kind, change)
              == Err(if change.values[wrong].column !in meta.columns then UnknownColumn(change.values[wrong].column)
                     else RepeatedColumn(meta.columns[change.values[wrong].column]))
    ensures kind == Updating && NoneWrong(meta, change.values) ==>
              if change.values == [] then Built(meta, kind, change) == Err(NothingChanged)
              else if KeyIsIncomplete(meta, change.key) then Built(meta, kind, change) == Err(IncompleteKey)
              else Built(meta, kind, change).Ok?
    ensures kind == Inserting && NoneWrong(meta, change.values) ==> Built(meta, kind, change).Ok?
  {
    KeyExactly(meta, change.key);
    ErrorOfFirst(meta, change.values, wrong);
    hide ValidKey, KeyIsIncomplete, ValuesError, FirstWrong, NoneWrong;
  }
}
