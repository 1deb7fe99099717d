/** What it means for a save whether the connection counts the rows an update matches or the rows it changes. */
module TableCounting {
  import opened TextLines
  import opened TableEdits
  import opened TableMeanings
  import opened TableSaves

  // ----- one row -----

  /** The row at `i` is the only chosen one. */
  predicate OnlyChosen(rows: seq<Row>, chosen: Row -> bool, i: nat) {
    i < |rows| && chosen(rows[i]) && forall j | 0 <= j < |rows| && j != i :: !chosen(rows[j])
  }

  lemma {:induction false} CountNone(rows: seq<Row>, chosen: Row -> bool)
    requires forall i | 0 <= i < |rows| :: !chosen(rows[i])
    ensures Count(rows, chosen) == 0
  {
    if rows != [] {
      CountNone(rows[..|rows| - 1], chosen);
    }
  }

  lemma {:induction false} CountOnly(rows: seq<Row>, chosen: Row -> bool, i: nat)
    requires OnlyChosen(rows, chosen, i)
    ensures Count(rows, chosen) == 1
  {
    var before := rows[..|rows| - 1];
    if i < |before| {
      CountOnly(before, chosen, i);
    } else {
      CountNone(before, chosen);
    }
  }

  lemma CountOneExactly(rows: seq<Row>, chosen: Row -> bool)
    ensures Count(rows, chosen) == 1 <==> exists i: nat :: OnlyChosen(rows, chosen, i)
  {
    if Count(rows, chosen) == 1 {
      OneChosen(rows, chosen, row => row);
      hide Keep, Change, Count;
      assert OnlyChosen(rows, chosen, LastChosen(rows, chosen));
    }
    if i: nat :| OnlyChosen(rows, chosen, i) {
      CountOnly(rows, chosen, i);
    }
  }

  predicate OneFound(counting: Counting, meta: Meta, kind: Kind, change: RowChange, rows: seq<Row>)
    requires WellFormed(meta) && ValidKey(meta, change.key) && (kind != Deleting ==> ValidValues(meta, change.values))
  {
    exists i :: 0 <= i < |rows| && Found(counting, meta, kind, change, rows[i])
                && forall j | 0 <= j < |rows| && j != i :: !Found(counting, meta, kind, change, rows[j])
  }

  /**
   * A built update or delete goes through exactly when one row, and no other, has its key and, for an update where
   * changed rows are counted, is not already what the update makes of it.
   */
  lemma GoesThroughExactly(counting: Counting, meta: Meta, kind: Kind, change: RowChange, rows: seq<Row>, defaults: Row)
    requires WellFormed(meta) && kind != Inserting && Built(meta, kind, change).Ok?
    ensures ValidChange(meta, kind, change)
    ensures var (statement, params) := Built(meta, kind, change).value;
            && (Applied(counting, meta, kind, change, rows, defaults).Some?
                <==> Affected(counting, statement, params, rows) == 1)
            && (Affected(counting, statement, params, rows) == 1 <==> OneFound(counting, meta, kind, change, rows))
  {
    hide Built, Affected, Effect, Meaning, Found;
    StatementMeansTheChange(counting, meta, kind, change, rows, defaults);
    var found := (row: Row) => Found(counting, meta, kind, change, row);
    CountOneExactly(rows, found);
    if OneFound(counting, meta, kind, change, rows) {
      var i :| 0 <= i < |rows| && Found(counting, meta, kind, change, rows[i])
               && forall j | 0 <= j < |rows| && j != i :: !Found(counting, meta, kind, change, rows[j]);
      assert OnlyChosen(rows, found, i);
    }
  }

  // ----- an update that changes nothing -----

  const EXAMPLE_TABLE := Meta("t", "", [1], map[1 := "id", 2 := "n"], Question)

  const EXAMPLE_UPDATE := RowChange([Cell(1, Some("1"))], [Cell(2, Some("a"))])

  const EXAMPLE_ROW: Row := map["id" := Some("1"), "n" := Some("a")]

  lemma ExampleIsValid()
    ensures WellFormed(EXAMPLE_TABLE) && ValidChange(EXAMPLE_TABLE, Updating, EXAMPLE_UPDATE)
    ensures Hits(EXAMPLE_TABLE, EXAMPLE_UPDATE.key, EXAMPLE_ROW)
    ensures Edited(EXAMPLE_TABLE, EXAMPLE_UPDATE.values, EXAMPLE_ROW) == EXAMPLE_ROW
  {
    assert EXAMPLE_TABLE.columns[1] == "id" && EXAMPLE_TABLE.columns[2] == "n" && "id"[0] != "n"[0];
    assert LastValue(EXAMPLE_UPDATE.key, 1) == Some(Some("1"));
    EditedOneMore(EXAMPLE_TABLE, EXAMPLE_UPDATE.values, EXAMPLE_ROW);
    assert EXAMPLE_UPDATE.values[..0] == [];
    EditedNothing(EXAMPLE_TABLE, EXAMPLE_ROW);
    hide Edited;
  }

  /**
   * An update to the value that is stored is applied where matched rows are counted, and is not where changed ones are.
   */
  lemma StoredValueIsRefused()
    ensures WellFormed(EXAMPLE_TABLE)
    ensures Applied(MatchedRows, EXAMPLE_TABLE, Updating, EXAMPLE_UPDATE, [EXAMPLE_ROW], map[]) == Some([EXAMPLE_ROW])
    ensures Applied(ChangedRows, EXAMPLE_TABLE, Updating, EXAMPLE_UPDATE, [EXAMPLE_ROW], map[]) == None
  {
    ExampleIsValid();
    hide Edited, Hits, ValidChange;
    assert Meaning(EXAMPLE_TABLE, Updating, EXAMPLE_UPDATE, [EXAMPLE_ROW], map[]) == [EXAMPLE_ROW];
    CountOnly([EXAMPLE_ROW], row => Found(MatchedRows, EXAMPLE_TABLE, Updating, EXAMPLE_UPDATE, row), 0);
    CountNone([EXAMPLE_ROW], row => Found(ChangedRows, EXAMPLE_TABLE, Updating, EXAMPLE_UPDATE, row));
  }

  /**
   * Where changed rows are counted, what would be applied goes through exactly when it does not leave the table as
   * it is.
   */
  lemma IdleUpdatesAreRefused(meta: Meta, change: RowChange, rows: seq<Row>, defaults: Row)
    requires WellFormed(meta) && Applied(MatchedRows, meta, Updating, change, rows, defaults).Some?
    ensures var applied := Applied(MatchedRows, meta, Updating, change, rows, defaults);
            Applied(ChangedRows, meta, Updating, change, rows, defaults)
            == if applied.value != rows then applied else None
  {
    hide Edited, Hits;
    var hits, edit := (row: Row) => Hits(meta, change.key, row), (row: Row) => Edited(meta, change.values, row);
    SameKept(rows, row => Found(MatchedRows, meta, Updating, change, row), hits);
    OneChosen(rows, hits, edit);
    var i := LastChosen(rows, hits);
    assert Meaning(meta, Updating, change, rows, defaults) == rows[i := edit(rows[i])];
    hide Meaning, Keep, Change, Count, LastChosen;
    var found := (row: Row) => Found(ChangedRows, meta, Updating, change, row);
    if edit(rows[i]) != rows[i] {
      assert OnlyChosen(rows, found, i);
      CountOnly(rows, found, i);
      assert rows[i := edit(rows[i])][i] != rows[i];
    } else {
      CountNone(rows, found);
      assert rows[i := edit(rows[i])] == rows;
    }
  }

  /** The update's key is that of one row, and of no other. */
  predicate HitsOne(meta: Meta, change: RowChange, rows: seq<Row>)
    requires WellFormed(meta) && ValidKey(meta, change.key)
  {
    Count(rows, row => Hits(meta, change.key, row)) == 1
  }

  /**
   * What goes through where changed rows are counted also does where matched ones are, exactly when one row has
   * the key.
   */
  lemma SharedKeysAreRefused(meta: Meta, change: RowChange, rows: seq<Row>, defaults: Row)
    requires WellFormed(meta) && Applied(ChangedRows, meta, Updating, change, rows, defaults).Some?
    ensures ValidKey(meta, change.key)
    ensures Applied(MatchedRows, meta, Updating, change, rows, defaults)
            == if HitsOne(meta, change, rows) then Applied(ChangedRows, meta, Updating, change, rows, defaults)
               else None
  {
    hide Edited, Hits, Meaning;
    SameKept(rows, row => Found(MatchedRows, meta, Updating, change, row), row => Hits(meta, change.key, row));
  }

  /**
   * Two rows with the key of an update, one of which is already as it should be: only counting changed rows lets
   * it pass.
   */
  lemma SharedKeyIsApplied()
    ensures WellFormed(EXAMPLE_TABLE)
    ensures var rows := [EXAMPLE_ROW, EXAMPLE_ROW["n" := Some("b")]];
            && Applied(MatchedRows, EXAMPLE_TABLE, Updating, EXAMPLE_UPDATE, rows, map[]) == None
            && Applied(ChangedRows, EXAMPLE_TABLE, Updating, EXAMPLE_UPDATE, rows, map[])
               == Some([EXAMPLE_ROW, EXAMPLE_ROW])
  {
    ExampleIsValid();
    var other := EXAMPLE_ROW["n" := Some("b")];
    var rows := [EXAMPLE_ROW, other];
    OtherIsEdited(other);
    hide Edited, Hits, ValidChange;
    assert Meaning(EXAMPLE_TABLE, Updating, EXAMPLE_UPDATE, rows, map[]) == [EXAMPLE_ROW, EXAMPLE_ROW];
    CountOnly(rows, row => Found(ChangedRows, EXAMPLE_TABLE, Updating, EXAMPLE_UPDATE, row), 1);
    var found := (row: Row) => Found(MatchedRows, EXAMPLE_TABLE, Updating, EXAMPLE_UPDATE, row);
    assert found(rows[0]) && found(rows[1]);
    CountOneExactly(rows, found);
  }

  lemma OtherIsEdited(other: Row)
    requires other == EXAMPLE_ROW["n" := Some("b")]
    ensures WellFormed(EXAMPLE_TABLE) && ValidChange(EXAMPLE_TABLE, Updating, EXAMPLE_UPDATE)
    ensures Hits(EXAMPLE_TABLE, EXAMPLE_UPDATE.key, other)
    ensures Edited(EXAMPLE_TABLE, EXAMPLE_UPDATE.values, other) == EXAMPLE_ROW != other
  {
    ExampleIsValid();
    assert "id"[0] != "n"[0] && "a"[0] != "b"[0];
    assert LastValue(EXAMPLE_UPDATE.key, 1) == Some(Some("1"));
    EditedOneMore(EXAMPLE_TABLE, EXAMPLE_UPDATE.values, other);
    assert EXAMPLE_UPDATE.values[..0] == [];
    EditedNothing(EXAMPLE_TABLE, other);
    assert EXAMPLE_ROW["n"] == Some("a") && other["n"] == Some("b") && other["n" := Some("a")] == EXAMPLE_ROW;
    hide Edited;
  }

  lemma OtherKindsCountAlike(meta: Meta, kind: Kind, change: RowChange, rows: seq<Row>, defaults: Row)
    requires WellFormed(meta) && kind != Updating
    ensures Applied(ChangedRows, meta, kind, change, rows, defaults)
            == Applied(MatchedRows, meta, kind, change, rows, defaults)
  {
    hide Hits, Edited, Meaning;
    if ValidChange(meta, kind, change) && kind == Deleting {
      DeletesCountHits(MatchedRows, meta, change, rows);
      DeletesCountHits(ChangedRows, meta, change, rows);
    }
  }

  // ----- a whole save -----

  /** No update leaves the table, as it is when its turn comes, as it is. */
  ghost predicate NoneIdle(meta: Meta, updates: seq<RowChange>, rows: seq<Row>, defaults: Row)
    requires WellFormed(meta)
  {
    updates == [] ||
    (NoneIdle(meta, updates[..|updates| - 1], rows, defaults)
     && AllApplied(MatchedRows, meta, Updating, updates, rows, defaults)
        != AllApplied(MatchedRows, meta, Updating, updates[..|updates| - 1], rows, defaults))
  }

  lemma {:induction false} AllUpdatesExactly(meta: Meta, updates: seq<RowChange>, rows: seq<Row>, defaults: Row)
    requires WellFormed(meta) && AllApplied(MatchedRows, meta, Updating, updates, rows, defaults).Some?
    ensures AllApplied(ChangedRows, meta, Updating, updates, rows, defaults)
            == if NoneIdle(meta, updates, rows, defaults)
               then AllApplied(MatchedRows, meta, Updating, updates, rows, defaults)
               else None
  {
    if updates != [] {
      hide Applied;
      var before := updates[..|updates| - 1];
      AllUpdatesExactly(meta, before, rows, defaults);
      IdleUpdatesAreRefused(meta, updates[|updates| - 1],
                            AllApplied(MatchedRows, meta, Updating, before, rows, defaults).value, defaults);
    }
  }

  lemma {:induction false} AllOthersAlike(meta: Meta, kind: Kind, changes: seq<RowChange>, rows: seq<Row>,
                                          defaults: Row)
    requires WellFormed(meta) && kind != Updating
    ensures AllApplied(ChangedRows, meta, kind, changes, rows, defaults)
            == AllApplied(MatchedRows, meta, kind, changes, rows, defaults)
  {
    if changes != [] {
      hide Applied;
      var before := AllApplied(MatchedRows, meta, kind, changes[..|changes| - 1], rows, defaults);
      AllOthersAlike(meta, kind, changes[..|changes| - 1], rows, defaults);
      if before.Some? {
        OtherKindsCountAlike(meta, kind, changes[|changes| - 1], before.value, defaults);
      }
    }
  }

  /** The key of every update is that of one row when its turn comes. */
  ghost predicate AllHitOne(meta: Meta, updates: seq<RowChange>, rows: seq<Row>, defaults: Row)
    requires WellFormed(meta)
  {
    updates == [] ||
    (AllHitOne(meta, updates[..|updates| - 1], rows, defaults)
     && var before := AllApplied(ChangedRows, meta, Updating, updates[..|updates| - 1], rows, defaults);
     var last := updates[|updates| - 1];
     before.Some? && ValidKey(meta, last.key) && HitsOne(meta, last, before.value))
  }

  lemma {:induction false} AllMatchedExactly(meta: Meta, updates: seq<RowChange>, rows: seq<Row>, defaults: Row)
    requires WellFormed(meta) && AllApplied(ChangedRows, meta, Updating, updates, rows, defaults).Some?
    ensures AllApplied(MatchedRows, meta, Updating, updates, rows, defaults)
            == if AllHitOne(meta, updates, rows, defaults)
               then AllApplied(ChangedRows, meta, Updating, updates, rows, defaults)
               else None
  {
    if updates != [] {
      hide Applied, HitsOne;
      var before := updates[..|updates| - 1];
      AllMatchedExactly(meta, before, rows, defaults);
      SharedKeysAreRefused(meta, updates[|updates| - 1],
                           AllApplied(ChangedRows, meta, Updating, before, rows, defaults).value, defaults);
    }
  }

  /**
   * A request whose deletes and updates all find one row goes through on a connection that counts changed rows exactly
   * when none of its updates leaves the table as it is, and then does the same.
   */
  lemma SavesByCounting(meta: Meta, changes: Changes, rows: seq<Row>, defaults: Row)
    requires WellFormed(meta) && Saved(MatchedRows, meta, changes, rows, defaults).Some?
    ensures var deleted := AllApplied(MatchedRows, meta, Deleting, changes.deletes, rows, defaults);
            && deleted.Some?
            && Saved(ChangedRows, meta, changes, rows, defaults)
               == if NoneIdle(meta, changes.updates, deleted.value, defaults)
                  then Saved(MatchedRows, meta, changes, rows, defaults) else None
  {
    hide AllApplied, NoneIdle;
    var deleted := AllApplied(MatchedRows, meta, Deleting, changes.deletes, rows, defaults).value;
    var updated := AllApplied(MatchedRows, meta, Updating, changes.updates, deleted, defaults).value;
    AllOthersAlike(meta, Deleting, changes.deletes, rows, defaults);
    AllUpdatesExactly(meta, changes.updates, deleted, defaults);
    AllOthersAlike(meta, Inserting, changes.inserts, updated, defaults);
  }

  /**
   * A request that goes through on a connection that counts changed rows goes through on one that counts matched rows
   * exactly when every update finds one row alone that has its key, as it does in a table that keeps its keys unique,
   * and then does the same.
   */
  lemma SavesByMatching(meta: Meta, changes: Changes, rows: seq<Row>, defaults: Row)
    requires WellFormed(meta) && Saved(ChangedRows, meta, changes, rows, defaults).Some?
    ensures var deleted := AllApplied(ChangedRows, meta, Deleting, changes.deletes, rows, defaults);
            && deleted.Some?
            && Saved(MatchedRows, meta, changes, rows, defaults)
               == if AllHitOne(meta, changes.updates, deleted.value, defaults)
                  then Saved(ChangedRows, meta, changes, rows, defaults) else None
  {
    hide AllApplied, AllHitOne;
    var deleted := AllApplied(ChangedRows, meta, Deleting, changes.deletes, rows, defaults).value;
    var updated := AllApplied(ChangedRows, meta, Updating, changes.updates, deleted, defaults).value;
    AllOthersAlike(meta, Deleting, changes.deletes, rows, defaults);
    AllMatchedExactly(meta, changes.updates, deleted, defaults);
    AllOthersAlike(meta, Inserting, changes.inserts, updated, defaults);
  }
}
