/** Saving edited rows: deletes, then updates, then inserts, in a transaction of their own or in the open one. */
module TableSaves {
  import opened TextLines
  import opened TableEdits
  import opened TableMeanings

  // ----- what saving should do, change by change -----

  /** The table after one change; none when the change is invalid or the affected rows are not one. */
  ghost function Applied(counting: Counting, meta: Meta, kind: Kind, change: RowChange, rows: seq<Row>,
                         defaults: Row): Option<seq<Row>>
    requires WellFormed(meta)
  {
    if ValidChange(meta, kind, change) && FoundCount(counting, meta, kind, change, rows) == 1
    then Some(Meaning(meta, kind, change, rows, defaults))
    else None
  }

  ghost function AllApplied(counting: Counting, meta: Meta, kind: Kind, changes: seq<RowChange>, rows: seq<Row>,
                            defaults: Row): Option<seq<Row>>
    requires WellFormed(meta)
  {
    if changes == [] then Some(rows)
    else
      var before := AllApplied(counting, meta, kind, changes[..|changes| - 1], rows, defaults);
      if before.None? then None else Applied(counting, meta, kind, changes[|changes| - 1], before.value, defaults)
  }

  ghost function Saved(counting: Counting, meta: Meta, changes: Changes, rows: seq<Row>,
                       defaults: Row): Option<seq<Row>>
    requires WellFormed(meta)
  {
    var deleted := AllApplied(counting, meta, Deleting, changes.deletes, rows, defaults);
    if deleted.None? then None
    else
      var updated := AllApplied(counting, meta, Updating, changes.updates, deleted.value, defaults);
      if updated.None? then None
      else AllApplied(counting, meta, Inserting, changes.inserts, updated.value, defaults)
  }

  // ----- laws of saving -----

  lemma {:induction false} CountsRows(rows: seq<Row>, chosen: Row -> bool)
    ensures |Keep(rows, chosen)| + Count(rows, chosen) == |rows|
  {
    if rows != [] {
      CountsRows(rows[..|rows| - 1], chosen);
    }
  }

  lemma DeletedIsValid(counting: Counting, meta: Meta, change: RowChange, rows: seq<Row>, defaults: Row)
    requires WellFormed(meta) && Applied(counting, meta, Deleting, change, rows, defaults).Some?
    ensures ValidKey(meta, change.key) && Count(rows, row => Hits(meta, change.key, row)) == 1
  {
    DeletesCountHits(counting, meta, change, rows);
  }

  lemma {:induction false} AllAppliedCounts(counting: Counting, meta: Meta, kind: Kind, changes: seq<RowChange>,
                                            rows: seq<Row>, defaults: Row)
    requires WellFormed(meta) && AllApplied(counting, meta, kind, changes, rows, defaults).Some?
    ensures var after := AllApplied(counting, meta, kind, changes, rows, defaults).value;
            |after| == match kind {
              case Deleting => |rows| - |changes|
              case Updating => |rows|
              case Inserting => |rows| + |changes|
            }
  {
    if changes != [] {
      hide Hits, Edited, ValidChange;
      var before, last := changes[..|changes| - 1], changes[|changes| - 1];
      AllAppliedCounts(counting, meta, kind, before, rows, defaults);
      if kind == Deleting {
        DeletedIsValid(counting, meta, last, AllApplied(counting, meta, kind, before, rows, defaults).value, defaults);
        CountsRows(AllApplied(counting, meta, kind, before, rows, defaults).value, row => Hits(meta, last.key, row));
      }
    }
  }

  /** A successful save changes the number of rows by exactly what was asked for. */
  lemma SavedCounts(counting: Counting, meta: Meta, changes: Changes, rows: seq<Row>, defaults: Row)
    requires WellFormed(meta) && Saved(counting, meta, changes, rows, defaults).Some?
    ensures |Saved(counting, meta, changes, rows, defaults).value| == |rows| - |changes.deletes| + |changes.inserts|
  {
    hide AllApplied;
    var deleted := AllApplied(counting, meta, Deleting, changes.deletes, rows, defaults).value;
    var updated := AllApplied(counting, meta, Updating, changes.updates, deleted, defaults).value;
    AllAppliedCounts(counting, meta, Deleting, changes.deletes, rows, defaults);
    AllAppliedCounts(counting, meta, Updating, changes.updates, deleted, defaults);
    AllAppliedCounts(counting, meta, Inserting, changes.inserts, updated, defaults);
  }

  // ----- the kinds come one after the other, and so do the changes of a kind -----

  /** Saving one part of a request and then another. */
  ghost function Then(counting: Counting, meta: Meta, first: Changes, second: Changes, rows: seq<Row>, defaults: Row)
    : Option<seq<Row>>
    requires WellFormed(meta)
  {
    var between := Saved(counting, meta, first, rows, defaults);
    if between.None? then None else Saved(counting, meta, second, between.value, defaults)
  }

  /** All deletes come before all updates, and all updates before all inserts. */
  lemma DeletesThenUpdatesThenInserts(counting: Counting, meta: Meta, changes: Changes, rows: seq<Row>, defaults: Row)
    requires WellFormed(meta)
    ensures Saved(counting, meta, changes, rows, defaults)
            == Then(counting, meta, Changes(changes.deletes, [], []), Changes([], changes.updates, changes.inserts),
                    rows, defaults)
            == Then(counting, meta, Changes(changes.deletes, changes.updates, []), Changes([], [], changes.inserts),
                    rows, defaults)
  {
    hide Applied;
  }

  lemma {:induction false} AppliedInOrder(counting: Counting, meta: Meta, kind: Kind, a: seq<RowChange>,
                                          b: seq<RowChange>, rows: seq<Row>, defaults: Row)
    requires WellFormed(meta)
    ensures var between := AllApplied(counting, meta, kind, a, rows, defaults);
            AllApplied(counting, meta, kind, a + b, rows, defaults)
            == if between.None? then None else AllApplied(counting, meta, kind, b, between.value, defaults)
  {
    hide Applied;
    if b == [] {
      assert a + b == a;
    } else {
      assert (a + b)[..|a + b| - 1] == a + b[..|b| - 1] && (a + b)[|a + b| - 1] == b[|b| - 1];
      AppliedInOrder(counting, meta, kind, a, b[..|b| - 1], rows, defaults);
    }
  }

  /** The changes of each kind are made in the order of the request. */
  lemma SavedInOrder(counting: Counting, meta: Meta, a: seq<RowChange>, b: seq<RowChange>, rows: seq<Row>,
                     defaults: Row)
    requires WellFormed(meta)
    ensures Saved(counting, meta, Changes(a + b, [], []), rows, defaults)
            == Then(counting, meta, Changes(a, [], []), Changes(b, [], []), rows, defaults)
    ensures Saved(counting, meta, Changes([], a + b, []), rows, defaults)
            == Then(counting, meta, Changes([], a, []), Changes([], b, []), rows, defaults)
    ensures Saved(counting, meta, Changes([], [], a + b), rows, defaults)
            == Then(counting, meta, Changes([], [], a), Changes([], [], b), rows, defaults)
  {
    DeletedInOrder(counting, meta, a, b, rows, defaults);
    UpdatedInOrder(counting, meta, a, b, rows, defaults);
    InsertedInOrder(counting, meta, a, b, rows, defaults);
    hide Saved;
  }

  lemma DeletedInOrder(counting: Counting, meta: Meta, a: seq<RowChange>, b: seq<RowChange>, rows: seq<Row>,
                       defaults: Row)
    requires WellFormed(meta)
    ensures Saved(counting, meta, Changes(a + b, [], []), rows, defaults)
            == Then(counting, meta, Changes(a, [], []), Changes(b, [], []), rows, defaults)
  {
    AppliedInOrder(counting, meta, Deleting, a, b, rows, defaults);
    NothingApplied(counting, meta, defaults);
    hide AllApplied;
  }

  lemma UpdatedInOrder(counting: Counting, meta: Meta, a: seq<RowChange>, b: seq<RowChange>, rows: seq<Row>,
                       defaults: Row)
    requires WellFormed(meta)
    ensures Saved(counting, meta, Changes([], a + b, []), rows, defaults)
            == Then(counting, meta, Changes([], a, []), Changes([], b, []), rows, defaults)
  {
    AppliedInOrder(counting, meta, Updating, a, b, rows, defaults);
    NothingApplied(counting, meta, defaults);
    hide AllApplied;
  }

  lemma InsertedInOrder(counting: Counting, meta: Meta, a: seq<RowChange>, b: seq<RowChange>, rows: seq<Row>,
                        defaults: Row)
    requires WellFormed(meta)
    ensures Saved(counting, meta, Changes([], [], a + b), rows, defaults)
            == Then(counting, meta, Changes([], [], a), Changes([], [], b), rows, defaults)
  {
    AppliedInOrder(counting, meta, Inserting, a, b, rows, defaults);
    NothingApplied(counting, meta, defaults);
    hide AllApplied;
  }

  lemma NothingApplied(counting: Counting, meta: Meta, defaults: Row)
    requires WellFormed(meta)
    ensures forall kind, rows: seq<Row> :: AllApplied(counting, meta, kind, [], rows, defaults) == Some(rows)
  {
  }

  /** No delete and no update is about the row. */
  ghost predicate Untouched(meta: Meta, changes: seq<RowChange>, row: Row)
    requires WellFormed(meta)
  {
    forall change | change in changes && ValidKey(meta, change.key) :: !Hits(meta, change.key, row)
  }

  /** The index of the last chosen row. */
  function LastChosen(rows: seq<Row>, chosen: Row -> bool): (i: nat)
    requires Count(rows, chosen) > 0
    ensures i < |rows| && chosen(rows[i])
  {
    if chosen(rows[|rows| - 1]) then |rows| - 1 else LastChosen(rows[..|rows| - 1], chosen)
  }

  lemma {:induction false} NoneChosen(rows: seq<Row>, chosen: Row -> bool)
    requires Count(rows, chosen) == 0
    ensures Keep(rows, chosen) == rows
    ensures forall i | 0 <= i < |rows| :: !chosen(rows[i])
  {
    if rows != [] {
      var before := rows[..|rows| - 1];
      NoneChosen(before, chosen);
      assert rows == before + [rows[|rows| - 1]];
      assert forall i | 0 <= i < |before| :: rows[i] == before[i];
    }
  }

  lemma {:induction false} OneChosenIndex(rows: seq<Row>, chosen: Row -> bool, j: nat)
    requires Count(rows, chosen) == 1 && j < |rows|
    ensures chosen(rows[j]) <==> j == LastChosen(rows, chosen)
  {
    var before := rows[..|rows| - 1];
    if chosen(rows[|rows| - 1]) {
      NoneChosen(before, chosen);
      assert j < |before| ==> rows[j] == before[j];
    } else if j < |before| {
      OneChosenIndex(before, chosen, j);
    }
  }

  lemma {:induction false} OneDropped(rows: seq<Row>, chosen: Row -> bool)
    requires Count(rows, chosen) == 1
    ensures var i := LastChosen(rows, chosen); Keep(rows, chosen) == rows[..i] + rows[i + 1..]
  {
    var before, last, i := rows[..|rows| - 1], rows[|rows| - 1], LastChosen(rows, chosen);
    if chosen(last) {
      NoneChosen(before, chosen);
      assert Keep(rows, chosen) == before;
      assert rows[i + 1..] == [];
    } else {
      OneDropped(before, chosen);
      assert Keep(rows, chosen) == Keep(before, chosen) + [last];
      assert rows[..i] == before[..i] && rows[i + 1..] == before[i + 1..] + [last];
    }
  }

  /** When one row is found, exactly this row is taken out or changed, and every other row stays where it is. */
  lemma OneChosen(rows: seq<Row>, chosen: Row -> bool, change: Row -> Row)
    requires Count(rows, chosen) == 1
    ensures var i := LastChosen(rows, chosen);
            && (forall j | 0 <= j < |rows| :: chosen(rows[j]) <==> j == i)
            && Keep(rows, chosen) == rows[..i] + rows[i + 1..]
            && Change(rows, chosen, change) == rows[i := change(rows[i])]
  {
    OneDropped(rows, chosen);
    forall j | 0 <= j < |rows|
      ensures chosen(rows[j]) <==> j == LastChosen(rows, chosen)
    {
      OneChosenIndex(rows, chosen, j);
    }
    hide Count, Keep;
  }

  lemma UnchosenStays(rows: seq<Row>, chosen: Row -> bool, change: Row -> Row, j: nat)
    requires j < |rows| && !chosen(rows[j])
    ensures rows[j] in Change(rows, chosen, change)
  {
    assert Change(rows, chosen, change)[j] == rows[j];
  }

  lemma AppliedKeepsUntouched(counting: Counting, meta: Meta, kind: Kind, change: RowChange, rows: seq<Row>,
                              defaults: Row, row: Row)
    requires WellFormed(meta) && Applied(counting, meta, kind, change, rows, defaults).Some?
    requires row in rows && (kind == Inserting || !Hits(meta, change.key, row))
    ensures row in Applied(counting, meta, kind, change, rows, defaults).value
  {
    hide Hits, Edited, Keep, Change, Count;
    match kind
    case Deleting =>
      DeletedIsValid(counting, meta, change, rows, defaults);
      var chosen := (r: Row) => Hits(meta, change.key, r);
      OneChosen(rows, chosen, r => r);
      var j :| 0 <= j < |rows| && rows[j] == row;
    case Updating =>
      var j := UntouchedIndex(rows, row);
      UnchosenStays(rows, r => Hits(meta, change.key, r), r => Edited(meta, change.values, r), j);
    case Inserting =>
  }

  ghost function UntouchedIndex(rows: seq<Row>, row: Row): (i: nat)
    requires row in rows
    ensures i < |rows| && rows[i] == row
  {
    var i :| 0 <= i < |rows| && rows[i] == row;
    i
  }

  lemma {:induction false} UntouchedByAll(counting: Counting, meta: Meta, kind: Kind, changes: seq<RowChange>,
                                          rows: seq<Row>, defaults: Row, row: Row)
    requires WellFormed(meta) && AllApplied(counting, meta, kind, changes, rows, defaults).Some?
    requires row in rows && (kind == Inserting || Untouched(meta, changes, row))
    ensures row in AllApplied(counting, meta, kind, changes, rows, defaults).value
  {
    if changes != [] {
      hide Hits, Applied;
      var before, last := changes[..|changes| - 1], changes[|changes| - 1];
      assert forall change | change in before :: change in changes;
      UntouchedByAll(counting, meta, kind, before, rows, defaults, row);
      AppliedIsValid(counting, meta, kind, last, AllApplied(counting, meta, kind, before, rows, defaults).value,
                     defaults);
      assert last in changes;
      AppliedKeepsUntouched(counting, meta, kind, last, AllApplied(counting, meta, kind, before, rows, defaults).value,
                            defaults, row);
    }
  }

  lemma AppliedIsValid(counting: Counting, meta: Meta, kind: Kind, change: RowChange, rows: seq<Row>, defaults: Row)
    requires WellFormed(meta) && Applied(counting, meta, kind, change, rows, defaults).Some?
    ensures kind != Inserting ==> ValidKey(meta, change.key)
  {
  }

  /** Rows that no delete and no update is about survive a save unchanged. */
  lemma SavedKeepsUntouchedRows(counting: Counting, meta: Meta, changes: Changes, rows: seq<Row>, defaults: Row,
                                row: Row)
    requires WellFormed(meta) && Saved(counting, meta, changes, rows, defaults).Some?
    requires row in rows && Untouched(meta, changes.deletes, row) && Untouched(meta, changes.updates, row)
    ensures row in Saved(counting, meta, changes, rows, defaults).value
  {
    hide AllApplied, Untouched;
    var deleted := AllApplied(counting, meta, Deleting, changes.deletes, rows, defaults).value;
    var updated := AllApplied(counting, meta, Updating, changes.updates, deleted, defaults).value;
    UntouchedByAll(counting, meta, Deleting, changes.deletes, rows, defaults, row);
    UntouchedByAll(counting, meta, Updating, changes.updates, deleted, defaults, row);
    UntouchedByAll(counting, meta, Inserting, changes.inserts, updated, defaults, row);
  }

  // ----- the database connection -----

  /** The table as others see it and as the connection sees it. */
  datatype Tables = Tables(committed: seq<Row>, working: seq<Row>, inTransaction: bool, lost: bool)

  /** The contract of a connection to a database that holds the edited table. Any call may lose the connection. */
  class Connection {
    var committed: seq<Row>
    var working: seq<Row>
    var inTransaction: bool
    var lost: bool
    const counting: Counting
    const defaults: Row

    function View(): Tables
      reads this
    {
      Tables(committed, working, inTransaction, lost)
    }

    constructor (rows: seq<Row>, defaults: Row, counting: Counting)
      ensures View() == Tables(rows, rows, false, false) && this.defaults == defaults && this.counting == counting
    {
      committed, working, inTransaction, lost := rows, rows, false, false;
      this.defaults, this.counting := defaults, counting;
    }

    method Begin() returns (ok: bool)
      requires !inTransaction
      modifies this
      ensures committed == old(committed) && inTransaction == ok
      ensures working == if ok then committed else old(working)
      ensures ok ==> !lost
    {
      ok := *;
      lost := *;
      ok := ok && !lost;
      if ok {
        working, inTransaction := committed, true;
      }
    }

    /** Executes one statement: the number of affected rows, or none when the database refuses or fails. */
    method Exec(statement: Statement, params: Params) returns (affected: Option<nat>)
      requires inTransaction && WellFormedStatement(statement)
      modifies this`working, this`lost
      ensures affected.Some? ==> working == Effect(statement, params, old(working), defaults)
                                 && affected.value == Affected(counting, statement, params, old(working))
                                 && lost == old(lost)
    {
      if * {
        working, lost := *, *;
        return None;
      }
      affected := Some(Affected(counting, statement, params, working));
      working := Effect(statement, params, working, defaults);
    }

    /** A rollback that cannot be executed loses the connection; the database then drops the transaction. */
    method Rollback()
      requires inTransaction
      modifies this
      ensures committed == old(committed)
      ensures !lost ==> !inTransaction && working == committed
    {
      lost := *;
      if lost {
        working, inTransaction := *, *;
      } else {
        working, inTransaction := committed, false;
      }
    }

    /** When the confirmation of a commit is lost, the transaction may or may not have taken effect. */
    method Commit() returns (ok: bool)
      requires inTransaction
      modifies this
      ensures !inTransaction && working == committed
      ensures if ok then committed == old(working) && lost == old(lost)
              else committed == old(working) || committed == old(committed)
    {
      var happened: bool := *;
      ok := *;
      inTransaction := false;
      if ok || happened {
        committed := working;
      } else {
        working := committed;
      }
      if !ok {
        lost := *;
      }
    }
  }

  // ----- saving -----

  datatype Counts = Counts(deleted: nat, updated: nat, inserted: nat)

  datatype Cause = Invalid(error: Error) | Refused | RowNotFound

  datatype Failure =
    | NothingToSave
    | ConnectionLost
    | TransactionFailed
    | NoTable
    | NotBegun
    | AtRow(kind: Kind, position: nat, cause: Cause)
    | NotCommitted

  /** The first change that cannot be applied, by its place in the request. */
  ghost predicate FailsAt(counting: Counting, meta: Meta, kind: Kind, changes: seq<RowChange>, rows: seq<Row>,
                          defaults: Row, position: nat)
    requires WellFormed(meta)
  {
    && 0 < position <= |changes|
    && var before := AllApplied(counting, meta, kind, changes[..position - 1], rows, defaults);
       before.Some? && Applied(counting, meta, kind, changes[position - 1], before.value, defaults).None?
  }

  lemma {:induction false} FailedStaysFailed(counting: Counting, meta: Meta, kind: Kind, changes: seq<RowChange>,
                                             rows: seq<Row>, defaults: Row, n: nat)
    requires WellFormed(meta) && n <= |changes| && AllApplied(counting, meta, kind, changes[..n], rows, defaults).None?
    ensures AllApplied(counting, meta, kind, changes, rows, defaults).None?
  {
    if n == |changes| {
      assert changes[..n] == changes;
    } else {
      assert changes[..|changes| - 1][..n] == changes[..n];
      FailedStaysFailed(counting, meta, kind, changes[..|changes| - 1], rows, defaults, n);
    }
  }

  method Build(meta: Meta, kind: Kind, change: RowChange) returns (r: Result<(Statement, Params), Error>)
    ensures r == Built(meta, kind, change)
  {
    match kind
    case Deleting => r := DeleteStatement(meta, change);
    case Updating => r := UpdateStatement(meta, change);
    case Inserting => r := InsertStatement(meta, change);
  }

  /** One of the three kinds of operation; `counter` counts the changes that have been executed. */
  method ApplyOperation(meta: Meta, kind: Kind, changes: seq<RowChange>, connection: Connection)
    returns (failure: Option<Failure>, counter: nat)
    requires WellFormed(meta) && connection.inTransaction
    modifies connection`working, connection`lost
    ensures failure.None? ==>
              AllApplied(connection.counting, meta, kind, changes, old(connection.working), connection.defaults)
                == Some(connection.working)
              && counter == |changes|
    ensures failure.Some?
            ==> failure.value.AtRow? && failure.value.kind == kind && 0 < failure.value.position <= |changes|
    ensures failure.Some? && failure.value.cause != Refused ==>
              FailsAt(connection.counting, meta, kind, changes, old(connection.working), connection.defaults,
                      failure.value.position)
              && AllApplied(connection.counting, meta, kind, changes, old(connection.working),
                            connection.defaults).None?
  {
    hide Applied;
    counter := 0;
    ghost var rows, defaults := connection.working, connection.defaults;
    for i := 0 to |changes|
      invariant counter == i && connection.inTransaction
      invariant AllApplied(connection.counting, meta, kind, changes[..i], rows, defaults) == Some(connection.working)
    {
      var change := changes[i];
      ghost var next := AllApplied(connection.counting, meta, kind, changes[..i + 1], rows, defaults);
      assert changes[..i + 1][..i] == changes[..i];
      assert next == Applied(connection.counting, meta, kind, change, connection.working, defaults);
      var built := Build(meta, kind, change);
      AppliedByStatement(connection.counting, meta, kind, change, connection.working, defaults);
      if built.Err? {
        FailedStaysFailed(connection.counting, meta, kind, changes, rows, defaults, i + 1);
        return Some(AtRow(kind, i + 1, Invalid(built.error))), counter;
      }
      var (statement, params) := built.value;
      var affected := connection.Exec(statement, params);
      if affected.None? {
        return Some(AtRow(kind, i + 1, Refused)), counter;
      }
      if kind != Inserting && affected.value != 1 {
        FailedStaysFailed(connection.counting, meta, kind, changes, rows, defaults, i + 1);
        return Some(AtRow(kind, i + 1, RowNotFound)), counter;
      }
      counter := counter + 1;
    }
    assert changes[..|changes|] == changes;
    failure := None;
  }

  lemma AppliedByStatement(counting: Counting, meta: Meta, kind: Kind, change: RowChange, rows: seq<Row>, defaults: Row)
    requires WellFormed(meta)
    ensures var built := Built(meta, kind, change);
            if built.Err? then Applied(counting, meta, kind, change, rows, defaults).None?
            else
              && WellFormedStatement(built.value.0)
              && (if kind == Inserting || Affected(counting, built.value.0, built.value.1, rows) == 1
                  then Applied(counting, meta, kind, change, rows, defaults)
                       == Some(Effect(built.value.0, built.value.1, rows, defaults))
                  else Applied(counting, meta, kind, change, rows, defaults).None?)
  {
    hide Built, Effect, Affected, Meaning, ValidChange;
    BuiltExactlyWhenValid(meta, kind, change);
    if Built(meta, kind, change).Ok? {
      StatementMeansTheChange(counting, meta, kind, change, rows, defaults);
    }
  }

  /** Deletes, then updates, then inserts; stops at the first failure. */
  method ApplyTableChanges(meta: Meta, changes: Changes, connection: Connection)
    returns (failure: Option<Failure>, counts: Counts)
    requires WellFormed(meta) && connection.inTransaction
    modifies connection`working, connection`lost
    ensures failure.None? ==>
              Saved(connection.counting, meta, changes, old(connection.working), connection.defaults)
                == Some(connection.working)
              && counts == Counts(|changes.deletes|, |changes.updates|, |changes.inserts|)
    ensures failure.Some? ==> failure.value.AtRow?
    ensures failure.Some? && failure.value.cause != Refused ==>
              Saved(connection.counting, meta, changes, old(connection.working), connection.defaults).None?
  {
    hide AllApplied, FailsAt;
    counts := Counts(0, 0, 0);
    var counter: nat;
    failure, counter := ApplyOperation(meta, Deleting, changes.deletes, connection);
    counts := counts.(deleted := counter);
    if failure.Some? {
      return;
    }
    failure, counter := ApplyOperation(meta, Updating, changes.updates, connection);
    counts := counts.(updated := counter);
    if failure.Some? {
      return;
    }
    failure, counter := ApplyOperation(meta, Inserting, changes.inserts, connection);
    counts := counts.(inserted := counter);
  }

  datatype Saving = Saving(counts: Counts, committed: bool)

  /** The failure is reported as the request's fault: a change is invalid or does not find its row. */
  predicate RequestAtFault(failure: Failure) {
    failure.AtRow? && failure.cause != Refused
  }

  /**
   * In a transaction of its own a save is all or nothing: on success the committed table is the whole request applied
   * in order, on a failure before the commit nothing has changed, and when only the confirmation of the commit is lost
   * the table is one of the two. In an open transaction nothing is committed and, unless the connection is lost, the
   * transaction stays open. A failure that the database did not cause means that some change is invalid or does not
   * affect one row, as the connection counts them.
   */
  ghost predicate AllOrNothing(counting: Counting, meta: Meta, changes: Changes, defaults: Row, before: Tables,
                               after: Tables, r: Result<Saving, Failure>)
    requires WellFormed(meta)
  {
    var own := !before.inTransaction;
    var saved := Saved(counting, meta, changes, before.working, defaults);
    && (!after.lost ==> after.inTransaction == before.inTransaction && (own ==> after.working == after.committed))
    && (!own ==> after.committed == before.committed)
    && match r {
         case Ok(saving) =>
           && saved == Some(after.working)
           && (own ==> after.committed == after.working)
           && saving.committed == own
           && saving.counts == Counts(|changes.deletes|, |changes.updates|, |changes.inserts|)
         case Err(failure) =>
           if failure == NotCommitted
           then own && (after.committed == before.committed || saved == Some(after.committed))
           else after.committed == before.committed && (RequestAtFault(failure) ==> saved.None?)
       }
  }

  /** A save through `database/sql`, for a table that an earlier query has made editable. */
  method SaveChanges(table: Option<Meta>, changes: Changes, connection: Connection)
    returns (r: Result<Saving, Failure>)
    requires table.Some? ==> WellFormed(table.value)
    requires !connection.inTransaction ==> connection.working == connection.committed
    modifies connection
    ensures table.None? ==> r == Err(NoTable) && unchanged(connection)
    ensures table.Some? ==> AllOrNothing(connection.counting, table.value, changes, connection.defaults,
                                         old(connection.View()), connection.View(), r)
  {
    hide Saved;
    if table.None? {
      return Err(NoTable);
    }
    var ownTransaction := !connection.inTransaction;
    if ownTransaction {
      var begun := connection.Begin();
      if !begun {
        return Err(NotBegun);
      }
    }
    var failure, counts := ApplyTableChanges(table.value, changes, connection);
    if failure.Some? {
      if ownTransaction {
        connection.Rollback();
      }
      return Err(failure.value);
    }
    if ownTransaction {
      var ok := connection.Commit();
      if !ok {
        return Err(NotCommitted);
      }
    }
    return Ok(Saving(counts, ownTransaction));
  }

  /** A save through a PostgreSQL connection, which loads the table inside the transaction. */
  method SaveTableChanges(loaded: Option<Meta>, changes: Changes, connection: Connection, lost: bool, failed: bool)
    returns (r: Result<Saving, Failure>)
    requires loaded.Some? ==> WellFormed(loaded.value)
    requires !connection.inTransaction ==> connection.working == connection.committed
    modifies connection
    ensures changes.deletes == changes.updates == changes.inserts == [] <==> r == Err(NothingToSave)
    ensures r == Err(ConnectionLost) <==> r != Err(NothingToSave) && lost
    ensures r == Err(TransactionFailed) <==> r != Err(NothingToSave) && !lost && failed
    ensures r == Err(NotBegun) ==> !old(connection.inTransaction)
    ensures r == Err(NoTable) ==> loaded.None?
    ensures r != Err(NothingToSave) && !lost && !failed && loaded.None? ==> r == Err(NoTable) || r == Err(NotBegun)
    ensures r.Ok? ==> !lost && !failed && loaded.Some?
    ensures lost || failed || loaded.None? ==>
              connection.committed == old(connection.committed)
              && (connection.lost || connection.inTransaction == old(connection.inTransaction))
    ensures loaded.Some? ==> AllOrNothing(connection.counting, loaded.value, changes, connection.defaults,
                                          old(connection.View()), connection.View(), r)
  {
    hide Saved;
    if |changes.updates| + |changes.deletes| + |changes.inserts| == 0 {
      return Err(NothingToSave);
    }
    if lost {
      return Err(ConnectionLost);
    }
    if failed {
      return Err(TransactionFailed);
    }
    var ownTransaction := !connection.inTransaction;
    if ownTransaction {
      var begun := connection.Begin();
      if !begun {
        return Err(NotBegun);
      }
    }
    if loaded.None? {
      if ownTransaction {
        connection.Rollback();
      }
      return Err(NoTable);
    }
    var failure, counts := ApplyTableChanges(loaded.value, changes, connection);
    if failure.Some? {
      if ownTransaction {
        connection.Rollback();
      }
      return Err(failure.value);
    }
    if ownTransaction {
      var ok := connection.Commit();
      if !ok {
        return Err(NotCommitted);
      }
    }
    return Ok(Saving(counts, ownTransaction));
  }
}
