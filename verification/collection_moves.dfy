/** Removing and inserting undo each other, and a moved item can be moved back. */
module CollectionMoves {
  import opened TextLines
  import opened CollectionTrees

  // ----- removing what was inserted -----

  lemma {:induction false} InsertUnderThenRemove(items: Items, parent: string, index: int, item: Item)
    requires Find(items, parent).Some? && Copies(items, item.id) == 0
    ensures Remove(InsertUnder(items, parent, index, item), item.id) == (items, Some(item))
    decreases items
  {
    hide InsertAt;
    var head, after := items[0], InsertUnder(items, parent, index, item);
    FindExactlyWhenThere(head.children, item.id);
    assert [head] + items[1..] == items;
    if head.id == parent {
      InsertAtThenRemove(head.children, index, item);
      assert after[1..] == items[1..];
    } else if Find(head.children, parent).Some? {
      InsertUnderThenRemove(head.children, parent, index, item);
      assert after[1..] == items[1..];
    } else {
      InsertUnderThenRemove(items[1..], parent, index, item);
      assert after[1..] == InsertUnder(items[1..], parent, index, item);
    }
  }

  lemma {:induction false} InsertUnderKeepsTheLevel(items: Items, parent: string, index: int, item: Item, id: string)
    requires Find(items, parent).Some?
    ensures IndexOf(InsertUnder(items, parent, index, item), id) == IndexOf(items, id)
    decreases items
  {
    hide InsertAt;
    var after := InsertUnder(items, parent, index, item);
    if items[0].id == parent || Find(items[0].children, parent).Some? {
      assert after[1..] == items[1..];
    } else {
      InsertUnderKeepsTheLevel(items[1..], parent, index, item, id);
      assert after[1..] == InsertUnder(items[1..], parent, index, item);
    }
  }

  /** What is not there is not located. */
  lemma NotLocated(items: Items, id: string)
    requires Copies(items, id) == 0
    ensures Location(items, id).None? && IndexOf(items, id).None? && LocationBelow(items, id).None?
  {
    LocatedExactlyWhenThere(items, id);
    IndexOfExactlyWhenThere(items, id);
  }

  lemma {:induction false} InsertUnderLocates(items: Items, parent: string, index: int, item: Item)
    requires parent != "" && Find(items, parent).Some? && Copies(items, item.id) == 0
    ensures Location(InsertUnder(items, parent, index, item), item.id)
            == Some((parent, Clamped(|Find(items, parent).value.children|, index)))
    decreases items
  {
    hide InsertAt;
    var head, after := items[0], InsertUnder(items, parent, index, item);
    InsertUnderKeepsTheLevel(items, parent, index, item, item.id);
    NotLocated(items, item.id);
    if head.id == parent {
      InsertAtThenRemove(head.children, index, item);
      assert after[0].children == InsertAt(head.children, index, item) && after[0].id == parent;
      assert Location(after[0].children, item.id) == Some(("", Clamped(|head.children|, index)));
      assert LocationBelow(after, item.id) == Some((parent, Clamped(|head.children|, index)));
    } else if Find(head.children, parent).Some? {
      InsertUnderLocates(head.children, parent, index, item);
    } else {
      NotLocated(head.children, item.id);
      NotLocated(items[1..], item.id);
      InsertUnderKeepsTheLevel(items[1..], parent, index, item, item.id);
      InsertUnderLocates(items[1..], parent, index, item);
      assert after[1..] == InsertUnder(items[1..], parent, index, item);
    }
  }

  function ChildCount(items: Items, parent: string): nat {
    if parent == "" then |items|
    else if Find(items, parent).Some? then |Find(items, parent).value.children|
    else 0
  }

  /**
   * Inserting a new item puts it where it was asked for, the end for an index out of range, and changes nothing else.
   */
  lemma InsertPlaces(items: Items, parent: string, index: int, item: Item)
    requires Insert(items, parent, index, item).Ok? && Copies(items, item.id) == 0
    ensures var after := Insert(items, parent, index, item).value;
            var count := ChildCount(items, parent);
            && Remove(after, item.id) == (items, Some(item))
            && Location(after, item.id) == Some((parent, if 0 <= index < count then index else count))
  {
    hide Remove, IndexOf, Copies, Find, InsertUnder, InsertAt;
    if parent == "" {
      InsertAtThenRemove(items, index, item);
    } else {
      InsertUnderThenRemove(items, parent, index, item);
      InsertUnderLocates(items, parent, index, item);
    }
  }

  // ----- inserting what was removed -----

  lemma PartsAreWellFormed(items: Items)
    requires WellFormed(items) && items != []
    ensures WellFormed(items[0].children) && WellFormed(items[1..]) && items[0].id != ""
    ensures items[0].children != [] ==> items[0].kind == Folder
    ensures Copies(items[0].children, items[0].id) == 0 && Copies(items[1..], items[0].id) == 0
    ensures forall x :: Copies(items[0].children, x) == 0 || Copies(items[1..], x) == 0
  {
    forall x
      ensures Copies(items[0].children, x) <= 1 && Copies(items[1..], x) <= 1
      ensures Copies(items[0].children, x) == 0 || Copies(items[1..], x) == 0
    {
      assert Copies(items, x) <= 1;
    }
    assert Copies(items, items[0].id) <= 1;
    assert Copies(items, "") == 0;
  }

  lemma {:induction false} UniqueAtLevel(items: Items, i: nat)
    requires UniqueIds(items) && i < |items|
    ensures Copies(items[..i], items[i].id) == 0
  {
    var id := items[i].id;
    assert items == items[..i] + items[i..];
    CopiesOfConcat(items[..i], items[i..], id);
    assert items[i..][0] == items[i];
    assert Copies(items, id) <= 1;
  }

  lemma RestoreAtLevel(items: Items, id: string)
    requires WellFormed(items) && IndexOf(items, id).Some?
    ensures var (rest, removed) := Remove(items, id);
            removed.Some? && InsertAt(rest, IndexOf(items, id).value, removed.value) == items
  {
    var i := IndexOf(items, id).value;
    UniqueAtLevel(items, i);
    RemoveAtLevel(items, id, i);
    hide Remove, IndexOf, WellFormed;
    var rest := items[..i] + items[i + 1..];
    if i < |rest| {
      assert rest[..i] == items[..i] && rest[i..] == items[i + 1..];
    }
  }

  /** The parent of a located item is part of the tree, or the item is at the top. */
  lemma {:induction false} ParentIsThere(items: Items, id: string)
    ensures Location(items, id).Some? && Location(items, id).value.0 != ""
            ==> Copies(items, Location(items, id).value.0) > 0
    ensures LocationBelow(items, id).Some? ==> Copies(items, LocationBelow(items, id).value.0) > 0
    decreases items
  {
    if items != [] {
      ParentIsThere(items[0].children, id);
      ParentIsThere(items[1..], id);
    }
  }

  /** The insertion under a parent goes through the head when the parent is there and behind it otherwise. */
  lemma {:induction false} RestoreBelow(items: Items, id: string)
    requires WellFormed(items) && IndexOf(items, id).None? && LocationBelow(items, id).Some?
    ensures var (rest, removed) := Remove(items, id);
            var (parent, position) := LocationBelow(items, id).value;
            removed.Some? && parent != "" && Insert(rest, parent, position, removed.value) == Ok(items)
    decreases items, 0
  {
    PartsAreWellFormed(items);
    FindExactlyWhenThere(items[0].children, id);
    LocatedExactlyWhenThere(items[0].children, id);
    if Location(items[0].children, id).Some? {
      RestoreInHead(items, id);
    } else {
      RestoreInTail(items, id);
    }
  }

  lemma {:induction false} RestoreInHead(items: Items, id: string)
    requires WellFormed(items) && IndexOf(items, id).None? && items != [] && Location(items[0].children, id).Some?
    ensures var (rest, removed) := Remove(items, id);
            var (parent, position) := LocationBelow(items, id).value;
            removed.Some? && parent != "" && Insert(rest, parent, position, removed.value) == Ok(items)
    decreases items[0].children, 1
  {
    hide InsertAt;
    var head := items[0];
    PartsAreWellFormed(items);
    FindExactlyWhenThere(head.children, id);
    LocatedExactlyWhenThere(head.children, id);
    var (children, removed) := Remove(head.children, id);
    var head' := head.(children := children);
    assert Remove(items, id) == ([head'] + items[1..], removed);
    assert ([head'] + items[1..])[1..] == items[1..];
    assert [head] + items[1..] == items;
    ParentIsThere(head.children, id);
    if IndexOf(head.children, id).Some? {
      RestoreAtLevel(head.children, id);
    } else {
      RestoreBelow(head.children, id);
    }
  }

  lemma {:induction false} RestoreInTail(items: Items, id: string)
    requires WellFormed(items) && IndexOf(items, id).None? && items != [] && Location(items[0].children, id).None?
    requires LocationBelow(items, id).Some?
    ensures var (rest, removed) := Remove(items, id);
            var (parent, position) := LocationBelow(items, id).value;
            removed.Some? && parent != "" && Insert(rest, parent, position, removed.value) == Ok(items)
    decreases items[1..], 1
  {
    hide InsertAt;
    var head := items[0];
    PartsAreWellFormed(items);
    FindExactlyWhenThere(head.children, id);
    LocatedExactlyWhenThere(head.children, id);
    RestoreBelow(items[1..], id);
    ParentIsThere(items[1..], id);
    var (parent, position) := LocationBelow(items[1..], id).value;
    FindExactlyWhenThere(head.children, parent);
    var (rest, removed) := Remove(items[1..], id);
    assert Remove(items, id) == ([head] + rest, removed);
    assert ([head] + rest)[1..] == rest;
    assert [head] + items[1..] == items;
  }

  /** Taking an item out and putting it back where it was located restores the tree. */
  lemma RemoveThenInsertRestores(items: Items, id: string)
    requires WellFormed(items) && Copies(items, id) > 0
    ensures Location(items, id).Some? && Remove(items, id).1.Some?
    ensures var (parent, position) := Location(items, id).value;
            var (rest, removed) := Remove(items, id);
            Insert(rest, parent, position, removed.value) == Ok(items)
  {
    hide InsertAt, InsertUnder, WellFormed, Remove;
    LocatedExactlyWhenThere(items, id);
    FindExactlyWhenThere(items, id);
    if IndexOf(items, id).Some? {
      RestoreAtLevel(items, id);
    } else {
      RestoreBelow(items, id);
    }
  }

  // ----- moving an item inside its collection -----

  /** The target index counts the places before the item is taken out. */
  function TargetIndex(location: (string, nat), parent: string, index: int): int {
    if location.0 == parent && location.1 < index then index - 1 else index
  }

  function Move(items: Items, id: string, parent: string, index: int): Result<Items, Error> {
    match Location(items, id)
    case None => Err(ItemNotFound)
    case Some(location) =>
      var (rest, removed) := Remove(items, id);
      if removed.None? then Err(ItemNotFound)
      else if parent != "" && Contains(removed.value, parent) then Err(MoveIntoItself)
      else Insert(rest, parent, TargetIndex(location, parent, index), removed.value)
  }

  /** A moved item is where it was asked for, everything else is as it was, and no id appears or disappears. */
  lemma MovePlaces(items: Items, id: string, parent: string, index: int, x: string)
    requires WellFormed(items) && Move(items, id, parent, index).Ok?
    ensures Location(items, id).Some?
    ensures var moved, rest := Move(items, id, parent, index).value, Remove(items, id).0;
            var (oldParent, oldIndex) := Location(items, id).value;
            var to := if oldParent == parent && oldIndex < index then index - 1 else index;
            var count := ChildCount(rest, parent);
            && Remove(moved, id) == Remove(items, id)
            && Location(moved, id) == Some((parent, if 0 <= to < count then to else count))
            && Copies(moved, x) == Copies(items, x)
  {
    hide WellFormed, Insert, Location, Find, Remove;
    FindExactlyWhenThere(items, id);
    var (rest, removed) := Remove(items, id);
    var to := TargetIndex(Location(items, id).value, parent, index);
    RemovedHasTheId(items, id);
    RemoveConserves(items, id, x);
    RemovedOnce(items, id);
    InsertPlaces(rest, parent, to, removed.value);
    InsertConserves(rest, parent, to, removed.value, x);
  }

  lemma RemovedHasTheId(items: Items, id: string)
    requires Remove(items, id).1.Some?
    ensures Remove(items, id).1.value.id == id
  {
    RemoveConserves(items, id, id);
    FindExactlyWhenThere(items, id);
  }

  lemma RemovedOnce(items: Items, id: string)
    requires WellFormed(items) && Remove(items, id).1.Some?
    ensures Copies(Remove(items, id).0, id) == 0
  {
    hide Remove;
    RemovedHasTheId(items, id);
    RemovedIsGone(items, id, id);
  }

  /** The index to ask for so that an item that is now at `now` gets back to `was`. */
  function IndexBack(now: (string, nat), was: (string, nat)): int {
    if now.0 == was.0 && now.1 <= was.1 then was.1 + 1 else was.1
  }

  /** Moving an item and moving it back to its recorded location restores the tree. */
  lemma MoveBackRestores(items: Items, id: string, parent: string, index: int)
    requires WellFormed(items) && Move(items, id, parent, index).Ok?
    ensures var moved := Move(items, id, parent, index).value;
            && Location(items, id).Some? && Location(moved, id).Some?
            && var was, now := Location(items, id).value, Location(moved, id).value;
               Move(moved, id, was.0, IndexBack(now, was)) == Ok(items)
  {
    hide WellFormed, Insert, Location, Find, Remove, Copies;
    MovePlaces(items, id, parent, index, id);
    LocatedExactlyWhenThere(items, id);
    RemoveThenInsertRestores(items, id);
    OldParentIsOutside(items, id);
    var was, now := Location(items, id).value, Location(Move(items, id, parent, index).value, id).value;
    assert TargetIndex(now, was.0, IndexBack(now, was)) == was.1;
  }

  /** An item's parent is not inside the item. */
  lemma OldParentIsOutside(items: Items, id: string)
    requires WellFormed(items) && Location(items, id).Some? && Remove(items, id).1.Some?
    ensures var parent := Location(items, id).value.0; parent == "" || !Contains(Remove(items, id).1.value, parent)
  {
    hide Location, InsertUnder, InsertAt, Remove, Find;
    var (parent, position) := Location(items, id).value;
    var (rest, removed) := Remove(items, id);
    if parent != "" && Contains(removed.value, parent) {
      LocatedExactlyWhenThere(items, id);
      RemoveThenInsertRestores(items, id);
      FindExactlyWhenThere(rest, parent);
      FindExactlyWhenThere(removed.value.children, parent);
      RemovedIsGone(items, id, parent);
      assert false;
    }
  }

  // ----- every operation keeps the tree well-formed -----

  lemma {:induction false} FoldersOfConcat(a: Items, b: Items)
    ensures OnlyFoldersHaveChildren(a + b) <==> OnlyFoldersHaveChildren(a) && OnlyFoldersHaveChildren(b)
  {
    if a == [] {
      assert a + b == b;
    } else {
      assert (a + b)[1..] == a[1..] + b;
      FoldersOfConcat(a[1..], b);
    }
  }

  predicate FolderShaped(item: Item) {
    (item.children == [] || item.kind == Folder) && OnlyFoldersHaveChildren(item.children)
  }

  lemma InsertAtKeepsFolders(items: Items, index: int, item: Item)
    requires OnlyFoldersHaveChildren(items) && FolderShaped(item)
    ensures OnlyFoldersHaveChildren(InsertAt(items, index, item))
  {
    assert OnlyFoldersHaveChildren([item]) by {
      assert [item][1..] == [];
    }
    hide OnlyFoldersHaveChildren, FolderShaped;
    if index < 0 || index >= |items| {
      FoldersOfConcat(items, [item]);
    } else {
      assert items == items[..index] + items[index..];
      FoldersOfConcat(items[..index], items[index..]);
      FoldersOfConcat(items[..index], [item]);
      FoldersOfConcat(items[..index] + [item], items[index..]);
    }
  }

  lemma {:induction false} InsertUnderKeepsFolders(items: Items, parent: string, index: int, item: Item)
    requires OnlyFoldersHaveChildren(items) && FolderShaped(item)
    requires Find(items, parent).Some? && Find(items, parent).value.kind == Folder
    ensures OnlyFoldersHaveChildren(InsertUnder(items, parent, index, item))
    decreases items
  {
    hide InsertAt, FolderShaped;
    var after := InsertUnder(items, parent, index, item);
    if items[0].id == parent {
      InsertAtKeepsFolders(items[0].children, index, item);
      assert after[1..] == items[1..];
    } else if Find(items[0].children, parent).Some? {
      InsertUnderKeepsFolders(items[0].children, parent, index, item);
      assert after[1..] == items[1..];
    } else {
      InsertUnderKeepsFolders(items[1..], parent, index, item);
      assert after[1..] == InsertUnder(items[1..], parent, index, item);
    }
  }

  lemma {:induction false} RemoveKeepsFolders(items: Items, id: string)
    requires OnlyFoldersHaveChildren(items)
    ensures OnlyFoldersHaveChildren(Remove(items, id).0)
    ensures Remove(items, id).1.Some? ==> FolderShaped(Remove(items, id).1.value)
    decreases items
  {
    if items != [] {
      RemoveKeepsFolders(items[0].children, id);
      RemoveKeepsFolders(items[1..], id);
      var rest := Remove(items, id).0;
      if items[0].id != id {
        assert rest[1..] == if Remove(items[0].children, id).1.Some? then items[1..] else Remove(items[1..], id).0;
        FoldersHadChildren(items[0].children, id);
      }
    }
  }

  lemma FoldersHadChildren(items: Items, id: string)
    ensures Remove(items, id).1.Some? ==> items != []
  {
  }

  /** Moves keep ids unique and children under folders, so they can be repeated and undone at will. */
  lemma MoveKeepsWellFormed(items: Items, id: string, parent: string, index: int)
    requires WellFormed(items) && Move(items, id, parent, index).Ok?
    ensures WellFormed(Move(items, id, parent, index).value)
  {
    hide Location, Find, Remove, InsertUnder, InsertAt, OnlyFoldersHaveChildren, FolderShaped;
    var moved := Move(items, id, parent, index).value;
    forall x
      ensures Copies(moved, x) == Copies(items, x)
    {
      MovePlaces(items, id, parent, index, x);
    }
    var (rest, removed) := Remove(items, id);
    RemoveKeepsFolders(items, id);
    var to := TargetIndex(Location(items, id).value, parent, index);
    if parent == "" {
      InsertAtKeepsFolders(rest, to, removed.value);
    } else {
      InsertUnderKeepsFolders(rest, parent, to, removed.value);
    }
  }

  // ----- why ids have to be unique -----

  /** A folder that holds a request, followed by a request with the same id. */
  function DuplicateIds(): Items {
    [Item("f", Folder, "", None, [Item("x", Request, "", None, [])]), Item("x", Request, "", None, [])]
  }

  /** A level is located before what is below it, but removing goes into a folder before it looks at the next item. */
  lemma DuplicateIdsAreNotRestored()
    ensures var items := DuplicateIds();
            && Location(items, "x") == Some(("", 1))
            && Remove(items, "x").1.Some?
            && Insert(Remove(items, "x").0, "", 1, Remove(items, "x").1.value) != Ok(items)
  {
  }
}
