/** Giving new ids to the items of a tree that comes from elsewhere. */
module CollectionIds {
  import opened TextLines
  import opened CollectionTrees
  import opened CollectionMoves

  /** The tree without its ids. */
  function Erased(items: Items): Items {
    if items == [] then []
    else [ErasedItem(items[0])] + Erased(items[1..])
  }

  function ErasedItem(item: Item): Item {
    item.(id := "", children := Erased(item.children))
  }

  lemma {:induction false} ErasedOfConcat(a: Items, b: Items)
    ensures Erased(a + b) == Erased(a) + Erased(b)
  {
    if a == [] {
      assert a + b == b;
    } else {
      assert (a + b)[1..] == a[1..] + b;
      ErasedOfConcat(a[1..], b);
    }
  }

  /** Every id is there once at most, and none of them is empty or taken. */
  ghost predicate Clean(items: Items, taken: set<string>) {
    forall x :: Copies(items, x) <= if x in taken || x == "" then 0 else 1
  }

  ghost predicate AddsIds(items: Items, before: set<string>, after: set<string>) {
    forall x :: x in after <==> x in before || Copies(items, x) > 0
  }

  lemma OneMoreItem(items: Items, item: Item)
    ensures Erased(items + [item]) == Erased(items) + [ErasedItem(item)]
    ensures forall x :: Copies(items + [item], x) == Copies(items, x) + CopiesIn(item, x)
  {
    ErasedOfConcat(items, [item]);
    assert [item][1..] == [];
    forall x
      ensures Copies(items + [item], x) == Copies(items, x) + CopiesIn(item, x)
    {
      CopiesOfConcat(items, [item], x);
      CopiesOfSingle(item, x);
    }
  }

  lemma CleanParts(items: Items, n: nat, taken: set<string>)
    requires n < |items| && Clean(items, taken)
    ensures Clean(items[..n], taken)
    ensures forall x :: CopiesIn(items[n], x) <= if x in taken || x == "" || Copies(items[..n], x) > 0 then 0 else 1
  {
    assert items == items[..n] + items[n..];
    assert items[n..][0] == items[n] && items[n..][1..] == items[n + 1..];
    forall x
      ensures Copies(items[..n], x) + CopiesIn(items[n], x) <= Copies(items, x)
    {
      CopiesOfConcat(items[..n], items[n..], x);
    }
  }

  /** The ids of a tree, added to those already known. */
  method CollectItemIDs(items: Items, used: set<string>) returns (all: set<string>)
    ensures AddsIds(items, used, all)
    decreases items
  {
    all := used;
    for i := 0 to |items|
      invariant AddsIds(items[..i], used, all)
    {
      assert items[..i + 1] == items[..i] + [items[i]];
      OneMoreItem(items[..i], items[i]);
      all := all + {items[i].id};
      all := CollectItemIDs(items[i].children, all);
    }
    assert items[..|items|] == items;
  }

  /** Stands for the generation of a random id, which never is one that is known. */
  method NewItemID(used: set<string>) returns (id: string)
    ensures id !in used && id != ""
  {
    var length: nat, left := 0, used;
    while left != {}
      invariant left <= used
      invariant forall x | x in used - left :: |x| <= length
    {
      var x :| x in left;
      length := if |x| > length then |x| else length;
      left := left - {x};
    }
    id := seq(length + 1, _ => 'x');
    assert |id| > length;
  }

  /** One more child with new ids keeps what the loop over the children has established. */
  lemma OneMoreClean(children: Items, child: Item, own: set<string>, all: set<string>, more: set<string>)
    requires Clean(children, own) && AddsIds(children, own, all)
    requires Clean([child], all) && AddsIds([child], all, more)
    ensures Clean(children + [child], own) && AddsIds(children + [child], own, more)
  {
    hide Copies;
    OneMoreItem(children, child);
    SingleIds(child);
    forall x
      ensures Copies(children + [child], x) == Copies(children, x) + Copies([child], x)
    {
      CopiesOfSingle(child, x);
    }
  }

  /** What could stay in the next child stays. */
  lemma NextStaysClean(items: Items, i: nat, own: set<string>, all: set<string>)
    requires i < |items| && Clean(items, own) && AddsIds(items[..i], own, all)
    ensures Clean([items[i]], all)
  {
    hide Copies;
    CleanParts(items, i, own);
    forall x
      ensures Copies([items[i]], x) == CopiesIn(items[i], x)
    {
      CopiesOfSingle(items[i], x);
    }
  }

  /**
   * Afterwards the ids of the item and of everything below it are there once, not empty and not among those used
   * before; they are added to the used ones; nothing but ids has changed, and no id that could stay has.
   */
  method EnsureUniqueIDs(item: Item, used: set<string>) returns (r: Item, all: set<string>)
    ensures ErasedItem(r) == ErasedItem(item)
    ensures Clean([r], used) && AddsIds([r], used, all)
    ensures Clean([item], used) ==> r == item
    decreases item
  {
    NoIds();
    SingleIds(item);
    if Clean([item], used) {
      CleanChildren(item, used);
    }
    hide Copies, Erased, CopiesIn;
    var id := item.id;
    if id == "" || id in used {
      id := NewItemID(used);
    }
    var own := used + {id};
    var children: Items := [];
    all := own;
    for i := 0 to |item.children|
      invariant Erased(children) == Erased(item.children[..i])
      invariant Clean(children, own) && AddsIds(children, own, all)
      invariant Clean(item.children, own) ==> children == item.children[..i]
    {
      var child, more := EnsureUniqueIDs(item.children[i], all);
      if Clean(item.children, own) {
        NextStaysClean(item.children, i, own, all);
      }
      OneMoreClean(children, child, own, all, more);
      OneMoreItem(children, child);
      OneMoreItem(item.children[..i], item.children[i]);
      assert item.children[..i + 1] == item.children[..i] + [item.children[i]];
      children := children + [child];
      all := more;
    }
    assert item.children[..|item.children|] == item.children;
    r := item.(id := id, children := children);
    SingleIds(r);
  }

  lemma NoIds()
    ensures forall x :: Copies([], x) == 0
  {
  }

  lemma CleanChildren(item: Item, used: set<string>)
    requires Clean([item], used)
    ensures item.id !in used && item.id != "" && Clean(item.children, used + {item.id})
  {
    SingleIds(item);
    assert Copies([item], item.id) >= 1;
  }

  lemma SingleIds(item: Item)
    ensures forall x :: Copies([item], x) == (if item.id == x then 1 else 0) + Copies(item.children, x)
  {
    assert [item][1..] == [];
  }

  lemma {:induction false} ErasedKeepsFolders(a: Items, b: Items)
    requires Erased(a) == Erased(b) && OnlyFoldersHaveChildren(a)
    ensures OnlyFoldersHaveChildren(b) && (a == [] <==> b == [])
    decreases a
  {
    if a == [] {
      assert Erased(b) == [];
    } else {
      assert b != [] && Erased(a)[0] == Erased(b)[0] && Erased(a)[1..] == Erased(b)[1..];
      assert Erased(a)[1..] == Erased(a[1..]) && Erased(b)[1..] == Erased(b[1..]);
      ErasedKeepsFolders(a[0].children, b[0].children);
      ErasedKeepsFolders(a[1..], b[1..]);
    }
  }

  lemma InsertKeepsWellFormed(items: Items, parent: string, index: int, item: Item, used: set<string>)
    requires WellFormed(items) && FolderShaped(item) && AddsIds(items, {}, used) && Clean([item], used)
    requires Insert(items, parent, index, item).Ok?
    ensures WellFormed(Insert(items, parent, index, item).value)
  {
    hide Find, InsertUnder, InsertAt, OnlyFoldersHaveChildren, FolderShaped;
    var after := Insert(items, parent, index, item).value;
    forall x
      ensures Copies(after, x) <= 1 && (x == "" ==> Copies(after, x) == 0)
    {
      InsertConserves(items, parent, index, item, x);
      CopiesOfSingle(item, x);
      assert Copies(items, x) <= 1;
    }
    if parent == "" {
      InsertAtKeepsFolders(items, index, item);
    } else {
      InsertUnderKeepsFolders(items, parent, index, item);
    }
  }

  /** Brings an item with everything below it into a collection: ids stay unique whatever ids it had before. */
  method InsertForeign(items: Items, parent: string, index: int, item: Item)
    returns (r: Result<Items, Error>, inserted: Item)
    requires WellFormed(items) && FolderShaped(item)
    ensures ErasedItem(inserted) == ErasedItem(item)
    ensures (forall x :: Copies(items, x) == 0 || CopiesIn(item, x) == 0) && WellFormed([item]) ==> inserted == item
    ensures r == Insert(items, parent, index, inserted)
    ensures r.Ok? ==>
              WellFormed(r.value)
              && Remove(r.value, inserted.id) == (items, Some(inserted))
              && Location(r.value, inserted.id) == Some((parent, Clamped(ChildCount(items, parent), index)))
  {
    hide Remove, Location, Find, InsertUnder, InsertAt, OnlyFoldersHaveChildren;
    var used := CollectItemIDs(items, {});
    var all;
    inserted, all := EnsureUniqueIDs(item, used);
    SingleIds(item);
    CleanChildren(inserted, used);
    ErasedKeepsFolders(item.children, inserted.children);
    r := Insert(items, parent, index, inserted);
    if r.Ok? {
      InsertKeepsWellFormed(items, parent, index, inserted, used);
      InsertPlaces(items, parent, index, inserted);
    }
  }

  lemma ContainsExactly(item: Item, id: string)
    ensures Contains(item, id) <==> CopiesIn(item, id) > 0
  {
    FindExactlyWhenThere(item.children, id);
  }

  lemma {:induction false} FoundIsShaped(items: Items, id: string)
    requires OnlyFoldersHaveChildren(items)
    ensures Find(items, id).Some? ==> FolderShaped(Find(items, id).value)
    decreases items
  {
    if items != [] {
      FoundIsShaped(items[0].children, id);
      FoundIsShaped(items[1..], id);
    }
  }

  /** The id of the target folder occurs in the item that is to be moved. */
  predicate TargetIdInside(source: Items, id: string, parent: string) {
    parent != "" && Find(source, id).Some? && CopiesIn(Find(source, id).value, parent) > 0
  }

  /**
   * Two well-formed collections between which a move is refused, only because a folder below the item shares its id.
   */
  lemma SharedFolderIdIsRefused()
    ensures var shared := Item("f", Folder, "g", None, []);
            var item := Item("a", Folder, "b", None, [shared]);
            var target := [Item("f", Folder, "t", None, [])];
            && WellFormed([item]) && WellFormed(target)
            && Find([item], "a") == Some(item) && Find(target, "f") == Some(target[0])
            && TargetIdInside([item], "a", "f")
            && Insert(target, "f", 0, item) == Ok([target[0].(children := [item])])
  {
    var shared := Item("f", Folder, "g", None, []);
    var item := Item("a", Folder, "b", None, [shared]);
    var target := [Item("f", Folder, "t", None, [])];
    assert "a"[0] != "f"[0];
    SingleIds(shared);
    SingleIds(item);
    SingleIds(target[0]);
    assert [item][1..] == [] && [shared][1..] == [] && target[1..] == [];
    assert OnlyFoldersHaveChildren([shared]) && OnlyFoldersHaveChildren([item]) && OnlyFoldersHaveChildren(target);
    assert UniqueIds([item]) && UniqueIds(target);
    assert Copies([item], "") == 0 && Copies(target, "") == 0;
    assert Copies([shared], "f") == 1;
    assert InsertAt(target[0].children, 0, item) == [item];
    assert InsertUnder(target, "f", 0, item) == [target[0].(children := [item])];
    assert Find(item.children, "f") == Some(shared);
  }

  /**
   * Moves an item to another collection. It is refused as a move into itself exactly when the id of the target folder
   * occurs in the moved part, although that folder is in the other collection.
   */
  method MoveBetween(source: Items, id: string, target: Items, parent: string, index: int)
    returns (r: Result<(Items, Items), Error>, inserted: Option<Item>)
    requires OnlyFoldersHaveChildren(source) && WellFormed(target)
    ensures r == Err(ItemNotFound) <==> Copies(source, id) == 0
    ensures r == Err(MoveIntoItself) <==> TargetIdInside(source, id, parent)
    ensures r.Ok? ==>
              && Find(source, id).Some? && inserted.Some?
              && ErasedItem(inserted.value) == ErasedItem(Find(source, id).value)
              && r.value.0 == Remove(source, id).0
              && Insert(target, parent, index, inserted.value) == Ok(r.value.1)
              && WellFormed(r.value.1)
    ensures r.Err? && r.error != ItemNotFound && r.error != MoveIntoItself ==>
              parent != "" && (Find(target, parent).None? || Find(target, parent).value.kind != Folder)
  {
    hide Copies, Remove, InsertUnder, InsertAt, OnlyFoldersHaveChildren, Erased, CopiesIn;
    inserted := None;
    FindExactlyWhenThere(source, id);
    LocatedExactlyWhenThere(source, id);
    if Location(source, id).None? {
      return Err(ItemNotFound), None;
    }
    RemoveConserves(source, id, id);
    FoundIsShaped(source, id);
    var (rest, removed) := Remove(source, id);
    ContainsExactly(removed.value, parent);
    if parent != "" && Contains(removed.value, parent) {
      return Err(MoveIntoItself), None;
    }
    var result, item := InsertForeign(target, parent, index, removed.value);
    if result.Err? {
      return Err(result.error), None;
    }
    return Ok((rest, result.value)), Some(item);
  }
}
