/** When taking an item out and putting it back where it was located restores a tree, whatever its ids. */
module CollectionRestoring {
  import opened TextLines
  import opened CollectionTrees
  import opened CollectionMoves

  /** A place in a tree: on this level, or below one of its items. */
  datatype Path = At(index: nat) | Into(index: nat, below: Path)
  {
    /** The same place when one more item stands in front. */
    function Behind(): Path {
      if At? then At(index + 1) else Into(index + 1, below)
    }

    /** The place of the item above; none at the top. */
    function Parent(): Option<Path> {
      match this
      case At(_) => None
      case Into(index, At(_)) => Some(At(index))
      case Into(index, below) => Some(Into(index, below.Parent().value))
    }

    /** The index on its own level. */
    function Last(): nat {
      if At? then index else below.Last()
    }
  }

  function Deeper(path: Option<Path>): Option<Path> {
    if path.Some? then Some(Into(0, path.value)) else None
  }

  function Further(path: Option<Path>): Option<Path> {
    if path.Some? then Some(path.value.Behind()) else None
  }

  /** Where the item stands that is found and removed. */
  function FirstPath(items: Items, id: string): Option<Path> {
    if items == [] then None
    else if items[0].id == id then Some(At(0))
    else if FirstPath(items[0].children, id).Some? then Deeper(FirstPath(items[0].children, id))
    else Further(FirstPath(items[1..], id))
  }

  /** Where the item stands that is located. */
  function LocatedPath(items: Items, id: string): Option<Path>
    decreases items, 1
  {
    var index := IndexOf(items, id);
    if index.Some? then Some(At(index.value)) else LocatedPathBelow(items, id)
  }

  function LocatedPathBelow(items: Items, id: string): Option<Path>
    decreases items, 0
  {
    if items == [] then None
    else if LocatedPath(items[0].children, id).Some? then Deeper(LocatedPath(items[0].children, id))
    else Further(LocatedPathBelow(items[1..], id))
  }

  function ItemAt(items: Items, path: Path): Option<Item> {
    if path.index >= |items| then None
    else if path.At? then Some(items[path.index])
    else ItemAt(items[path.index].children, path.below)
  }

  /** All items on the level of a path. */
  function LevelOf(items: Items, path: Path): Items {
    if path.At? || path.index >= |items| then items else LevelOf(items[path.index].children, path.below)
  }

  function Replaced(items: Items, index: nat, put: Items): Items
    requires index < |items|
  {
    items[..index] + put + items[index + 1..]
  }

  /** The tree without the item at a path. */
  function Without(items: Items, path: Path): Items {
    if path.index >= |items| then items
    else
      var item := items[path.index];
      var there := if path.At? then [] else [item.(children := Without(item.children, path.below))];
      Replaced(items, path.index, there)
  }

  /** The innermost non-empty id above a path; empty when there is none. */
  function NearestId(items: Items, path: Path): string {
    if path.At? || path.index >= |items| then ""
    else
      var nearest := NearestId(items[path.index].children, path.below);
      if nearest == "" then items[path.index].id else nearest
  }

  // ----- what the paths are the paths of -----

  lemma BehindHead(items: Items, path: Path)
    requires items != [] && path.index < |items[1..]|
    ensures ItemAt(items, path.Behind()) == ItemAt(items[1..], path)
    ensures NearestId(items, path.Behind()) == NearestId(items[1..], path)
    ensures path.Into? ==> path.Behind().Last() == path.Last()
  {
    assert items[1..][path.index] == items[path.index + 1];
  }

  lemma ReplacedInTail(items: Items, index: nat, put: Items)
    requires index + 1 < |items|
    ensures Replaced(items, index + 1, put) == [items[0]] + Replaced(items[1..], index, put)
  {
    assert items[..index + 1] == [items[0]] + items[1..][..index];
    assert items[1..][index + 1..] == items[index + 2..];
    assert [items[0]] + items[1..][..index] + put + items[index + 2..]
        == [items[0]] + (items[1..][..index] + put + items[index + 2..]);
  }

  lemma WithoutBehindHead(items: Items, path: Path)
    requires items != [] && path.index < |items[1..]|
    ensures Without(items, path.Behind()) == [items[0]] + Without(items[1..], path)
  {
    hide Replaced;
    var item := items[1..][path.index];
    ReplacedInTail(items, path.index, if path.At? then [] else [item.(children := Without(item.children, path.below))]);
  }

  lemma WithoutHead(items: Items, path: Path)
    requires items != []
    ensures Without(items, At(0)) == items[1..]
    ensures Without(items, Into(0, path)) == [items[0].(children := Without(items[0].children, path))] + items[1..]
  {
    assert items[..0] == [];
  }

  /** What is found and removed is the item at the first path, and everything else stays. */
  lemma {:induction false} FirstIsRemoved(items: Items, id: string)
    requires FirstPath(items, id).Some?
    ensures var path := FirstPath(items, id).value;
            && path.index < |items|
            && ItemAt(items, path).Some? && ItemAt(items, path).value.id == id
            && Find(items, id) == ItemAt(items, path)
            && Remove(items, id) == (Without(items, path), ItemAt(items, path))
    decreases items
  {
    hide Without;
    if items[0].id == id {
      WithoutHead(items, At(0));
    } else {
      FirstPathExactly(items[0].children, id);
      FindExactlyWhenThere(items[0].children, id);
      if FirstPath(items[0].children, id).Some? {
        FirstIsRemoved(items[0].children, id);
        HeadRemoved(items, id);
        WithoutHead(items, FirstPath(items[0].children, id).value);
      } else {
        FirstIsRemoved(items[1..], id);
        TailRemoved(items, id);
        BehindHead(items, FirstPath(items[1..], id).value);
        WithoutBehindHead(items, FirstPath(items[1..], id).value);
      }
    }
  }

  /** The location is that of the item at the located path: the nearest non-empty id above it and its index. */
  lemma {:induction false} LocatedIsLocation(items: Items, id: string)
    requires LocatedPath(items, id).Some?
    ensures IsLocatedAt(items, id, LocatedPath(items, id).value, Location(items, id))
    decreases items, 1
  {
    if IndexOf(items, id).None? {
      LocatedIsLocationBelow(items, id);
    }
  }

  lemma {:induction false} LocatedIsLocationBelow(items: Items, id: string)
    requires LocatedPathBelow(items, id).Some?
    ensures IsLocatedAt(items, id, LocatedPathBelow(items, id).value, LocationBelow(items, id))
    decreases items, 0
  {
    LocatedPathExactly(items[0].children, id);
    if LocatedPath(items[0].children, id).Some? {
      LocatedIsLocation(items[0].children, id);
    } else {
      LocatedPathExactly(items[1..], id);
      LocatedIsLocationBelow(items[1..], id);
      BehindHead(items, LocatedPathBelow(items[1..], id).value);
    }
  }

  predicate IsLocatedAt(items: Items, id: string, path: Path, location: Option<(string, nat)>) {
    && path.index < |items|
    && ItemAt(items, path).Some? && ItemAt(items, path).value.id == id
    && location == Some((NearestId(items, path), path.Last()))
  }

  /** The nearest id is that of the item right above, unless its id is empty. */
  lemma {:induction false} NearestIsParent(items: Items, path: Path)
    requires ItemAt(items, path).Some?
    ensures path.Parent().None? ==> NearestId(items, path) == ""
    ensures path.Parent().Some? ==>
              && ItemAt(items, path.Parent().value).Some?
              && (ItemAt(items, path.Parent().value).value.id != "" ==>
                    NearestId(items, path) == ItemAt(items, path.Parent().value).value.id)
  {
    if path.Into? && path.below.Into? {
      NearestIsParent(items[path.index].children, path.below);
    }
  }

  // ----- the same item -----

  /** On the level of the path, nothing in front of it has the id or holds it. */
  predicate NothingInFront(items: Items, path: Path, id: string) {
    path.Last() <= |LevelOf(items, path)| && Copies(LevelOf(items, path)[..path.Last()], id) == 0
  }

  lemma {:induction false} FirstPathExactly(items: Items, id: string)
    ensures FirstPath(items, id).Some? <==> Copies(items, id) > 0
    decreases items
  {
    if items != [] {
      FirstPathExactly(items[0].children, id);
      FirstPathExactly(items[1..], id);
    }
  }

  lemma {:induction false} LocatedPathExactly(items: Items, id: string)
    ensures LocatedPath(items, id).Some? <==> Location(items, id).Some?
    ensures LocatedPath(items, id).Some? <==> Copies(items, id) > 0
    ensures LocatedPathBelow(items, id).Some? <==> LocationBelow(items, id).Some?
    ensures LocatedPathBelow(items, id).Some? ==> LocatedPathBelow(items, id).value.Into?
    decreases items
  {
    LocatedExactlyWhenThere(items, id);
    if items != [] {
      LocatedPathExactly(items[0].children, id);
      LocatedPathExactly(items[1..], id);
    }
  }

  lemma {:induction false} FirstOfLevel(items: Items, id: string, i: nat)
    requires IndexOf(items, id) == Some(i)
    ensures FirstPath(items, id).Some?
    ensures FirstPath(items, id) == Some(At(i)) <==> Copies(items[..i], id) == 0
  {
    if i > 0 {
      FirstOfLevel(items[1..], id, i - 1);
      assert items[..i][0] == items[0] && items[..i][1..] == items[1..][..i - 1];
      FirstPathExactly(items[0].children, id);
    }
  }

  lemma LevelBehind(items: Items, path: Path)
    requires items != [] && path.Into?
    ensures LevelOf(items, path.Behind()) == LevelOf(items[1..], path) || path.index >= |items[1..]|
    ensures path.Behind().Last() == path.Last()
    ensures path.index < |items[1..]| ==> items[path.index + 1] == items[1..][path.index]
  {
  }

  lemma {:induction false} LocatedInside(items: Items, id: string)
    ensures LocatedPath(items, id).Some? ==> LocatedPath(items, id).value.index < |items|
    ensures LocatedPathBelow(items, id).Some? ==> LocatedPathBelow(items, id).value.index < |items|
  {
    if items != [] {
      LocatedInside(items[1..], id);
    }
  }

  /** Locating and removing mean the same item exactly when, on its level, nothing in front of it holds the id. */
  lemma {:induction false} SameItemExactly(items: Items, id: string)
    requires LocatedPath(items, id).Some?
    ensures LocatedPath(items, id) == FirstPath(items, id) <==> NothingInFront(items, LocatedPath(items, id).value, id)
    decreases items, 1
  {
    if IndexOf(items, id).Some? {
      FirstOfLevel(items, id, IndexOf(items, id).value);
    } else {
      SameItemBelow(items, id);
    }
  }

  lemma {:induction false} SameItemBelow(items: Items, id: string)
    requires IndexOf(items, id).None? && LocatedPathBelow(items, id).Some?
    ensures LocatedPathBelow(items, id) == FirstPath(items, id)
            <==> NothingInFront(items, LocatedPathBelow(items, id).value, id)
    decreases items, 0
  {
    LocatedPathExactly(items[0].children, id);
    FirstPathExactly(items[0].children, id);
    if LocatedPath(items[0].children, id).Some? {
      SameItemExactly(items[0].children, id);
    } else {
      LocatedPathExactly(items[1..], id);
      FirstPathExactly(items[1..], id);
      LocatedInside(items[1..], id);
      SameItemBelow(items[1..], id);
      LevelBehind(items, LocatedPathBelow(items[1..], id).value);
    }
  }

  // ----- the number of siblings -----

  /** Only an item that is first on its own level leaves the level shorter. */
  lemma {:induction false} RemoveKeepsLevel(items: Items, id: string)
    requires Remove(items, id).1.Some?
    ensures |Remove(items, id).0|
            == |items| - (if FirstPath(items, id).Some? && FirstPath(items, id).value.At? then 1 else 0)
  {
    FindExactlyWhenThere(items, id);
    if items[0].id != id {
      FindExactlyWhenThere(items[0].children, id);
      FirstPathExactly(items[0].children, id);
      if FirstPath(items[0].children, id).None? {
        RemoveKeepsLevel(items[1..], id);
        FirstPathExactly(items[1..], id);
      }
    }
  }

  /** At the top the tree is restored exactly when the same item is meant. */
  lemma LevelRestoredExactly(items: Items, id: string)
    requires IndexOf(items, id).Some?
    ensures var (rest, removed) := Remove(items, id);
            && removed.Some?
            && (InsertAt(rest, IndexOf(items, id).value, removed.value) == items
                <==> FirstPath(items, id) == LocatedPath(items, id))
  {
    var i := IndexOf(items, id).value;
    IndexOfExactlyWhenThere(items, id);
    FindExactlyWhenThere(items, id);
    FirstOfLevel(items, id, i);
    RemoveKeepsLevel(items, id);
    if FirstPath(items, id) == Some(At(i)) {
      RemoveAtLevel(items, id, i);
      PutBack(items, i);
    } else if FirstPath(items, id).value.At? {
      FirstAtIsIndex(items, id);
    }
  }

  lemma PutBack(items: Items, i: nat)
    requires i < |items|
    ensures InsertAt(items[..i] + items[i + 1..], i, items[i]) == items
  {
    var rest := items[..i] + items[i + 1..];
    if i < |rest| {
      assert rest[..i] == items[..i] && rest[i..] == items[i + 1..];
    }
  }

  lemma {:induction false} FirstAtIsIndex(items: Items, id: string)
    requires FirstPath(items, id).Some? && FirstPath(items, id).value.At?
    ensures IndexOf(items, id) == Some(FirstPath(items, id).value.index)
  {
    if items[0].id != id {
      FirstAtIsIndex(items[1..], id);
    }
  }

  // ----- restored below the top -----

  /** The item above the located one is the first with its id, which is not empty, and it is a folder. */
  predicate ParentIsFirst(items: Items, path: Path, parent: string) {
    && parent != ""
    && path.Parent().Some?
    && FirstPath(items, parent) == path.Parent()
    && ItemAt(items, path.Parent().value).Some?
    && ItemAt(items, path.Parent().value).value.kind == Folder
  }

  ghost predicate Restored(items: Items, id: string, parent: string, position: int) {
    var (rest, removed) := Remove(items, id);
    removed.Some? && Insert(rest, parent, position, removed.value) == Ok(items)
  }

  ghost predicate SameAndFirst(items: Items, id: string, path: Option<Path>, parent: string) {
    path.Some? && path == FirstPath(items, id) && ParentIsFirst(items, path.value, parent)
  }

  lemma RemoveChanges(items: Items, id: string)
    requires Remove(items, id).1.Some?
    ensures Remove(items, id).0 != items
  {
    var removed := Remove(items, id).1.value;
    RemoveConserves(items, id, removed.id);
  }

  lemma InsertUnderChanges(items: Items, parent: string, index: int, item: Item)
    requires Find(items, parent).Some?
    ensures InsertUnder(items, parent, index, item) != items
  {
    InsertUnderConserves(items, parent, index, item, item.id);
  }

  lemma InsertAtChanges(items: Items, index: int, item: Item)
    ensures InsertAt(items, index, item) != items
  {
    assert |InsertAt(items, index, item)| == |items| + 1;
  }

  /** A path with an item above it, seen from in front of one more sibling. */
  lemma ParentBehind(head: Item, tail: Items, path: Path)
    requires path.Into?
    ensures path.Parent().Some? && path.Behind().Parent() == Further(path.Parent())
    ensures ItemAt([head] + tail, path.Parent().value.Behind()) == ItemAt(tail, path.Parent().value)
  {
    var parent := path.Parent().value;
    assert parent.index == path.index;
    assert parent.index < |tail| ==> ([head] + tail)[parent.index + 1] == tail[parent.index];
  }

  lemma ParentBelow(head: Item, tail: Items, path: Path)
    requires path.Into?
    ensures path.Parent().Some? && Into(0, path).Parent() == Deeper(path.Parent())
    ensures ItemAt([head] + tail, Into(0, path.Parent().value)) == ItemAt(head.children, path.Parent().value)
  {
  }

  lemma NotAtTheTop(items: Items, id: string, position: int)
    requires IndexOf(items, id).None?
    ensures !Restored(items, id, "", position)
  {
    var (rest, removed) := Remove(items, id);
    if removed.Some? {
      RemoveKeepsLevel(items, id);
      FindExactlyWhenThere(items, id);
      FirstPathExactly(items, id);
      if FirstPath(items, id).value.At? {
        FirstAtIsIndex(items, id);
      }
      InsertAtChanges(rest, position, removed.value);
      assert |InsertAt(rest, position, removed.value)| == |items| + 1;
    }
  }

  /** Put back directly under the head. */
  lemma RestoredUnderHead(items: Items, id: string, position: nat)
    requires items != [] && items[0].id != "" && items[0].id != id && Location(items[0].children, id).Some?
    requires position == Location(items[0].children, id).value.1
    ensures Restored(items, id, items[0].id, position)
            <==> SameAndFirst(items, id, Deeper(LocatedPath(items[0].children, id)), items[0].id)
  {
    hide InsertAt, InsertUnder, Remove;
    var head := items[0];
    LocatedPathExactly(head.children, id);
    FindExactlyWhenThere(head.children, id);
    FirstPathExactly(head.children, id);
    HeadRemoved(items, id);
    var (children, removed) := Remove(head.children, id);
    UnderHead(items, children, position, removed.value);
    if IndexOf(head.children, id).Some? {
      LevelRestoredExactly(head.children, id);
    } else {
      NotAtTheTop(head.children, id, position);
    }
  }

  lemma HeadRemoved(items: Items, id: string)
    requires items != [] && items[0].id != id && Remove(items[0].children, id).1.Some?
    ensures Remove(items, id)
            == ([items[0].(children := Remove(items[0].children, id).0)] + items[1..], Remove(items[0].children, id).1)
  {
  }

  lemma TailRemoved(items: Items, id: string)
    requires items != [] && items[0].id != id && Remove(items[0].children, id).1.None?
    ensures Remove(items, id) == ([items[0]] + Remove(items[1..], id).0, Remove(items[1..], id).1)
  {
    RemoveConserves(items[0].children, id, id);
  }

  lemma UnderHead(items: Items, children: Items, position: int, item: Item)
    requires items != [] && items[0].id != ""
    ensures Insert([items[0].(children := children)] + items[1..], items[0].id, position, item) == Ok(items)
            <==> items[0].kind == Folder && InsertAt(children, position, item) == items[0].children
  {
    hide InsertAt;
    var rest := [items[0].(children := children)] + items[1..];
    assert rest[1..] == items[1..] && items == [items[0]] + items[1..];
    if items[0].kind == Folder {
      var after := Insert(rest, items[0].id, position, item).value;
      assert after[0] == items[0].(children := InsertAt(children, position, item)) && after[1..] == items[1..];
    }
  }

  /** Put back somewhere below the head, but not directly under it. */
  lemma InsertBelowHead(items: Items, children: Items, parent: string, position: int, item: Item)
    requires items != [] && parent != "" && parent != items[0].id && children != items[0].children
    ensures Insert([items[0].(children := children)] + items[1..], parent, position, item) == Ok(items)
            <==> Insert(children, parent, position, item) == Ok(items[0].children)
  {
    hide InsertAt;
    var rest := [items[0].(children := children)] + items[1..];
    assert rest[1..] == items[1..] && items == [items[0]] + items[1..];
    var found := Find(children, parent);
    if found.Some? {
      if found.value.kind == Folder {
        var after := InsertUnder(rest, parent, position, item);
        assert after[0].children == InsertUnder(children, parent, position, item) && after[1..] == items[1..];
      }
    } else if Find(rest, parent).Some? && Find(rest, parent).value.kind == Folder {
      assert InsertUnder(rest, parent, position, item)[0].children == children;
    }
  }

  /** Put back behind the head. */
  lemma InsertBehindHead(items: Items, tail: Items, parent: string, position: int, item: Item)
    requires items != [] && parent != ""
    ensures Insert([items[0]] + tail, parent, position, item) == Ok(items)
            <==> parent != items[0].id && Find(items[0].children, parent).None?
                 && Insert(tail, parent, position, item) == Ok(items[1..])
  {
    hide InsertAt;
    var rest, head := [items[0]] + tail, items[0];
    assert rest[1..] == tail && items == [head] + items[1..];
    if Find(rest, parent).Some? && Find(rest, parent).value.kind == Folder {
      var after := InsertUnder(rest, parent, position, item);
      if parent == head.id {
        InsertAtChanges(head.children, position, item);
        assert after[0].children == InsertAt(head.children, position, item);
      } else if Find(head.children, parent).Some? {
        InsertUnderChanges(head.children, parent, position, item);
        assert after[0].children == InsertUnder(head.children, parent, position, item);
      } else {
        assert after[0] == head && after[1..] == InsertUnder(tail, parent, position, item);
      }
    }
  }

  /** Below the top the tree is restored exactly when the same item is meant and its parent is the first with its id. */
  lemma {:induction false} BelowRestoredExactly(items: Items, id: string)
    requires IndexOf(items, id).None? && LocationBelow(items, id).Some?
    ensures var (parent, position) := LocationBelow(items, id).value;
            Restored(items, id, parent, position) <==> SameAndFirst(items, id, LocatedPathBelow(items, id), parent)
    decreases items, 0
  {
    var (parent, position) := LocationBelow(items, id).value;
    LocatedPathExactly(items, id);
    LocatedPathExactly(items[0].children, id);
    if parent == "" {
      NotAtTheTop(items, id, position);
    } else if Location(items[0].children, id).None? {
      RestoredBehindHead(items, id);
    } else if parent == items[0].id {
      RestoredUnderHead(items, id, position);
    } else {
      RestoredBelowHead(items, id);
    }
  }

  lemma {:induction false} RestoredBelowHead(items: Items, id: string)
    requires IndexOf(items, id).None? && LocationBelow(items, id).Some? && items != []
    requires Location(items[0].children, id).Some?
    requires LocationBelow(items, id).value.0 != "" && LocationBelow(items, id).value.0 != items[0].id
    ensures var (parent, position) := LocationBelow(items, id).value;
            Restored(items, id, parent, position) <==> SameAndFirst(items, id, LocatedPathBelow(items, id), parent)
    decreases items[0].children, 1
  {
    hide Insert, Remove;
    var head := items[0];
    var (parent, position) := LocationBelow(items, id).value;
    assert LocationBelow(head.children, id) == Some((parent, position));
    LocatedPathExactly(head.children, id);
    FindExactlyWhenThere(head.children, id);
    FirstPathExactly(head.children, id);
    BelowRestoredExactly(head.children, id);
    HeadRemoved(items, id);
    RemoveChanges(head.children, id);
    InsertBelowHead(items, Remove(head.children, id).0, parent, position, Remove(head.children, id).1.value);
    assert items == [head] + items[1..];
    ParentBelow(head, items[1..], LocatedPathBelow(head.children, id).value);
  }

  lemma {:induction false} RestoredBehindHead(items: Items, id: string)
    requires IndexOf(items, id).None? && LocationBelow(items, id).Some? && items != []
    requires Location(items[0].children, id).None? && LocationBelow(items, id).value.0 != ""
    ensures var (parent, position) := LocationBelow(items, id).value;
            Restored(items, id, parent, position) <==> SameAndFirst(items, id, LocatedPathBelow(items, id), parent)
    decreases items[1..], 1
  {
    hide Insert, Remove, Find, Copies, ItemAt;
    var head := items[0];
    var (parent, position) := LocationBelow(items, id).value;
    LocatedPathExactly(head.children, id);
    LocatedPathExactly(items[1..], id);
    FindExactlyWhenThere(head.children, id);
    FindExactlyWhenThere(items[1..], id);
    FirstPathExactly(head.children, id);
    FirstPathExactly(items[1..], id);
    FirstPathExactly(head.children, parent);
    FindExactlyWhenThere(head.children, parent);
    BelowRestoredExactly(items[1..], id);
    TailRemoved(items, id);
    InsertBehindHead(items, Remove(items[1..], id).0, parent, position, Remove(items[1..], id).1.value);
    assert items == [head] + items[1..];
    ParentBehind(head, items[1..], LocatedPathBelow(items[1..], id).value);
  }

  /**
   * For every tree: taking an item out and inserting it where it was located restores the tree exactly when nothing in
   * front of the located item on its level holds the id and, below the top, the item above it is a folder and the
   * first with its own, non-empty id. Otherwise another item was taken out, or it was put back somewhere else.
   */
  lemma RestoredExactly(items: Items, id: string)
    requires Copies(items, id) > 0
    ensures Location(items, id).Some? && LocatedPath(items, id).Some?
    ensures var (parent, position) := Location(items, id).value;
            var path := LocatedPath(items, id).value;
            Restored(items, id, parent, position)
            <==> NothingInFront(items, path, id) && (path.At? || ParentIsFirst(items, path, parent))
  {
    LocatedPathExactly(items, id);
    SameItemExactly(items, id);
    FindExactlyWhenThere(items, id);
    if IndexOf(items, id).Some? {
      LevelRestoredExactly(items, id);
    } else {
      BelowRestoredExactly(items, id);
    }
  }
}
