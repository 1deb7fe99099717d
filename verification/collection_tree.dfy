/** The tree of a request collection: finding, locating, inserting and removing items. */
module CollectionTrees {
  import opened TextLines

  datatype Kind = Folder | Request

  datatype AuthType = Inherit | NoAuth | Bearer | Basic | ApiKey

  datatype Auth = Auth(kind: AuthType, credentials: string)

  datatype Item = Item(id: string, kind: Kind, name: string, auth: Option<Auth>, children: seq<Item>)

  type Items = seq<Item>

  datatype Error = ItemNotFound | ParentNotFound | ParentNotFolder | MoveIntoItself

  // ----- reading the tree -----

  /** The first item with the id, parents before children. */
  function Find(items: Items, id: string): Option<Item> {
    if items == [] then None
    else if items[0].id == id then Some(items[0])
    else if Find(items[0].children, id).Some? then Find(items[0].children, id)
    else Find(items[1..], id)
  }

  /** The items above the first item with the id, the outermost first. */
  function Ancestors(items: Items, id: string): Option<Items> {
    if items == [] then None
    else if items[0].id == id then Some([])
    else
      var below := Ancestors(items[0].children, id);
      if below.Some? then Some([items[0]] + below.value) else Ancestors(items[1..], id)
  }

  function IndexOf(items: Items, id: string): (index: Option<nat>)
    ensures index.Some? ==> index.value < |items| && items[index.value].id == id
  {
    if items == [] then None
    else if items[0].id == id then Some(0)
    else
      var index := IndexOf(items[1..], id);
      if index.Some? then Some(index.value + 1) else None
  }

  /**
   * The id of the parent, empty at the top, and the place among the children; a level is searched before what is
   * below it.
   */
  function Location(items: Items, id: string): Option<(string, nat)>
    decreases items, 1
  {
    var index := IndexOf(items, id);
    if index.Some? then Some(("", index.value)) else LocationBelow(items, id)
  }

  function LocationBelow(items: Items, id: string): Option<(string, nat)>
    decreases items, 0
  {
    if items == [] then None
    else
      match Location(items[0].children, id)
      case None => LocationBelow(items[1..], id)
      case Some((parent, position)) => Some((if parent == "" then items[0].id else parent, position))
  }

  predicate Contains(item: Item, id: string) {
    item.id == id || Find(item.children, id).Some?
  }

  // ----- changing the tree -----

  function InsertAt(items: Items, index: int, item: Item): Items {
    if index < 0 || index >= |items| then items + [item]
    else items[..index] + [item] + items[index..]
  }

  /** Inserts under the first item with the id of the parent. */
  function InsertUnder(items: Items, parent: string, index: int, item: Item): Items {
    if items == [] then []
    else if items[0].id == parent then
      [items[0].(children := InsertAt(items[0].children, index, item))] + items[1..]
    else if Find(items[0].children, parent).Some? then
      [items[0].(children := InsertUnder(items[0].children, parent, index, item))] + items[1..]
    else [items[0]] + InsertUnder(items[1..], parent, index, item)
  }

  function Insert(items: Items, parent: string, index: int, item: Item): Result<Items, Error> {
    if parent == "" then Ok(InsertAt(items, index, item))
    else
      match Find(items, parent)
      case None => Err(ParentNotFound)
      case Some(found) =>
        if found.kind != Folder then Err(ParentNotFolder) else Ok(InsertUnder(items, parent, index, item))
  }

  /** Takes out the first item with the id. */
  function Remove(items: Items, id: string): (Items, Option<Item>) {
    if items == [] then (items, None)
    else if items[0].id == id then (items[1..], Some(items[0]))
    else
      var (children, below) := Remove(items[0].children, id);
      if below.Some? then ([items[0].(children := children)] + items[1..], below)
      else
        var (rest, after) := Remove(items[1..], id);
        ([items[0]] + rest, after)
  }

  // ----- ids -----

  /** How many items of the tree have the id. */
  function Copies(items: Items, id: string): nat {
    if items == [] then 0
    else (if items[0].id == id then 1 else 0) + Copies(items[0].children, id) + Copies(items[1..], id)
  }

  function CopiesIn(item: Item, id: string): nat {
    (if item.id == id then 1 else 0) + Copies(item.children, id)
  }

  ghost predicate UniqueIds(items: Items) {
    forall id :: Copies(items, id) <= 1
  }

  predicate OnlyFoldersHaveChildren(items: Items) {
    items == [] ||
    ((items[0].children == [] || items[0].kind == Folder) && OnlyFoldersHaveChildren(items[0].children)
     && OnlyFoldersHaveChildren(items[1..]))
  }

  ghost predicate WellFormed(items: Items) {
    UniqueIds(items) && Copies(items, "") == 0 && OnlyFoldersHaveChildren(items)
  }

  lemma {:induction false} CopiesOfConcat(a: Items, b: Items, id: string)
    ensures Copies(a + b, id) == Copies(a, id) + Copies(b, id)
  {
    if a == [] {
      assert a + b == b;
    } else {
      assert (a + b)[1..] == a[1..] + b;
      CopiesOfConcat(a[1..], b, id);
    }
  }

  lemma CopiesOfSingle(item: Item, id: string)
    ensures Copies([item], id) == CopiesIn(item, id)
  {
    assert [item][1..] == [];
  }

  lemma {:induction false} FindExactlyWhenThere(items: Items, id: string)
    ensures Find(items, id).Some? <==> Copies(items, id) > 0
    ensures Ancestors(items, id).Some? <==> Copies(items, id) > 0
    ensures Remove(items, id).1.Some? <==> Copies(items, id) > 0
    ensures Find(items, id).Some? ==> Find(items, id).value.id == id
    decreases items
  {
    if items != [] {
      FindExactlyWhenThere(items[0].children, id);
      FindExactlyWhenThere(items[1..], id);
    }
  }

  lemma {:induction false} IndexOfExactlyWhenThere(items: Items, id: string)
    ensures IndexOf(items, id).Some? ==> Copies(items, id) > 0
  {
    if items != [] {
      IndexOfExactlyWhenThere(items[1..], id);
    }
  }

  lemma {:induction false} LocatedExactlyWhenThere(items: Items, id: string)
    ensures Location(items, id).Some? <==> Copies(items, id) > 0
    ensures LocationBelow(items, id).Some? ==> Copies(items, id) > 0
    ensures IndexOf(items, id).None? && Copies(items, id) > 0 ==> LocationBelow(items, id).Some?
    decreases items
  {
    IndexOfExactlyWhenThere(items, id);
    if items != [] {
      LocatedExactlyWhenThere(items[0].children, id);
      LocatedExactlyWhenThere(items[1..], id);
    }
  }

  /** Removing takes out the found item with everything below it and loses nothing else. */
  lemma {:induction false} RemoveConserves(items: Items, id: string, x: string)
    ensures var (rest, removed) := Remove(items, id);
            if removed.None? then rest == items
            else removed == Find(items, id) && Copies(rest, x) + CopiesIn(removed.value, x) == Copies(items, x)
    decreases items
  {
    if items != [] {
      FindExactlyWhenThere(items[0].children, id);
      RemoveConserves(items[0].children, id, x);
      RemoveConserves(items[1..], id, x);
      var rest := Remove(items, id).0;
      if items[0].id != id {
        assert rest[1..] == if Remove(items[0].children, id).1.Some? then items[1..] else Remove(items[1..], id).0;
      }
    }
  }

  /** With unique ids nothing of the removed part is left. */
  lemma RemovedIsGone(items: Items, id: string, below: string)
    requires UniqueIds(items) && Remove(items, id).1.Some?
    requires CopiesIn(Remove(items, id).1.value, below) > 0
    ensures Copies(Remove(items, id).0, below) == 0
  {
    RemoveConserves(items, id, below);
    assert Copies(items, below) <= 1;
  }

  lemma InsertAtConserves(items: Items, index: int, item: Item, x: string)
    ensures Copies(InsertAt(items, index, item), x) == Copies(items, x) + CopiesIn(item, x)
  {
    CopiesOfSingle(item, x);
    if index < 0 || index >= |items| {
      CopiesOfConcat(items, [item], x);
    } else {
      CopiesOfConcat(items[..index], [item], x);
      CopiesOfConcat(items[..index] + [item], items[index..], x);
      CopiesOfConcat(items[..index], items[index..], x);
      assert items[..index] + items[index..] == items;
    }
  }

  lemma {:induction false} InsertUnderConserves(items: Items, parent: string, index: int, item: Item, x: string)
    requires Find(items, parent).Some?
    ensures Copies(InsertUnder(items, parent, index, item), x) == Copies(items, x) + CopiesIn(item, x)
    decreases items
  {
    hide InsertAt;
    var after := InsertUnder(items, parent, index, item);
    if items[0].id == parent {
      InsertAtConserves(items[0].children, index, item, x);
      assert after[1..] == items[1..];
    } else if Find(items[0].children, parent).Some? {
      InsertUnderConserves(items[0].children, parent, index, item, x);
      assert after[1..] == items[1..];
    } else {
      InsertUnderConserves(items[1..], parent, index, item, x);
      assert after[1..] == InsertUnder(items[1..], parent, index, item);
    }
  }

  /** Inserting adds the item with everything below it and loses nothing. */
  lemma InsertConserves(items: Items, parent: string, index: int, item: Item, x: string)
    requires Insert(items, parent, index, item).Ok?
    ensures Copies(Insert(items, parent, index, item).value, x) == Copies(items, x) + CopiesIn(item, x)
  {
    hide InsertUnder, InsertAt;
    if parent == "" {
      InsertAtConserves(items, index, item, x);
    } else {
      InsertUnderConserves(items, parent, index, item, x);
    }
  }

  // ----- inserting is undone by removing, and the place is the recorded one -----

  function Clamped(count: nat, index: int): nat {
    if 0 <= index < count then index else count
  }

  lemma {:induction false} RemoveAtLevel(items: Items, id: string, i: nat)
    requires i < |items| && items[i].id == id && Copies(items[..i], id) == 0
    ensures Remove(items, id) == (items[..i] + items[i + 1..], Some(items[i]))
    ensures IndexOf(items, id) == Some(i)
  {
    if i > 0 {
      assert items[..i][0] == items[0] && items[..i][1..] == items[1..][..i - 1];
      FindExactlyWhenThere(items[0].children, id);
      RemoveAtLevel(items[1..], id, i - 1);
      assert items[1..][i..] == items[i + 1..];
      assert [items[0]] + (items[1..][..i - 1] + items[i + 1..]) == items[..i] + items[i + 1..];
    } else {
      assert items[..0] + items[1..] == items[1..];
    }
  }

  lemma InsertAtSplits(items: Items, index: int, item: Item)
    ensures var i, after := Clamped(|items|, index), InsertAt(items, index, item);
            |after| == |items| + 1 && after[..i] == items[..i] && after[i] == item && after[i + 1..] == items[i..]
  {
  }

  lemma InsertAtThenRemove(items: Items, index: int, item: Item)
    requires Copies(items, item.id) == 0
    ensures Remove(InsertAt(items, index, item), item.id) == (items, Some(item))
    ensures IndexOf(InsertAt(items, index, item), item.id) == Some(Clamped(|items|, index))
  {
    hide Remove, IndexOf, Copies;
    var i := Clamped(|items|, index);
    var after := InsertAt(items, index, item);
    InsertAtSplits(items, index, item);
    assert items == items[..i] + items[i..];
    CopiesOfConcat(items[..i], items[i..], item.id);
    RemoveAtLevel(after, item.id, i);
  }
}
