/** The authorization that a request of a collection is sent with. */
module CollectionAuth {
  import opened TextLines
  import opened CollectionTrees

  datatype Content = Content(auth: Auth, items: Items)

  /** What an item hands down to its children. */
  function HandedDown(item: Item, inherited: Auth): Auth {
    if item.auth.Some? && item.auth.value.kind != Inherit then item.auth.value else inherited
  }

  /** A pass from the top of the tree to the first item with the id: what reaches that item. */
  function Reaching(items: Items, id: string, inherited: Auth): Option<Auth> {
    if items == [] then None
    else if items[0].id == id then Some(inherited)
    else
      var below := Reaching(items[0].children, id, HandedDown(items[0], inherited));
      if below.Some? then below else Reaching(items[1..], id, inherited)
  }

  function RootAuth(content: Content): Auth {
    if content.auth.kind == Inherit then Auth(NoAuth, "") else content.auth
  }

  /** The pass over the ancestors alone, the outermost first. */
  function HandedThrough(ancestors: Items, inherited: Auth): Auth {
    if ancestors == [] then inherited else HandedThrough(ancestors[1..], HandedDown(ancestors[0], inherited))
  }

  lemma {:induction false} ReachingIsHandedThrough(items: Items, id: string, inherited: Auth)
    ensures Reaching(items, id, inherited)
            == match Ancestors(items, id) {
                 case None => None
                 case Some(ancestors) => Some(HandedThrough(ancestors, inherited))
               }
    decreases items
  {
    if items != [] && items[0].id != id {
      ReachingIsHandedThrough(items[0].children, id, HandedDown(items[0], inherited));
      ReachingIsHandedThrough(items[1..], id, inherited);
      var below := Ancestors(items[0].children, id);
      if below.Some? {
        assert ([items[0]] + below.value)[1..] == below.value;
      }
    }
  }

  /** The last ancestor has the last word. */
  lemma {:induction false} HandedThroughLast(ancestors: Items, inherited: Auth)
    requires ancestors != []
    ensures HandedThrough(ancestors, inherited)
            == HandedDown(ancestors[|ancestors| - 1], HandedThrough(ancestors[..|ancestors| - 1], inherited))
  {
    var last := ancestors[|ancestors| - 1];
    if |ancestors| == 1 {
      assert ancestors[1..] == [] && ancestors[..0] == [];
    } else {
      HandedThroughLast(ancestors[1..], HandedDown(ancestors[0], inherited));
      assert ancestors[1..][..|ancestors| - 2] == ancestors[..|ancestors| - 1][1..];
    }
  }

  lemma {:induction false} HandedThroughPrefix(ancestors: Items, inherited: Auth, n: nat)
    requires n <= |ancestors|
    requires forall i | n <= i < |ancestors| :: ancestors[i].auth.None? || ancestors[i].auth.value.kind == Inherit
    ensures HandedThrough(ancestors, inherited) == HandedThrough(ancestors[..n], inherited)
  {
    if n == |ancestors| {
      assert ancestors[..n] == ancestors;
    } else {
      HandedThroughLast(ancestors, inherited);
      HandedThroughPrefix(ancestors[..|ancestors| - 1], inherited, n);
      assert ancestors[..|ancestors| - 1][..n] == ancestors[..n];
    }
  }

  /**
   * What a request inherits: what the pass from the top hands to its item, or to the top when there is no such item.
   */
  function Inherited(content: Content, id: string): Auth {
    match Reaching(content.items, id, RootAuth(content))
    case Some(auth) => auth
    case None => RootAuth(content)
  }

  /** The nearest folder above the item with an authorization of its own decides. */
  method EffectiveAuth(content: Option<Content>, id: string, requestAuth: Auth) returns (auth: Auth)
    ensures auth == if requestAuth.kind != Inherit then requestAuth
                    else if content.None? then Auth(NoAuth, "")
                    else Inherited(content.value, id)
  {
    if requestAuth.kind != Inherit {
      return requestAuth;
    }
    if content.None? {
      return Auth(NoAuth, "");
    }
    var items, root := content.value.items, RootAuth(content.value);
    var found := Ancestors(items, id);
    ReachingIsHandedThrough(items, id, root);
    var ancestors := if found.Some? then found.value else [];
    var position := |ancestors|;
    while position > 0
      invariant 0 <= position <= |ancestors|
      invariant forall i | position <= i < |ancestors| ::
                  ancestors[i].auth.None? || ancestors[i].auth.value.kind == Inherit
    {
      position := position - 1;
      var folderAuth := ancestors[position].auth;
      if folderAuth.Some? && folderAuth.value.kind != Inherit {
        HandedThroughPrefix(ancestors, root, position + 1);
        HandedThroughLast(ancestors[..position + 1], root);
        return folderAuth.value;
      }
    }
    HandedThroughPrefix(ancestors, root, 0);
    if content.value.auth.kind == Inherit {
      return Auth(NoAuth, "");
    }
    return content.value.auth;
  }

  /** The folder has an authorization of its own. */
  predicate Owns(item: Item) {
    item.auth.Some? && item.auth.value.kind != Inherit
  }

  /**
   * What a request inherits: the authorization of the lowest folder above it that has one of its own, or else that of
   * the collection, where "inherit" means none.
   */
  lemma NearestFolderDecides(content: Content, id: string, nearest: nat)
    ensures var ancestors := if Ancestors(content.items, id).Some? then Ancestors(content.items, id).value else [];
            && (nearest < |ancestors| && Owns(ancestors[nearest])
                && (forall i | nearest < i < |ancestors| :: !Owns(ancestors[i]))
                ==> Inherited(content, id) == ancestors[nearest].auth.value)
            && ((forall i | 0 <= i < |ancestors| :: !Owns(ancestors[i]))
                ==> Inherited(content, id) == if content.auth.kind == Inherit then Auth(NoAuth, "") else content.auth)
  {
    var ancestors := if Ancestors(content.items, id).Some? then Ancestors(content.items, id).value else [];
    var root := RootAuth(content);
    ReachingIsHandedThrough(content.items, id, root);
    hide Reaching, Ancestors, HandedThrough;
    if nearest < |ancestors| && Owns(ancestors[nearest])
       && forall i | nearest < i < |ancestors| :: !Owns(ancestors[i]) {
      HandedThroughPrefix(ancestors, root, nearest + 1);
      HandedThroughLast(ancestors[..nearest + 1], root);
    }
    if forall i | 0 <= i < |ancestors| :: !Owns(ancestors[i]) {
      HandedThroughPrefix(ancestors, root, 0);
      NoFolders(root);
      assert ancestors[..0] == [];
    }
  }

  lemma NoFolders(root: Auth)
    ensures HandedThrough([], root) == root
  {
  }

  /** Each item of a chain is a child of the one before it, the first one stands at the top. */
  predicate IsChain(items: Items, chain: Items) {
    chain == [] || (chain[0] in items && IsChain(chain[0].children, chain[1..]))
  }

  /** The ancestors of the found item are the folders that lead to it from the top. */
  lemma {:induction false} AncestorsLeadToTheItem(items: Items, id: string)
    requires Ancestors(items, id).Some?
    ensures Find(items, id).Some? && IsChain(items, Ancestors(items, id).value + [Find(items, id).value])
    decreases items
  {
    FindExactlyWhenThere(items, id);
    FindExactlyWhenThere(items[0].children, id);
    if items[0].id == id {
      assert [] + [items[0]] == [items[0]] && [items[0]][1..] == [];
    } else if Ancestors(items[0].children, id).Some? {
      AncestorsLeadToTheItem(items[0].children, id);
      var below, found := Ancestors(items[0].children, id).value, Find(items, id).value;
      assert ([items[0]] + below + [found])[1..] == below + [found];
    } else {
      AncestorsLeadToTheItem(items[1..], id);
      StaysAChain(items, Ancestors(items, id).value + [Find(items, id).value]);
    }
  }

  lemma StaysAChain(items: Items, chain: Items)
    requires items != [] && IsChain(items[1..], chain)
    ensures IsChain(items, chain)
  {
  }

  lemma {:induction false} NothingInheritReaches(items: Items, id: string, inherited: Auth)
    requires inherited.kind != Inherit
    ensures Reaching(items, id, inherited).Some? ==> Reaching(items, id, inherited).value.kind != Inherit
    decreases items
  {
    if items != [] {
      NothingInheritReaches(items[0].children, id, HandedDown(items[0], inherited));
      NothingInheritReaches(items[1..], id, inherited);
    }
  }

  /** A request is never sent with "inherit". */
  lemma InheritedIsNeverInherit(content: Content, id: string)
    ensures Inherited(content, id).kind != Inherit
  {
    NothingInheritReaches(content.items, id, RootAuth(content));
  }
}
