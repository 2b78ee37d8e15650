/** The tree store of src/FolderTree.tsx: its recursive operations over the forest of items.
    Each operation is a function of the forest before it; the ones the source writes as loops
    (the accumulating `reduce` of removeItemFromTree, the `map`/`reduce` of insertItemInTree,
    the early-return `for` loops of findItem and isDescendant) are also methods with those loops,
    proved to compute the function. */
module FolderTree {
  import opened Types
  import opened Forest

  /** What removeItemFromTree returns: the pruned forest and the detached node, if any. */
  datatype Extraction = Extraction(tree: seq<Node>, removed: Option<Node>)

  // ---------------------------------------------------------------------------------------
  // removeItemFromTree

  /** Drops every node whose id is itemId, at any depth (a dropped node's subtree goes with
      it) and reports the last one met in display order. */
  function Remove(itemList: seq<Node>, itemId: Id): (r: Extraction)
    ensures r.removed.Some? ==> r.removed.value.id == itemId
    decreases itemList
  {
    if itemList == [] then Extraction([], None)
    else
      var item := itemList[0];
      var rest := Remove(itemList[1..], itemId);
      var later := rest.removed;
      if item.id == itemId then
        Extraction(rest.tree, if later.Some? then later else Some(item))
      else if item.Folder? then
        var sub := Remove(item.children, itemId);
        var kept := item.(children := sub.tree);
        Extraction([kept] + rest.tree, if later.Some? then later else sub.removed)
      else
        Extraction([item] + rest.tree, later)
  }

  /** Removal from a concatenation: the pruned parts are concatenated and the later part's
      match wins, as the accumulating loop of the source sees it. */
  lemma {:induction false} RemoveAppend(a: seq<Node>, b: seq<Node>, itemId: Id)
    ensures Remove(a + b, itemId).tree == Remove(a, itemId).tree + Remove(b, itemId).tree
    ensures Remove(a + b, itemId).removed
         == if Remove(b, itemId).removed.Some? then Remove(b, itemId).removed else Remove(a, itemId).removed
    decreases a
  {
    if a == [] {
      assert a + b == b;
      assert Remove(a, itemId).tree + Remove(b, itemId).tree == Remove(b, itemId).tree;
    } else {
      assert (a + b)[0] == a[0];
      assert (a + b)[1..] == a[1..] + b;
      RemoveAppend(a[1..], b, itemId);
      RemoveConsStep(a[0], a[1..], b, itemId);
      assert a == [a[0]] + a[1..];
    }
  }

  /** One step of RemoveAppend: the head root is treated the same way in a and in a + b. */
  lemma RemoveConsStep(item: Node, a: seq<Node>, b: seq<Node>, itemId: Id)
    requires Remove(a + b, itemId).tree == Remove(a, itemId).tree + Remove(b, itemId).tree
    requires Remove(a + b, itemId).removed
         == if Remove(b, itemId).removed.Some? then Remove(b, itemId).removed else Remove(a, itemId).removed
    ensures Remove([item] + (a + b), itemId).tree == Remove([item] + a, itemId).tree + Remove(b, itemId).tree
    ensures Remove([item] + (a + b), itemId).removed
         == if Remove(b, itemId).removed.Some? then Remove(b, itemId).removed else Remove([item] + a, itemId).removed
  {
    assert ([item] + (a + b))[1..] == a + b;
    assert ([item] + a)[1..] == a;
    var back := Remove(b, itemId);
    var restAll, restFront := Remove(a + b, itemId), Remove(a, itemId);
    if item.id != itemId {
      var kept := if item.Folder? then item.(children := Remove(item.children, itemId).tree) else item;
      assert [kept] + (restFront.tree + back.tree) == ([kept] + restFront.tree) + back.tree;
    }
  }

  method RemoveItemFromTree(itemList: seq<Node>, itemId: Id) returns (tree: seq<Node>, removed: Option<Node>)
    ensures Extraction(tree, removed) == Remove(itemList, itemId)
    decreases itemList
  {
    removed := None;
    var acc: seq<Node> := [];
    for i := 0 to |itemList|
      invariant Extraction(acc, removed) == Remove(itemList[..i], itemId)
    {
      var item := itemList[i];
      assert itemList[..i + 1] == itemList[..i] + [item];
      RemoveAppend(itemList[..i], [item], itemId);
      assert [item][1..] == [];
      if item.id == itemId {
        removed := Some(item);
      } else {
        if item.Folder? {
          var subTree, subRemoved := RemoveItemFromTree(item.children, itemId);
          item := item.(children := subTree);
          if subRemoved.Some? {
            removed := subRemoved;
          }
        }
        acc := acc + [item];
      }
    }
    assert itemList[..|itemList|] == itemList;
    tree := acc;
  }

  // ---------------------------------------------------------------------------------------
  // insertItemInTree

  /** Places itemToInsert before or after every node whose id is targetId, or at the end of
      the children of every folder with that id. */
  function Insert(itemList: seq<Node>, targetId: Id, itemToInsert: Node, position: Position): seq<Node>
    decreases itemList, 1
  {
    Splice(MapInsert(itemList, targetId, itemToInsert, position), targetId, itemToInsert, position)
  }

  /** The `map` pass: each root rewritten by InsertInto. */
  function MapInsert(itemList: seq<Node>, targetId: Id, itemToInsert: Node, position: Position): (r: seq<Node>)
    ensures |r| == |itemList|
    ensures forall k :: 0 <= k < |r| ==> r[k] == InsertInto(itemList[k], targetId, itemToInsert, position)
    decreases itemList, 0
  {
    if itemList == [] then []
    else [InsertInto(itemList[0], targetId, itemToInsert, position)] + MapInsert(itemList[1..], targetId, itemToInsert, position)
  }

  /** The `map` callback: a matching folder gets itemToInsert appended when the position is
      inside (and is not searched further); any other folder is searched recursively. */
  function InsertInto(item: Node, targetId: Id, itemToInsert: Node, position: Position): (r: Node)
    ensures r.id == item.id && r.Folder? == item.Folder?
    decreases item
  {
    if item.id == targetId && item.Folder? && position == Inside then
      item.(children := item.children + [itemToInsert])
    else if item.Folder? then
      item.(children := Insert(item.children, targetId, itemToInsert, position))
    else item
  }

  /** The `reduce` pass over the mapped roots. */
  function Splice(mapped: seq<Node>, targetId: Id, itemToInsert: Node, position: Position): seq<Node>
  {
    if mapped == [] then []
    else Placed(mapped[0], targetId, itemToInsert, position) + Splice(mapped[1..], targetId, itemToInsert, position)
  }

  /** The `reduce` callback: a matching root gets itemToInsert as its new left or right
      neighbour when the position is before or after. */
  function Placed(item: Node, targetId: Id, itemToInsert: Node, position: Position): seq<Node>
  {
    if item.id == targetId && (position == Before || position == After) then
      if position == Before then [itemToInsert, item] else [item, itemToInsert]
    else [item]
  }

  lemma InsertCons(a: Node, g: seq<Node>, targetId: Id, x: Node, position: Position)
    ensures Insert([a] + g, targetId, x, position)
         == Placed(InsertInto(a, targetId, x, position), targetId, x, position) + Insert(g, targetId, x, position)
  {
    var m := MapInsert([a] + g, targetId, x, position);
    assert m == [InsertInto(a, targetId, x, position)] + MapInsert(g, targetId, x, position);
    assert m[1..] == MapInsert(g, targetId, x, position);
  }

  /** The reduce pass over a concatenation is the concatenation of the two passes. */
  lemma {:induction false} SpliceAppend(a: seq<Node>, b: seq<Node>, targetId: Id, x: Node, position: Position)
    ensures Splice(a + b, targetId, x, position) == Splice(a, targetId, x, position) + Splice(b, targetId, x, position)
    decreases a
  {
    if a == [] {
      assert a + b == b;
    } else {
      assert (a + b)[1..] == a[1..] + b;
      SpliceAppend(a[1..], b, targetId, x, position);
    }
  }

  lemma SpliceOne(item: Node, targetId: Id, x: Node, position: Position)
    ensures Splice([item], targetId, x, position) == Placed(item, targetId, x, position)
  {
    assert [item][1..] == [];
  }

  /** The map loop's rewrite of one root is the InsertInto callback. */
  lemma InsertIntoStep(item: Node, item': Node, targetId: Id, itemToInsert: Node, position: Position)
    requires item.id == targetId && item.Folder? && position == Inside ==> item' == item.(children := item.children + [itemToInsert])
    requires !(item.id == targetId && item.Folder? && position == Inside) && item.Folder? ==>
      item' == item.(children := Insert(item.children, targetId, itemToInsert, position))
    requires !item.Folder? ==> item' == item
    ensures item' == InsertInto(item, targetId, itemToInsert, position)
  {
  }

  method InsertItemInTree(itemList: seq<Node>, targetId: Id, itemToInsert: Node, position: Position)
    returns (r: seq<Node>)
    ensures r == Insert(itemList, targetId, itemToInsert, position)
    decreases itemList
  {
    var mapped: seq<Node> := [];
    for i := 0 to |itemList|
      invariant |mapped| == i
      invariant forall k :: 0 <= k < i ==> mapped[k] == InsertInto(itemList[k], targetId, itemToInsert, position)
    {
      var item := itemList[i];
      if item.id == targetId && item.Folder? && position == Inside {
        item := item.(children := item.children + [itemToInsert]);
      } else if item.Folder? {
        var children := InsertItemInTree(item.children, targetId, itemToInsert, position);
        item := item.(children := children);
      }
      InsertIntoStep(itemList[i], item, targetId, itemToInsert, position);
      mapped := mapped + [item];
    }
    assert mapped == MapInsert(itemList, targetId, itemToInsert, position);
    r := [];
    for i := 0 to |mapped|
      invariant r == Splice(mapped[..i], targetId, itemToInsert, position)
    {
      var item := mapped[i];
      assert mapped[..i + 1] == mapped[..i] + [item];
      SpliceAppend(mapped[..i], [item], targetId, itemToInsert, position);
      SpliceOne(item, targetId, itemToInsert, position);
      ghost var next := r + Placed(item, targetId, itemToInsert, position);
      assert next == Splice(mapped[..i + 1], targetId, itemToInsert, position);
      if item.id == targetId && (position == Before || position == After) {
        if position == Before {
          r := r + [itemToInsert, item];
        } else {
          r := r + [item, itemToInsert];
        }
      } else {
        r := r + [item];
      }
    }
    assert mapped[..|mapped|] == mapped;
  }

  // ---------------------------------------------------------------------------------------
  // findItem and isDescendant (nested in handleMoveItem)

  /** The first node in display order whose id is id. */
  function Find(list: seq<Node>, id: Id): (r: Option<Node>)
    ensures r.Some? ==> r.value.id == id
    ensures r.Some? <==> id in Ids(list)
    decreases list
  {
    if list == [] then None
    else if list[0].id == id then Some(list[0])
    else
      var found := if list[0].Folder? then Find(list[0].children, id) else None;
      if found.Some? then found else Find(list[1..], id)
  }

  method FindItem(list: seq<Node>, id: Id) returns (found: Option<Node>)
    ensures found == Find(list, id)
    decreases list
  {
    for i := 0 to |list|
      invariant Find(list[i..], id) == Find(list, id)
    {
      var itm := list[i];
      assert list[i..][1..] == list[i + 1..];
      if itm.id == id {
        return Some(itm);
      }
      if itm.Folder? {
        var inner := FindItem(itm.children, id);
        if inner.Some? {
          return inner;
        }
      }
    }
    return None;
  }

  /** Whether childId is the id of parent or of one of its descendants. */
  function Contains(parent: Node, childId: Id): (r: bool)
    ensures r <==> childId in SubtreeIds(parent)
    decreases parent
  {
    SubtreeMember(parent, childId);
    parent.id == childId
    || (parent.Folder? && exists child :: child in parent.children && Contains(child, childId))
  }

  method IsDescendant(parent: Node, childId: Id) returns (b: bool)
    ensures b == Contains(parent, childId)
    decreases parent
  {
    if parent.id == childId {
      return true;
    }
    if parent.Folder? {
      for i := 0 to |parent.children|
        invariant forall k :: 0 <= k < i ==> !Contains(parent.children[k], childId)
      {
        var inChild := IsDescendant(parent.children[i], childId);
        if inChild {
          return true;
        }
      }
    }
    return false;
  }

  // ---------------------------------------------------------------------------------------
  // handleMoveItem and handleMoveItemToRoot

  /** The guard of handleMoveItem for an inside move: the target is still in the pruned forest
      and lies in the detached subtree. */
  function CycleGuard(ex: Extraction, targetId: Id): bool
    requires ex.removed.Some?
  {
    Find(ex.tree, targetId).Some? && Contains(ex.removed.value, targetId)
  }

  /** What removeItemFromTree leaves behind in the store's own forest: its assignments to
      `item.children` prune every non-matching root folder in place, while the root list itself
      is untouched. */
  function DetachNested(items: seq<Node>, dragId: Id): (r: seq<Node>)
    ensures |r| == |items|
    ensures forall k :: 0 <= k < |r| ==> r[k].id == items[k].id
    decreases items
  {
    if items == [] then []
    else
      var item := items[0];
      var kept := if item.id != dragId && item.Folder? then item.(children := Remove(item.children, dragId).tree) else item;
      [kept] + DetachNested(items[1..], dragId)
  }

  /** removeItemFromTree detaches a node exactly when the id occurs somewhere in the forest. */
  lemma {:induction false} RemoveFound(f: seq<Node>, id: Id)
    ensures Remove(f, id).removed.Some? <==> id in Ids(f)
    decreases f
  {
    if f != [] {
      assert f == [f[0]] + f[1..];
      IdsCons(f[0], f[1..]);
      RemoveFound(f[1..], id);
      if f[0].Folder? {
        RemoveFound(f[0].children, id);
      }
    }
  }

  /** The forest after handleMoveItem(dragId, targetId, position). */
  function MoveItem(items: seq<Node>, dragId: Id, targetId: Id, position: Position): (r: seq<Node>)
    ensures dragId == targetId ==> r == items
    ensures dragId !in Ids(items) ==> r == items
  {
    RemoveFound(items, dragId);
    if dragId == targetId then items
    else
      var ex := Remove(items, dragId);
      if ex.removed.None? then items
      else if position == Inside && CycleGuard(ex, targetId) then DetachNested(items, dragId)
      else Insert(ex.tree, targetId, ex.removed.value, position)
  }

  /** The forest after handleMoveItemToRoot(dragId): the detached node becomes the last root. */
  function MoveItemToRoot(items: seq<Node>, dragId: Id): (r: seq<Node>)
    ensures dragId !in Ids(items) ==> r == items
    ensures dragId in Ids(items) ==> |r| > 0 && r[|r| - 1].id == dragId
  {
    RemoveFound(items, dragId);
    var ex := Remove(items, dragId);
    if ex.removed.None? then items else ex.tree + [ex.removed.value]
  }

  // ---------------------------------------------------------------------------------------
  // handleAddFolder, handleAddFile, handleRenameItem, handleToggleItem, handleDeleteItem

  /** A new folder: empty name, no children, expanded. */
  function NewFolder(newId: Id): Node {
    Folder(newId, "", [], false)
  }

  /** A new file: empty name. */
  function NewFile(newId: Id): Node {
    File(newId, "")
  }

  /** The forest with a new folder as its last root. */
  function AddFolder(items: seq<Node>, newId: Id): (r: seq<Node>)
    ensures |r| == |items| + 1 && r[..|items|] == items
    ensures r[|items|] == Folder(newId, "", [], false)
    ensures Ids(r) == Ids(items) + [newId]
  {
    IdsAppend(items, [NewFolder(newId)]);
    IdsCons(NewFolder(newId), []);
    items + [NewFolder(newId)]
  }

  /** The forest with a new file as its last root. */
  function AddFile(items: seq<Node>, newId: Id): (r: seq<Node>)
    ensures |r| == |items| + 1 && r[..|items|] == items
    ensures r[|items|] == File(newId, "")
    ensures Ids(r) == Ids(items) + [newId]
  {
    IdsAppend(items, [NewFile(newId)]);
    IdsCons(NewFile(newId), []);
    items + [NewFile(newId)]
  }

  /** The name the rename callback stores: newName, or the kind's default when it is empty
      (a name of blanks is kept as it is). */
  function RenamedTo(item: Node, newName: string): (r: string)
    ensures r != ""
    ensures newName != "" ==> r == newName
    ensures newName == "" ==> r == DefaultName(item)
  {
    if newName == "" then DefaultName(item) else newName
  }

  /** Renames every node whose id is itemId (a renamed node is not searched further). */
  function Rename(list: seq<Node>, itemId: Id, newName: string): (r: seq<Node>)
    ensures Ids(r) == Ids(list)
    ensures SameShape(list, r)
    decreases list
  {
    if list == [] then []
    else
      var item := list[0];
      var m :=
        if item.id == itemId then item.(name := RenamedTo(item, newName))
        else if item.Folder? then item.(children := Rename(item.children, itemId, newName))
        else item;
      SameShapeRefl(list);
      IdsCons(m, Rename(list[1..], itemId, newName));
      assert ([m] + Rename(list[1..], itemId, newName))[1..] == Rename(list[1..], itemId, newName);
      [m] + Rename(list[1..], itemId, newName)
  }

  /** Flips the collapsed flag of every folder whose id is itemId (a toggled folder is not
      searched further); a file with that id is left as it is. */
  function Toggle(list: seq<Node>, itemId: Id): (r: seq<Node>)
    ensures Ids(r) == Ids(list)
    ensures SameShape(list, r)
    decreases list
  {
    if list == [] then []
    else
      var item := list[0];
      var m :=
        if item.id == itemId && item.Folder? then item.(collapsed := !item.collapsed)
        else if item.Folder? then item.(children := Toggle(item.children, itemId))
        else item;
      SameShapeRefl(list);
      IdsCons(m, Toggle(list[1..], itemId));
      assert ([m] + Toggle(list[1..], itemId))[1..] == Toggle(list[1..], itemId);
      [m] + Toggle(list[1..], itemId)
  }

  /** Filters out every node whose id is itemId, at every depth, with its subtree. */
  function Delete(list: seq<Node>, itemId: Id): (r: seq<Node>)
    ensures itemId !in Ids(r)
    ensures multiset(Ids(r)) <= multiset(Ids(list))
    decreases list
  {
    if list == [] then []
    else
      var item := list[0];
      var rest := Delete(list[1..], itemId);
      IdsCons(item, list[1..]);
      if item.id == itemId then rest
      else
        var m := if item.Folder? then item.(children := Delete(item.children, itemId)) else item;
        IdsCons(m, rest);
        [m] + rest
  }
}
