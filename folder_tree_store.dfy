/** The state of the FolderTree component of src/FolderTree.tsx: one forest of items, replaced
    by each handler. The store's invariant is that ids are unique; every handler keeps it, given
    that a new item's uuid is fresh. */
module FolderTreeStore {
  import opened Types
  import opened Forest
  import opened FolderTree
  import FolderTreeProperties

  class TreeStore {
    var items: seq<Node>

    ghost predicate Valid()
      reads this
    {
      Unique(items)
    }

    /** The component starts with an empty forest. */
    constructor ()
      ensures items == [] && Valid()
    {
      items := [];
    }

    /** handleMoveItem: the self-move and missing-node guards, then the inside-move guard on
        the pruned forest, then the insert. A taken guard returns without committing, but the
        extraction has already pruned the nested levels of the live forest in place. */
    method HandleMoveItem(dragId: Id, targetId: Id, position: Position)
      modifies this
      ensures items == MoveItem(old(items), dragId, targetId, position)
      ensures old(Valid()) ==> Valid()
    {
      if Valid() {
        FolderTreeProperties.MovePreservesUnique(items, dragId, targetId, position);
      }
      if dragId == targetId {
        return;
      }
      var treeWithoutDragged, removed := RemoveItemFromTree(items, dragId);
      if removed.None? {
        return;
      }
      if position == Inside {
        var targetItem := FindItem(treeWithoutDragged, targetId);
        if targetItem.Some? {
          var inDragged := IsDescendant(removed.value, targetId);
          if inDragged {
            items := DetachNested(items, dragId);
            return;
          }
        }
      }
      items := InsertItemInTree(treeWithoutDragged, targetId, removed.value, position);
    }

    /** handleMoveItemToRoot: a present node is detached and appended as the last root. */
    method HandleMoveItemToRoot(dragId: Id)
      modifies this
      ensures items == MoveItemToRoot(old(items), dragId)
      ensures old(Valid()) ==> Valid()
    {
      if Valid() && PathOf(items, dragId).Some? {
        FolderTreeProperties.MoveToRootUnique(items, dragId, PathOf(items, dragId).value);
      }
      var treeWithoutDragged, removed := RemoveItemFromTree(items, dragId);
      if removed.None? {
        return;
      }
      items := treeWithoutDragged + [removed.value];
    }

    /** The container's drop callback: a drop already handled by a nested item is ignored,
        any other drop moves the dragged node to the root. */
    method HandleContainerDrop(dragId: Id, didDrop: bool)
      modifies this
      ensures items == if didDrop then old(items) else MoveItemToRoot(old(items), dragId)
      ensures old(Valid()) ==> Valid()
    {
      if didDrop {
        return;
      }
      HandleMoveItemToRoot(dragId);
    }

    /** handleAddFolder, with newId standing for the fresh uuid. */
    method HandleAddFolder(newId: Id)
      requires newId !in Ids(items)
      modifies this
      ensures items == AddFolder(old(items), newId)
      ensures old(Valid()) ==> Valid()
    {
      if Valid() {
        FolderTreeProperties.AddUnique(items, newId);
      }
      items := AddFolder(items, newId);
    }

    /** handleAddFile, with newId standing for the fresh uuid. */
    method HandleAddFile(newId: Id)
      requires newId !in Ids(items)
      modifies this
      ensures items == AddFile(old(items), newId)
      ensures old(Valid()) ==> Valid()
    {
      if Valid() {
        FolderTreeProperties.AddUnique(items, newId);
      }
      items := AddFile(items, newId);
    }

    method HandleRenameItem(itemId: Id, newName: string)
      modifies this
      ensures items == Rename(old(items), itemId, newName)
      ensures old(Valid()) ==> Valid()
    {
      items := Rename(items, itemId, newName);
    }

    method HandleToggleItem(itemId: Id)
      modifies this
      ensures items == Toggle(old(items), itemId)
      ensures old(Valid()) ==> Valid()
    {
      items := Toggle(items, itemId);
    }

    /** handleDeleteItem; confirmed stands for the user's answer to the confirmation dialog. */
    method HandleDeleteItem(itemId: Id, confirmed: bool)
      modifies this
      ensures items == if confirmed then Delete(old(items), itemId) else old(items)
      ensures old(Valid()) ==> Valid()
    {
      if !confirmed {
        return;
      }
      if Valid() {
        UniqueSub(items, Delete(items, itemId));
      }
      items := Delete(items, itemId);
    }
  }
}
