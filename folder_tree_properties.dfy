/** What the store operations of src/FolderTree.tsx do, stated against the path-addressed
    reference edits of module Forest. Most statements assume that ids are unique, which the
    store keeps (module FolderTreeStore); the ones that hold for any forest say so. */
module FolderTreeProperties {
  import opened Types
  import opened Forest
  import opened FolderTree

  // ---------------------------------------------------------------------------------------
  // removeItemFromTree

  /** With the id absent nothing is detached and the forest comes back as it was. */
  lemma {:induction false} RemoveAbsent(f: seq<Node>, id: Id)
    requires id !in Ids(f)
    ensures Remove(f, id) == Extraction(f, None)
    decreases f
  {
    if f != [] {
      assert f == [f[0]] + f[1..];
      IdsCons(f[0], f[1..]);
      RemoveAbsent(f[1..], id);
      if f[0].Folder? {
        RemoveAbsent(f[0].children, id);
      }
    }
  }

  /** With unique ids, removeItemFromTree detaches exactly the node at the id's path, with its
      subtree intact, and every other node keeps its parent and its sibling order. */
  lemma {:induction false} RemoveUnique(f: seq<Node>, id: Id)
    requires Unique(f) && PathOf(f, id).Some?
    ensures Remove(f, id) == Extraction(RemoveAt(f, PathOf(f, id).value), Some(At(f, PathOf(f, id).value)))
    decreases f
  {
    var a, g := f[0], f[1..];
    assert f == [a] + g;
    UniqueCons(f);
    IdsCons(a, g);
    if a.id == id {
      RemoveAbsent(g, id);
    } else if a.Folder? && PathOf(a.children, id).Some? {
      var q := PathOf(a.children, id).value;
      RemoveUnique(a.children, id);
      RemoveAbsent(g, id);
      RemoveAtHead(a, g, q);
      AtHead(a, g, q);
    } else {
      var p := PathOf(g, id).value;
      if a.Folder? {
        RemoveAbsent(a.children, id);
      }
      RemoveUnique(g, id);
      RemoveAtShift(a, g, p);
      AtShift(a, g, p);
    }
  }

  /** The forest removeItemFromTree returns is the deleteRecursive filter of the same id, for
      any forest: both drop every node with that id, at every depth. */
  lemma {:induction false} RemoveIsDelete(f: seq<Node>, id: Id)
    ensures Remove(f, id).tree == Delete(f, id)
    decreases f
  {
    if f != [] {
      RemoveIsDelete(f[1..], id);
      if f[0].Folder? {
        RemoveIsDelete(f[0].children, id);
      }
    }
  }

  /** The pruned forest never holds the id, and with unique ids the pruned forest and the
      detached subtree together hold exactly the ids of the input. */
  lemma RemoveIds(f: seq<Node>, id: Id)
    ensures id !in Ids(Remove(f, id).tree)
    ensures Unique(f) && Remove(f, id).removed.Some? ==>
      multiset(Ids(Remove(f, id).tree)) + multiset(SubtreeIds(Remove(f, id).removed.value)) == multiset(Ids(f))
  {
    RemoveIsDelete(f, id);
    if Unique(f) && Remove(f, id).removed.Some? {
      RemoveFound(f, id);
      RemoveUnique(f, id);
      RemoveAtIds(f, PathOf(f, id).value);
    }
  }

  // ---------------------------------------------------------------------------------------
  // handleDeleteItem

  /** Deleting an absent id changes nothing. */
  lemma DeleteAbsent(f: seq<Node>, id: Id)
    requires id !in Ids(f)
    ensures Delete(f, id) == f
  {
    RemoveIsDelete(f, id);
    RemoveAbsent(f, id);
  }

  /** With unique ids, delete takes out the node at the id's path with all its descendants;
      the remaining nodes keep their parents and their order. */
  lemma DeleteAt(f: seq<Node>, id: Id)
    requires Unique(f) && PathOf(f, id).Some?
    ensures Delete(f, id) == RemoveAt(f, PathOf(f, id).value)
    ensures forall d :: d in SubtreeIds(At(f, PathOf(f, id).value)) ==> d !in Ids(Delete(f, id))
  {
    var p := PathOf(f, id).value;
    RemoveIsDelete(f, id);
    RemoveUnique(f, id);
    RemoveAtIds(f, p);
    forall d | d in SubtreeIds(At(f, p)) ensures d !in Ids(Delete(f, id)) {
      assert multiset(Ids(f))[d] <= 1;
    }
  }

  /** Deleting twice is deleting once. */
  lemma DeleteIdempotent(f: seq<Node>, id: Id)
    ensures Delete(Delete(f, id), id) == Delete(f, id)
  {
    DeleteAbsent(Delete(f, id), id);
  }

  // ---------------------------------------------------------------------------------------
  // findItem

  /** findItem returns the first node, in display order, whose id matches: the node at the
      path PathOf computes. */
  lemma {:induction false} FindFirst(f: seq<Node>, id: Id)
    ensures PathOf(f, id).None? ==> Find(f, id).None?
    ensures PathOf(f, id).Some? ==> Find(f, id) == Some(At(f, PathOf(f, id).value))
    decreases f
  {
    if f != [] {
      var a, g := f[0], f[1..];
      assert f == [a] + g;
      FindFirst(g, id);
      if a.Folder? {
        FindFirst(a.children, id);
        if a.id != id && PathOf(a.children, id).Some? {
          AtHead(a, g, PathOf(a.children, id).value);
        }
      }
      if a.id != id && PathOf(g, id).Some? {
        AtShift(a, g, PathOf(g, id).value);
      }
    }
  }

  /** With unique ids, the node removeItemFromTree detaches is the node findItem finds. */
  lemma RemovedIsFound(f: seq<Node>, id: Id)
    requires Unique(f)
    ensures Remove(f, id).removed == Find(f, id)
  {
    FindFirst(f, id);
    if PathOf(f, id).Some? {
      RemoveUnique(f, id);
    } else {
      RemoveFound(f, id);
    }
  }

  // ---------------------------------------------------------------------------------------
  // insertItemInTree

  /** With no node carrying the target id, insertItemInTree returns the forest unchanged. */
  lemma {:induction false} InsertAbsent(f: seq<Node>, t: Id, x: Node, position: Position)
    requires t !in Ids(f)
    ensures Insert(f, t, x, position) == f
    decreases f
  {
    if f != [] {
      var a, g := f[0], f[1..];
      assert f == [a] + g;
      IdsCons(a, g);
      InsertCons(a, g, t, x, position);
      InsertAbsent(g, t, x, position);
      if a.Folder? {
        InsertAbsent(a.children, t, x, position);
      }
    }
  }

  /** The index a before or after insert gives x among the siblings of the node at p. */
  function SiblingIndex(p: seq<nat>, position: Position): nat
    requires |p| > 0
  {
    if position == Before then Index(p) else Index(p) + 1
  }

  /** With unique ids, a before or after insert puts x among the target's own siblings,
      immediately before or after it; no other node moves. */
  lemma {:induction false} InsertSibling(f: seq<Node>, t: Id, x: Node, position: Position, p: seq<nat>)
    requires Unique(f) && PathOf(f, t) == Some(p) && position != Inside
    ensures ValidSlot(f, Parent(p), SiblingIndex(p, position))
    ensures Insert(f, t, x, position) == InsertAt(f, Parent(p), SiblingIndex(p, position), x)
    decreases f
  {
    var a, g := f[0], f[1..];
    assert f == [a] + g;
    UniqueCons(f);
    IdsCons(a, g);
    if a.id == t {
      SiblingHeadStep(a, g, t, x, position);
    } else if a.Folder? && PathOf(a.children, t).Some? {
      var q := PathOf(a.children, t).value;
      InsertSibling(a.children, t, x, position, q);
      SiblingNestedStep(a, g, t, x, position, q);
    } else {
      var p' := PathOf(g, t).value;
      InsertSibling(g, t, x, position, p');
      SiblingShiftStep(a, g, t, x, position, p');
    }
  }

  lemma SiblingHeadStep(a: Node, g: seq<Node>, t: Id, x: Node, position: Position)
    requires a.id == t && t !in Ids(g) && (a.Folder? ==> t !in Ids(a.children)) && position != Inside
    ensures Insert([a] + g, t, x, position) == InsertAt([a] + g, [], SiblingIndex([0], position), x)
  {
    InsertCons(a, g, t, x, position);
    InsertAbsent(g, t, x, position);
    InsertIntoAbsent(a, t, x, position);
    PlacedAt(a, g, x, position);
  }

  /** A node with no match below it is left as it is, unless it is itself the target of
      an inside insert. */
  lemma InsertIntoAbsent(a: Node, t: Id, x: Node, position: Position)
    requires (a.Folder? ==> t !in Ids(a.children)) && (a.id != t || position != Inside)
    ensures InsertInto(a, t, x, position) == a
  {
    if a.Folder? {
      InsertAbsent(a.children, t, x, position);
    }
  }

  /** Placing x before or after the first root is inserting it at index 0 or 1 of the roots. */
  lemma PlacedAt(a: Node, g: seq<Node>, x: Node, position: Position)
    requires position != Inside
    ensures Placed(a, a.id, x, position) + g == InsertAt([a] + g, [], SiblingIndex([0], position), x)
  {
    var f := [a] + g;
    if position == Before {
      assert f[..0] + [x] + f[0..] == [x, a] + g;
    } else {
      assert f[..1] == [a] && f[1..] == g;
      assert f[..1] + [x] + f[1..] == [a, x] + g;
    }
  }

  lemma SiblingNestedStep(a: Node, g: seq<Node>, t: Id, x: Node, position: Position, q: seq<nat>)
    requires a.Folder? && a.id != t && t !in Ids(g) && |q| > 0
    requires ValidSlot(a.children, Parent(q), SiblingIndex(q, position))
    requires Insert(a.children, t, x, position) == InsertAt(a.children, Parent(q), SiblingIndex(q, position), x)
    ensures Parent([0] + q) == [0] + Parent(q) && SiblingIndex([0] + q, position) == SiblingIndex(q, position)
    ensures ValidSlot([a] + g, [0] + Parent(q), SiblingIndex(q, position))
    ensures Insert([a] + g, t, x, position) == InsertAt([a] + g, [0] + Parent(q), SiblingIndex(q, position), x)
  {
    InsertCons(a, g, t, x, position);
    InsertAbsent(g, t, x, position);
    InsertAtHead(a, g, Parent(q), SiblingIndex(q, position), x);
  }

  lemma SiblingShiftStep(a: Node, g: seq<Node>, t: Id, x: Node, position: Position, p: seq<nat>)
    requires t !in SubtreeIds(a) && |p| > 0
    requires ValidSlot(g, Parent(p), SiblingIndex(p, position))
    requires Insert(g, t, x, position) == InsertAt(g, Parent(p), SiblingIndex(p, position), x)
    ensures ValidSlot([a] + g, Parent(Shift(p)), SiblingIndex(Shift(p), position))
    ensures Insert([a] + g, t, x, position) == InsertAt([a] + g, Parent(Shift(p)), SiblingIndex(Shift(p), position), x)
  {
    InsertPastRoot(a, g, t, x, position);
    ShiftSibling(p, position);
    if |p| == 1 {
      InsertAtShift(a, g, [], SiblingIndex(p, position), x);
    } else {
      InsertAtShift(a, g, Parent(p), SiblingIndex(p, position), x);
    }
  }

  /** A first root with no match in its subtree is kept as it is, ahead of the rest. */
  lemma InsertPastRoot(a: Node, g: seq<Node>, t: Id, x: Node, position: Position)
    requires t !in SubtreeIds(a)
    ensures Insert([a] + g, t, x, position) == [a] + Insert(g, t, x, position)
  {
    assert a.id != t && (a.Folder? ==> t !in Ids(a.children));
    InsertCons(a, g, t, x, position);
    InsertIntoAbsent(a, t, x, position);
  }

  /** One root further right, the sibling slot moves with it: at the root level its
      index grows by one, below that its parent path shifts. */
  lemma ShiftSibling(p: seq<nat>, position: Position)
    requires |p| > 0
    ensures |p| == 1 ==> Parent(Shift(p)) == [] && SiblingIndex(Shift(p), position) == SiblingIndex(p, position) + 1
    ensures |p| > 1 ==> Parent(Shift(p)) == Shift(Parent(p)) && SiblingIndex(Shift(p), position) == SiblingIndex(p, position)
  {
    var s := Shift(p);
    if |p| > 1 {
      assert Parent(s) == [p[0] + 1] + Parent(p)[1..];
    }
  }

  /** With unique ids, an inside insert on a folder target appends x to the end of that
      folder's children and changes nothing else. */
  lemma {:induction false} InsertInside(f: seq<Node>, t: Id, x: Node, p: seq<nat>)
    requires Unique(f) && PathOf(f, t) == Some(p) && At(f, p).Folder?
    ensures ValidSlot(f, p, |At(f, p).children|)
    ensures Insert(f, t, x, Inside) == InsertAt(f, p, |At(f, p).children|, x)
    decreases f
  {
    var a, g := f[0], f[1..];
    assert f == [a] + g;
    UniqueCons(f);
    IdsCons(a, g);
    if a.id == t {
      InsideHeadStep(a, g, t, x);
    } else if a.Folder? && PathOf(a.children, t).Some? {
      var q := PathOf(a.children, t).value;
      AtHead(a, g, q);
      InsertInside(a.children, t, x, q);
      InsideNestedStep(a, g, t, x, q, |At(f, p).children|);
    } else {
      var p' := PathOf(g, t).value;
      InsertPastRoot(a, g, t, x, Inside);
      AtShift(a, g, p');
      InsertInside(g, t, x, p');
      InsertAtShift(a, g, p', |At(f, p).children|, x);
    }
  }

  lemma InsideHeadStep(a: Node, g: seq<Node>, t: Id, x: Node)
    requires a.id == t && a.Folder? && t !in Ids(g)
    ensures ValidSlot([a] + g, [0], |a.children|)
    ensures Insert([a] + g, t, x, Inside) == InsertAt([a] + g, [0], |a.children|, x)
  {
    InsertCons(a, g, t, x, Inside);
    InsertAbsent(g, t, x, Inside);
    AppendAtHead(a, g, x);
  }

  /** Inserting at the end of the first root's children is appending to them. */
  lemma AppendAtHead(a: Node, g: seq<Node>, x: Node)
    requires a.Folder?
    ensures ValidSlot([a] + g, [0], |a.children|)
    ensures InsertAt([a] + g, [0], |a.children|, x) == [a.(children := a.children + [x])] + g
  {
    var kids := a.children;
    assert kids[..|kids|] + [x] + kids[|kids|..] == kids + [x];
    assert ([a] + g)[0 := a.(children := kids + [x])] == [a.(children := kids + [x])] + g;
  }

  lemma InsideNestedStep(a: Node, g: seq<Node>, t: Id, x: Node, q: seq<nat>, n: nat)
    requires a.Folder? && a.id != t && t !in Ids(g)
    requires ValidSlot(a.children, q, n)
    requires Insert(a.children, t, x, Inside) == InsertAt(a.children, q, n, x)
    ensures ValidSlot([a] + g, [0] + q, n)
    ensures Insert([a] + g, t, x, Inside) == InsertAt([a] + g, [0] + q, n, x)
  {
    InsertCons(a, g, t, x, Inside);
    InsertAbsent(g, t, x, Inside);
    InsertAtHead(a, g, q, n, x);
  }

  /** With unique ids, an inside insert on a file target returns the forest unchanged. */
  lemma {:induction false} InsertInsideFile(f: seq<Node>, t: Id, x: Node, p: seq<nat>)
    requires Unique(f) && PathOf(f, t) == Some(p) && At(f, p).File?
    ensures Insert(f, t, x, Inside) == f
    decreases f
  {
    var a, g := f[0], f[1..];
    assert f == [a] + g;
    UniqueCons(f);
    IdsCons(a, g);
    InsertCons(a, g, t, x, Inside);
    if a.id == t {
      InsertAbsent(g, t, x, Inside);
    } else {
      if a.Folder? && PathOf(a.children, t).Some? {
        var q := PathOf(a.children, t).value;
        AtHead(a, g, q);
        InsertAbsent(g, t, x, Inside);
        InsertInsideFile(a.children, t, x, q);
      } else {
        var p' := PathOf(g, t).value;
        if a.Folder? {
          InsertAbsent(a.children, t, x, Inside);
        }
        AtShift(a, g, p');
        InsertInsideFile(g, t, x, p');
      }
    }
  }

  // ---------------------------------------------------------------------------------------
  // handleMoveItem

  /** With unique ids the "cycle" guard of an inside move is never taken: a target inside the
      detached subtree is no longer in the pruned forest, so findItem does not find it. */
  lemma GuardNeverFires(items: seq<Node>, dragId: Id, targetId: Id)
    requires Unique(items) && Remove(items, dragId).removed.Some?
    ensures !CycleGuard(Remove(items, dragId), targetId)
  {
    RemoveIds(items, dragId);
    assert multiset(Ids(items))[targetId] <= 1;
  }

  /** With unique ids, a move of a present node onto another id inserts the node at dragId's
      path, subtree intact, into the forest without it. */
  lemma MoveIsInsert(items: seq<Node>, dragId: Id, targetId: Id, position: Position, pd: seq<nat>)
    requires Unique(items) && PathOf(items, dragId) == Some(pd) && dragId != targetId
    ensures MoveItem(items, dragId, targetId, position) == Insert(RemoveAt(items, pd), targetId, At(items, pd), position)
  {
    RemoveUnique(items, dragId);
    GuardNeverFires(items, dragId, targetId);
  }

  /** A before or after move onto a target that survives extraction: the node lands right
      before or after the target, among the target's siblings in the pruned forest; ids stay
      the same, and unique. */
  lemma MoveSibling(items: seq<Node>, dragId: Id, targetId: Id, position: Position, pd: seq<nat>, pt: seq<nat>)
    requires Unique(items) && PathOf(items, dragId) == Some(pd) && dragId != targetId && position != Inside
    requires PathOf(RemoveAt(items, pd), targetId) == Some(pt)
    ensures ValidSlot(RemoveAt(items, pd), Parent(pt), SiblingIndex(pt, position))
    ensures MoveItem(items, dragId, targetId, position)
         == InsertAt(RemoveAt(items, pd), Parent(pt), SiblingIndex(pt, position), At(items, pd))
    ensures multiset(Ids(MoveItem(items, dragId, targetId, position))) == multiset(Ids(items))
    ensures Unique(MoveItem(items, dragId, targetId, position))
    ensures ValidPath(MoveItem(items, dragId, targetId, position), Parent(pt) + [SiblingIndex(pt, position)])
    ensures At(MoveItem(items, dragId, targetId, position), Parent(pt) + [SiblingIndex(pt, position)]) == At(items, pd)
  {
    var pruned := RemoveAt(items, pd);
    MoveIsInsert(items, dragId, targetId, position, pd);
    RemoveAtIds(items, pd);
    UniqueSub(items, pruned);
    InsertSibling(pruned, targetId, At(items, pd), position, pt);
    InsertAtIds(pruned, Parent(pt), SiblingIndex(pt, position), At(items, pd));
    InsertAtAt(pruned, Parent(pt), SiblingIndex(pt, position), At(items, pd));
    UniqueSub(items, MoveItem(items, dragId, targetId, position));
  }

  /** An inside move onto a folder that survives extraction: the node becomes that folder's
      last child; ids stay the same, and unique. */
  lemma MoveInside(items: seq<Node>, dragId: Id, targetId: Id, pd: seq<nat>, pt: seq<nat>)
    requires Unique(items) && PathOf(items, dragId) == Some(pd) && dragId != targetId
    requires PathOf(RemoveAt(items, pd), targetId) == Some(pt) && At(RemoveAt(items, pd), pt).Folder?
    ensures ValidSlot(RemoveAt(items, pd), pt, |At(RemoveAt(items, pd), pt).children|)
    ensures MoveItem(items, dragId, targetId, Inside)
         == InsertAt(RemoveAt(items, pd), pt, |At(RemoveAt(items, pd), pt).children|, At(items, pd))
    ensures multiset(Ids(MoveItem(items, dragId, targetId, Inside))) == multiset(Ids(items))
    ensures Unique(MoveItem(items, dragId, targetId, Inside))
    ensures ValidPath(MoveItem(items, dragId, targetId, Inside), pt + [|At(RemoveAt(items, pd), pt).children|])
    ensures At(MoveItem(items, dragId, targetId, Inside), pt + [|At(RemoveAt(items, pd), pt).children|]) == At(items, pd)
  {
    var pruned := RemoveAt(items, pd);
    MoveIsInsert(items, dragId, targetId, Inside, pd);
    RemoveAtIds(items, pd);
    UniqueSub(items, pruned);
    InsertInside(pruned, targetId, At(items, pd), pt);
    InsertAtIds(pruned, pt, |At(pruned, pt).children|, At(items, pd));
    InsertAtAt(pruned, pt, |At(pruned, pt).children|, At(items, pd));
    UniqueSub(items, MoveItem(items, dragId, targetId, Inside));
  }

  /** An inside move onto a file: nothing is inserted, yet the pruned forest is committed, so
      the dragged node and its subtree are lost. */
  lemma MoveInsideFile(items: seq<Node>, dragId: Id, targetId: Id, pd: seq<nat>, pt: seq<nat>)
    requires Unique(items) && PathOf(items, dragId) == Some(pd) && dragId != targetId
    requires PathOf(RemoveAt(items, pd), targetId) == Some(pt) && At(RemoveAt(items, pd), pt).File?
    ensures MoveItem(items, dragId, targetId, Inside) == RemoveAt(items, pd)
    ensures dragId !in Ids(MoveItem(items, dragId, targetId, Inside))
  {
    var pruned := RemoveAt(items, pd);
    MoveIsInsert(items, dragId, targetId, Inside, pd);
    RemoveAtIds(items, pd);
    UniqueSub(items, pruned);
    InsertInsideFile(pruned, targetId, At(items, pd), pt);
    RemoveIds(items, dragId);
    RemoveUnique(items, dragId);
  }

  /** A move onto a target that is not in the pruned forest (absent from the start, or inside
      the dragged subtree) commits the pruned forest: the dragged subtree is dropped. */
  lemma MoveTargetGone(items: seq<Node>, dragId: Id, targetId: Id, position: Position, pd: seq<nat>)
    requires Unique(items) && PathOf(items, dragId) == Some(pd) && dragId != targetId
    requires targetId !in Ids(RemoveAt(items, pd))
    ensures MoveItem(items, dragId, targetId, position) == RemoveAt(items, pd)
  {
    MoveIsInsert(items, dragId, targetId, position, pd);
    InsertAbsent(RemoveAt(items, pd), targetId, At(items, pd), position);
  }

  /** Dropping a folder onto one of its own descendants is not rejected: the whole dragged
      subtree, the target included, leaves the forest. */
  lemma MoveIntoOwnSubtree(items: seq<Node>, dragId: Id, targetId: Id, position: Position, pd: seq<nat>)
    requires Unique(items) && PathOf(items, dragId) == Some(pd) && dragId != targetId
    requires targetId in SubtreeIds(At(items, pd))
    ensures MoveItem(items, dragId, targetId, position) == RemoveAt(items, pd)
    ensures dragId !in Ids(MoveItem(items, dragId, targetId, position))
    ensures targetId !in Ids(MoveItem(items, dragId, targetId, position))
  {
    RemoveAtIds(items, pd);
    assert multiset(Ids(items))[targetId] <= 1;
    MoveTargetGone(items, dragId, targetId, position, pd);
    RemoveIds(items, dragId);
    RemoveUnique(items, dragId);
  }

  /** With unique ids, every move keeps them unique, whichever of the cases above applies. */
  lemma MovePreservesUnique(items: seq<Node>, dragId: Id, targetId: Id, position: Position)
    requires Unique(items)
    ensures Unique(MoveItem(items, dragId, targetId, position))
  {
    if dragId != targetId && PathOf(items, dragId).Some? {
      var pd := PathOf(items, dragId).value;
      var pruned := RemoveAt(items, pd);
      RemoveAtIds(items, pd);
      UniqueSub(items, pruned);
      match PathOf(pruned, targetId)
      case None =>
        MoveTargetGone(items, dragId, targetId, position, pd);
      case Some(pt) =>
        if position != Inside {
          MoveSibling(items, dragId, targetId, position, pd, pt);
        } else if At(pruned, pt).Folder? {
          MoveInside(items, dragId, targetId, pd, pt);
        } else {
          MoveInsideFile(items, dragId, targetId, pd, pt);
        }
    }
  }

  // ---------------------------------------------------------------------------------------
  // handleMoveItemToRoot

  /** With unique ids, a present node is detached and appended, subtree intact, as the last
      root; ids stay the same, and unique. */
  lemma MoveToRootUnique(items: seq<Node>, dragId: Id, pd: seq<nat>)
    requires Unique(items) && PathOf(items, dragId) == Some(pd)
    ensures MoveItemToRoot(items, dragId) == RemoveAt(items, pd) + [At(items, pd)]
    ensures multiset(Ids(MoveItemToRoot(items, dragId))) == multiset(Ids(items))
    ensures Unique(MoveItemToRoot(items, dragId))
  {
    var pruned := RemoveAt(items, pd);
    RemoveUnique(items, dragId);
    RemoveAtIds(items, pd);
    IdsAppend(pruned, [At(items, pd)]);
    IdsCons(At(items, pd), []);
    assert [At(items, pd)] + [] == [At(items, pd)];
    UniqueSub(items, MoveItemToRoot(items, dragId));
  }

  // ---------------------------------------------------------------------------------------
  // handleRenameItem

  /** Renaming an absent id changes nothing. */
  lemma {:induction false} RenameAbsent(f: seq<Node>, id: Id, newName: string)
    requires id !in Ids(f)
    ensures Rename(f, id, newName) == f
    decreases f
  {
    if f != [] {
      assert f == [f[0]] + f[1..];
      IdsCons(f[0], f[1..]);
      RenameAbsent(f[1..], id, newName);
      if f[0].Folder? {
        RenameAbsent(f[0].children, id, newName);
      }
    }
  }

  /** With unique ids, rename changes the name of the node at the id's path, and nothing else:
      its kind, children and flag stay, and so does every other node. */
  lemma {:induction false} RenameAt(f: seq<Node>, id: Id, newName: string, p: seq<nat>)
    requires Unique(f) && PathOf(f, id) == Some(p)
    ensures Rename(f, id, newName) == ReplaceAt(f, p, At(f, p).(name := RenamedTo(At(f, p), newName)))
    decreases f
  {
    var a, g := f[0], f[1..];
    assert f == [a] + g;
    UniqueCons(f);
    IdsCons(a, g);
    RenameCons(a, g, id, newName);
    if a.id == id {
      RenameAbsent(g, id, newName);
      assert f[0 := a.(name := RenamedTo(a, newName))] == [a.(name := RenamedTo(a, newName))] + g;
    } else if a.Folder? && PathOf(a.children, id).Some? {
      var q := PathOf(a.children, id).value;
      RenameAbsent(g, id, newName);
      RenameAt(a.children, id, newName, q);
      AtHead(a, g, q);
      ReplaceAtHead(a, g, q, At(f, p).(name := RenamedTo(At(f, p), newName)));
    } else {
      var p' := PathOf(g, id).value;
      if a.Folder? {
        RenameAbsent(a.children, id, newName);
      }
      RenameAt(g, id, newName, p');
      AtShift(a, g, p');
      ReplaceAtShift(a, g, p', At(f, p).(name := RenamedTo(At(f, p), newName)));
    }
  }

  /** Rename on a forest with first root a: a is rewritten, then the other roots. */
  lemma RenameCons(a: Node, g: seq<Node>, id: Id, newName: string)
    ensures Rename([a] + g, id, newName)
         == [if a.id == id then a.(name := RenamedTo(a, newName))
             else if a.Folder? then a.(children := Rename(a.children, id, newName))
             else a] + Rename(g, id, newName)
  {
    assert ([a] + g)[0] == a && ([a] + g)[1..] == g;
  }

  /** Renaming twice to the same name is renaming once, for any forest. */
  lemma {:induction false} RenameIdempotent(f: seq<Node>, id: Id, newName: string)
    ensures Rename(Rename(f, id, newName), id, newName) == Rename(f, id, newName)
    decreases f
  {
    if f != [] {
      var r := Rename(f, id, newName);
      assert r[1..] == Rename(f[1..], id, newName);
      RenameIdempotent(f[1..], id, newName);
      if f[0].Folder? {
        RenameIdempotent(f[0].children, id, newName);
      }
    }
  }

  // ---------------------------------------------------------------------------------------
  // handleToggleItem

  /** Toggling an absent id changes nothing. */
  lemma {:induction false} ToggleAbsent(f: seq<Node>, id: Id)
    requires id !in Ids(f)
    ensures Toggle(f, id) == f
    decreases f
  {
    if f != [] {
      assert f == [f[0]] + f[1..];
      IdsCons(f[0], f[1..]);
      ToggleAbsent(f[1..], id);
      if f[0].Folder? {
        ToggleAbsent(f[0].children, id);
      }
    }
  }

  /** Toggle on a forest with first root a: a is rewritten, then the other roots. */
  lemma ToggleCons(a: Node, g: seq<Node>, id: Id)
    ensures Toggle([a] + g, id)
         == [if a.id == id && a.Folder? then a.(collapsed := !a.collapsed)
             else if a.Folder? then a.(children := Toggle(a.children, id))
             else a] + Toggle(g, id)
  {
    assert ([a] + g)[0] == a && ([a] + g)[1..] == g;
  }

  /** With unique ids, toggle flips the collapsed flag of the folder at the id's path and
      changes nothing else; a file with that id is left as it is. */
  lemma {:induction false} ToggleAt(f: seq<Node>, id: Id, p: seq<nat>)
    requires Unique(f) && PathOf(f, id) == Some(p)
    ensures At(f, p).Folder? ==> Toggle(f, id) == ReplaceAt(f, p, At(f, p).(collapsed := !At(f, p).collapsed))
    ensures At(f, p).File? ==> Toggle(f, id) == f
    decreases f
  {
    var a, g := f[0], f[1..];
    assert f == [a] + g;
    UniqueCons(f);
    IdsCons(a, g);
    ToggleCons(a, g, id);
    if a.id == id {
      ToggleAbsent(g, id);
      if a.Folder? {
        assert f[0 := a.(collapsed := !a.collapsed)] == [a.(collapsed := !a.collapsed)] + g;
      }
    } else if a.Folder? && PathOf(a.children, id).Some? {
      var q := PathOf(a.children, id).value;
      ToggleAbsent(g, id);
      ToggleAt(a.children, id, q);
      AtHead(a, g, q);
      if At(f, p).Folder? {
        ReplaceAtHead(a, g, q, At(f, p).(collapsed := !At(f, p).collapsed));
      }
    } else {
      var p' := PathOf(g, id).value;
      if a.Folder? {
        ToggleAbsent(a.children, id);
      }
      ToggleAt(g, id, p');
      AtShift(a, g, p');
      if At(f, p).Folder? {
        ReplaceAtShift(a, g, p', At(f, p).(collapsed := !At(f, p).collapsed));
      }
    }
  }

  /** Toggling twice restores the forest, for any forest. */
  lemma {:induction false} ToggleTwice(f: seq<Node>, id: Id)
    ensures Toggle(Toggle(f, id), id) == f
    decreases f
  {
    if f != [] {
      var r := Toggle(f, id);
      assert r[1..] == Toggle(f[1..], id);
      ToggleTwice(f[1..], id);
      if f[0].Folder? {
        ToggleTwice(f[0].children, id);
      }
      assert f == [f[0]] + f[1..];
    }
  }

  // ---------------------------------------------------------------------------------------
  // handleAddFolder and handleAddFile

  /** A root appended with a fresh id keeps the ids unique. */
  lemma AddUnique(items: seq<Node>, newId: Id)
    requires Unique(items) && newId !in Ids(items)
    ensures Unique(AddFolder(items, newId)) && Unique(AddFile(items, newId))
  {
    forall id ensures multiset(Ids(items) + [newId])[id] <= 1 {
      assert multiset(Ids(items) + [newId]) == multiset(Ids(items)) + multiset{newId};
    }
  }

  // ---------------------------------------------------------------------------------------
  // Two concrete moves

  /** Folder a holds folder b, which holds folder c. Moving a inside c is not rejected; the
      whole of a leaves the forest, which ends up empty. */
  lemma NestedMoveDropsAll()
    ensures MoveItem([Folder("a", "", [Folder("b", "", [Folder("c", "", [], false)], false)], false)], "a", "c", Inside) == []
  {
    var c := Folder("c", "", [], false);
    var b := Folder("b", "", [c], false);
    var a := Folder("a", "", [b], false);
    var items := [a];
    assert Remove(items, "a") == Extraction([], Some(a));
    assert Find([], "c") == None;
    assert Insert([], "c", a, Inside) == [];
  }

  /** With a duplicated id the guard can fire: root folder p holds a, which holds a file t,
      and a second file t sits at the root. Moving a inside t is refused, yet the store's own
      root folder p has already lost a to the in-place pruning. */
  lemma GuardFiresOnDuplicate()
    ensures MoveItem([Folder("p", "", [Folder("a", "", [File("t", "")], false)], false), File("t", "")], "a", "t", Inside)
         == [Folder("p", "", [], false), File("t", "")]
  {
    var t := File("t", "");
    var a := Folder("a", "", [t], false);
    var p := Folder("p", "", [a], false);
    var items := [p, t];
    assert Remove([t], "a") == Extraction([t], None);
    assert Remove([a], "a") == Extraction([], Some(a));
    assert Remove(items, "a") == Extraction([Folder("p", "", [], false), t], Some(a));
    assert Find([Folder("p", "", [], false), t], "t") == Some(t);
    assert Contains(a, "t") by { assert t in a.children && Contains(t, "t"); }
  }
}
