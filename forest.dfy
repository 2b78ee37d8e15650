/** A reference model of an ordered forest of tree items: the pre-order list of its ids, what it
    means for ids to be unique, and the addressing of a node by its path of sibling indices, with
    the three path-addressed edits (replace, remove, insert) that the store's operations are
    proved to perform. */
module Forest {
  import opened Types

  /** The ids of a forest in pre-order (display order). */
  function Ids(f: seq<Node>): seq<Id>
    decreases f
  {
    if f == [] then [] else SubtreeIds(f[0]) + Ids(f[1..])
  }

  /** The ids of a node and all its descendants, in pre-order. */
  function SubtreeIds(n: Node): seq<Id>
    decreases n
  {
    [n.id] + (if n.Folder? then Ids(n.children) else [])
  }

  /** No id occurs twice anywhere in the forest. */
  ghost predicate Unique(f: seq<Node>) {
    forall id :: multiset(Ids(f))[id] <= 1
  }

  /** The two forests have the same shape: position by position the same ids and kinds, and
      the same shape below every pair of folders. Names and flags may differ. */
  ghost predicate SameShape(a: seq<Node>, b: seq<Node>)
    decreases a
  {
    if a == [] then b == []
    else
      && b != []
      && a[0].id == b[0].id
      && a[0].Folder? == b[0].Folder?
      && (a[0].Folder? && b[0].Folder? ==> SameShape(a[0].children, b[0].children))
      && SameShape(a[1..], b[1..])
  }

  /** Every forest has its own shape. */
  lemma {:induction false} SameShapeRefl(a: seq<Node>)
    ensures SameShape(a, a)
    decreases a
  {
    if a != [] {
      if a[0].Folder? {
        SameShapeRefl(a[0].children);
      }
      SameShapeRefl(a[1..]);
    }
  }

  lemma IdsCons(a: Node, g: seq<Node>)
    ensures Ids([a] + g) == SubtreeIds(a) + Ids(g)
  {
    assert ([a] + g)[1..] == g;
  }

  lemma {:induction false} IdsAppend(a: seq<Node>, b: seq<Node>)
    ensures Ids(a + b) == Ids(a) + Ids(b)
    decreases a
  {
    if a == [] {
      assert a + b == b;
    } else {
      assert (a + b)[1..] == a[1..] + b;
      IdsAppend(a[1..], b);
    }
  }

  /** The ids of a forest split around its k-th root. */
  lemma {:induction false} IdsSplit(f: seq<Node>, k: nat)
    requires k < |f|
    ensures Ids(f) == Ids(f[..k]) + SubtreeIds(f[k]) + Ids(f[k + 1..])
  {
    var tail := [f[k]] + f[k + 1..];
    assert f == f[..k] + tail;
    IdsAppend(f[..k], tail);
    IdsCons(f[k], f[k + 1..]);
  }

  lemma {:induction false} IdsMember(list: seq<Node>, id: Id)
    ensures id in Ids(list) <==> exists c :: c in list && id in SubtreeIds(c)
    decreases list
  {
    if list != [] {
      IdsMember(list[1..], id);
      if id in SubtreeIds(list[0]) {
        assert list[0] in list;
      } else if id in Ids(list[1..]) {
        var c :| c in list[1..] && id in SubtreeIds(c);
        assert c in list;
      } else {
        forall c | c in list ensures id !in SubtreeIds(c) {
          if c != list[0] {
            assert c in list[1..];
          }
        }
      }
    }
  }

  lemma SubtreeMember(n: Node, id: Id)
    ensures id in SubtreeIds(n) <==> n.id == id || (n.Folder? && exists c :: c in n.children && id in SubtreeIds(c))
  {
    if n.Folder? {
      IdsMember(n.children, id);
    }
  }

  lemma UniqueSub(f: seq<Node>, g: seq<Node>)
    requires Unique(f)
    requires multiset(Ids(g)) <= multiset(Ids(f))
    ensures Unique(g)
  {
    forall id ensures multiset(Ids(g))[id] <= 1 {
      assert multiset(Ids(g))[id] <= multiset(Ids(f))[id];
    }
  }

  /** The parts of a forest with unique ids have unique ids and share none. */
  lemma UniqueCons(f: seq<Node>)
    requires |f| > 0 && Unique(f)
    ensures Unique(f[1..])
    ensures f[0].id !in Ids(f[1..])
    ensures f[0].Folder? ==> Unique(f[0].children)
    ensures f[0].Folder? ==> f[0].id !in Ids(f[0].children)
    ensures forall id :: id in SubtreeIds(f[0]) ==> id !in Ids(f[1..])
  {
    var kids := if f[0].Folder? then Ids(f[0].children) else [];
    assert Ids(f) == [f[0].id] + kids + Ids(f[1..]);
    assert multiset(Ids(f)) == multiset([f[0].id]) + multiset(kids) + multiset(Ids(f[1..]));
    UniqueSub(f, f[1..]);
    if f[0].Folder? {
      UniqueSub(f, f[0].children);
    }
    forall id | id in SubtreeIds(f[0]) ensures id !in Ids(f[1..]) {
      assert multiset(SubtreeIds(f[0]))[id] >= 1;
      assert multiset(Ids(f))[id] == multiset(SubtreeIds(f[0]))[id] + multiset(Ids(f[1..]))[id];
    }
  }

  // ---------------------------------------------------------------------------------------
  // Paths: a path [i0, i1, ..., ik] names root i0, then its child i1, and so on.

  ghost predicate ValidPath(f: seq<Node>, p: seq<nat>)
    decreases p
  {
    && |p| > 0
    && p[0] < |f|
    && (|p| > 1 ==> f[p[0]].Folder? && ValidPath(f[p[0]].children, p[1..]))
  }

  /** The node a valid path names. */
  function At(f: seq<Node>, p: seq<nat>): Node
    requires ValidPath(f, p)
    decreases p
  {
    if |p| == 1 then f[p[0]] else At(f[p[0]].children, p[1..])
  }

  /** The path of the parent list in which the named node sits ([] is the root list). */
  function Parent(p: seq<nat>): seq<nat>
    requires |p| > 0
  {
    p[..|p| - 1]
  }

  /** The node's index among its siblings. */
  function Index(p: seq<nat>): nat
    requires |p| > 0
  {
    p[|p| - 1]
  }

  /** The same position one root further right. */
  function Shift(p: seq<nat>): (r: seq<nat>)
    requires |p| > 0
    ensures |r| == |p| && r[0] == p[0] + 1 && r[1..] == p[1..]
  {
    [p[0] + 1] + p[1..]
  }

  /** The forest with the node at p replaced by m; every other node stays where it was. */
  function ReplaceAt(f: seq<Node>, p: seq<nat>, m: Node): (r: seq<Node>)
    requires ValidPath(f, p)
    ensures |r| == |f|
    decreases p
  {
    if |p| == 1 then f[p[0] := m]
    else f[p[0] := f[p[0]].(children := ReplaceAt(f[p[0]].children, p[1..], m))]
  }

  /** The forest with the node at p, and its subtree, taken out of its sibling list. */
  function RemoveAt(f: seq<Node>, p: seq<nat>): (r: seq<Node>)
    requires ValidPath(f, p)
    decreases p
  {
    if |p| == 1 then f[..p[0]] + f[p[0] + 1..]
    else f[p[0] := f[p[0]].(children := RemoveAt(f[p[0]].children, p[1..]))]
  }

  /** A place where a node can be inserted: index i of the root list (q == []) or of the
      children of the folder at path q. */
  ghost predicate ValidSlot(f: seq<Node>, q: seq<nat>, i: nat) {
    if q == [] then i <= |f|
    else ValidPath(f, q) && At(f, q).Folder? && i <= |At(f, q).children|
  }

  /** The forest with x inserted at index i of the sibling list q; the siblings that were at
      i and beyond move one place right and nothing else changes. */
  function InsertAt(f: seq<Node>, q: seq<nat>, i: nat, x: Node): (r: seq<Node>)
    requires ValidSlot(f, q, i)
    decreases q
  {
    if q == [] then f[..i] + [x] + f[i..]
    else f[q[0] := f[q[0]].(children := InsertAt(f[q[0]].children, q[1..], i, x))]
  }

  /** The path of the first node, in pre-order, whose id is id. */
  function PathOf(f: seq<Node>, id: Id): (r: Option<seq<nat>>)
    ensures r.Some? ==> ValidPath(f, r.value) && At(f, r.value).id == id
    ensures r.Some? <==> id in Ids(f)
    decreases f
  {
    if f == [] then None
    else if f[0].id == id then Some([0])
    else
      var inner := if f[0].Folder? then PathOf(f[0].children, id) else None;
      if inner.Some? then Some([0] + inner.value)
      else
        match PathOf(f[1..], id)
        case None => None
        case Some(p) => Some(Shift(p))
  }

  // ---------------------------------------------------------------------------------------
  // Path lemmas

  /** With unique ids, the path PathOf finds for a node's id is that node's own path. */
  lemma {:induction false} PathOfAt(f: seq<Node>, p: seq<nat>)
    requires Unique(f) && ValidPath(f, p)
    ensures PathOf(f, At(f, p).id) == Some(p)
    decreases f
  {
    var a, g, id := f[0], f[1..], At(f, p).id;
    assert f == [a] + g;
    UniqueCons(f);
    IdsCons(a, g);
    if p[0] == 0 {
      if |p| > 1 {
        assert id == At(a.children, p[1..]).id;
        PathOfAt(a.children, p[1..]);
        assert id in Ids(a.children) && a.id != id;
        assert p == [0] + p[1..];
      } else {
        assert p == [0];
      }
    } else {
      var p' := [p[0] - 1] + p[1..];
      assert p'[1..] == p[1..];
      assert ValidPath(g, p') && At(g, p') == At(f, p);
      PathOfAt(g, p');
      assert Shift(p') == p;
    }
  }

  lemma AtShift(a: Node, g: seq<Node>, p: seq<nat>)
    requires ValidPath(g, p)
    ensures ValidPath([a] + g, Shift(p)) && At([a] + g, Shift(p)) == At(g, p)
  {
    assert ([a] + g)[p[0] + 1] == g[p[0]];
  }

  lemma AtHead(a: Node, g: seq<Node>, q: seq<nat>)
    requires a.Folder? && ValidPath(a.children, q)
    ensures ValidPath([a] + g, [0] + q) && At([a] + g, [0] + q) == At(a.children, q)
  {
    assert ([0] + q)[1..] == q;
  }

  lemma ReplaceAtShift(a: Node, g: seq<Node>, p: seq<nat>, m: Node)
    requires ValidPath(g, p)
    ensures ValidPath([a] + g, Shift(p))
    ensures ReplaceAt([a] + g, Shift(p), m) == [a] + ReplaceAt(g, p, m)
  {
    AtShift(a, g, p);
    var f := [a] + g;
    var k := p[0];
    if |p| == 1 {
      assert f[k + 1 := m] == [a] + g[k := m];
    } else {
      assert f[k + 1] == g[k];
      assert f[k + 1 := f[k + 1].(children := ReplaceAt(g[k].children, p[1..], m))]
          == [a] + g[k := g[k].(children := ReplaceAt(g[k].children, p[1..], m))];
    }
  }

  lemma ReplaceAtHead(a: Node, g: seq<Node>, q: seq<nat>, m: Node)
    requires a.Folder? && ValidPath(a.children, q)
    ensures ValidPath([a] + g, [0] + q)
    ensures ReplaceAt([a] + g, [0] + q, m) == [a.(children := ReplaceAt(a.children, q, m))] + g
  {
    AtHead(a, g, q);
    assert ([0] + q)[1..] == q;
  }

  lemma RemoveAtShift(a: Node, g: seq<Node>, p: seq<nat>)
    requires ValidPath(g, p)
    ensures ValidPath([a] + g, Shift(p))
    ensures RemoveAt([a] + g, Shift(p)) == [a] + RemoveAt(g, p)
  {
    AtShift(a, g, p);
    var f := [a] + g;
    var k := p[0];
    if |p| == 1 {
      assert f[..k + 1] + f[k + 2..] == [a] + (g[..k] + g[k + 1..]);
    } else {
      assert f[k + 1] == g[k];
      assert f[k + 1 := f[k + 1].(children := RemoveAt(g[k].children, p[1..]))]
          == [a] + g[k := g[k].(children := RemoveAt(g[k].children, p[1..]))];
    }
  }

  lemma RemoveAtHead(a: Node, g: seq<Node>, q: seq<nat>)
    requires a.Folder? && ValidPath(a.children, q)
    ensures ValidPath([a] + g, [0] + q)
    ensures RemoveAt([a] + g, [0] + q) == [a.(children := RemoveAt(a.children, q))] + g
  {
    AtHead(a, g, q);
    assert ([0] + q)[1..] == q;
  }

  lemma InsertAtShift(a: Node, g: seq<Node>, q: seq<nat>, i: nat, x: Node)
    requires ValidSlot(g, q, i)
    ensures q == [] ==> ValidSlot([a] + g, [], i + 1)
    ensures q == [] ==> InsertAt([a] + g, [], i + 1, x) == [a] + InsertAt(g, [], i, x)
    ensures q != [] ==> ValidSlot([a] + g, Shift(q), i)
    ensures q != [] ==> InsertAt([a] + g, Shift(q), i, x) == [a] + InsertAt(g, q, i, x)
  {
    var f := [a] + g;
    if q == [] {
      assert f[..i + 1] + [x] + f[i + 1..] == [a] + (g[..i] + [x] + g[i..]);
    } else {
      AtShift(a, g, q);
      var k := q[0];
      assert f[k + 1] == g[k];
      assert Shift(q)[1..] == q[1..];
      assert f[k + 1 := f[k + 1].(children := InsertAt(g[k].children, q[1..], i, x))]
          == [a] + g[k := g[k].(children := InsertAt(g[k].children, q[1..], i, x))];
    }
  }

  lemma InsertAtHead(a: Node, g: seq<Node>, q: seq<nat>, i: nat, x: Node)
    requires a.Folder? && ValidSlot(a.children, q, i)
    ensures ValidSlot([a] + g, [0] + q, i)
    ensures InsertAt([a] + g, [0] + q, i, x) == [a.(children := InsertAt(a.children, q, i, x))] + g
  {
    assert ([0] + q)[1..] == q;
    if q != [] {
      AtHead(a, g, q);
    }
  }

  /** The inserted node sits at the slot it was inserted into. */
  lemma {:induction false} InsertAtAt(f: seq<Node>, q: seq<nat>, i: nat, x: Node)
    requires ValidSlot(f, q, i)
    ensures ValidPath(InsertAt(f, q, i, x), q + [i]) && At(InsertAt(f, q, i, x), q + [i]) == x
    decreases q
  {
    var r := InsertAt(f, q, i, x);
    if q == [] {
      assert r[i] == x;
    } else {
      var k, kids := q[0], f[q[0]].children;
      if q[1..] != [] {
        assert At(f, q) == At(kids, q[1..]);
      }
      InsertAtAt(kids, q[1..], i, x);
      assert (q + [i])[0] == k && (q + [i])[1..] == q[1..] + [i];
      assert r[k].children == InsertAt(kids, q[1..], i, x);
    }
  }

  // ---------------------------------------------------------------------------------------
  // What the path-addressed edits do to the ids

  /** Taking out the subtree at p takes out exactly its ids. */
  lemma {:induction false} RemoveAtIds(f: seq<Node>, p: seq<nat>)
    requires ValidPath(f, p)
    ensures multiset(Ids(RemoveAt(f, p))) + multiset(SubtreeIds(At(f, p))) == multiset(Ids(f))
    decreases p
  {
    var k := p[0];
    IdsSplit(f, k);
    if |p| == 1 {
      assert RemoveAt(f, p) == f[..k] + f[k + 1..];
      IdsAppend(f[..k], f[k + 1..]);
    } else {
      var m := f[k].(children := RemoveAt(f[k].children, p[1..]));
      var r := f[k := m];
      RemoveAtIds(f[k].children, p[1..]);
      assert r[..k] == f[..k] && r[k + 1..] == f[k + 1..] && r[k] == m;
      IdsSplit(r, k);
    }
  }

  /** Growing the middle part of a sequence grows the whole by the same elements. */
  lemma MultisetGrow(a: seq<Id>, b': seq<Id>, b: seq<Id>, c: seq<Id>, e: multiset<Id>)
    requires multiset(b') == multiset(b) + e
    ensures multiset(a + b' + c) == multiset(a + b + c) + e
  {
    calc {
      multiset(a + b' + c);
      multiset(a) + multiset(b') + multiset(c);
      multiset(a) + multiset(b) + multiset(c) + e;
      multiset(a + b + c) + e;
    }
  }

  lemma InsertAtRootIds(f: seq<Node>, i: nat, x: Node)
    requires i <= |f|
    ensures Ids(f[..i] + [x] + f[i..]) == Ids(f[..i]) + SubtreeIds(x) + Ids(f[i..])
    ensures Ids(f) == Ids(f[..i]) + Ids(f[i..])
  {
    var front, back := f[..i], f[i..];
    assert f == front + back;
    IdsAppend(front, back);
    IdsAppend(front + [x], back);
    IdsAppend(front, [x]);
    IdsCons(x, []);
    assert [x] + [] == [x];
  }

  /** Growing the children of the k-th root grows the forest's ids by the same ids. */
  lemma ChildrenGrowIds(f: seq<Node>, k: nat, kids': seq<Node>, e: multiset<Id>)
    requires k < |f| && f[k].Folder?
    requires multiset(Ids(kids')) == multiset(Ids(f[k].children)) + e
    ensures multiset(Ids(f[k := f[k].(children := kids')])) == multiset(Ids(f)) + e
  {
    var m := f[k].(children := kids');
    var r := f[k := m];
    assert r[..k] == f[..k] && r[k + 1..] == f[k + 1..] && r[k] == m;
    IdsSplit(f, k);
    IdsSplit(r, k);
    MultisetGrow([m.id], Ids(kids'), Ids(f[k].children), [], e);
    assert [m.id] + Ids(kids') + [] == SubtreeIds(m);
    assert [m.id] + Ids(f[k].children) + [] == SubtreeIds(f[k]);
    MultisetGrow(Ids(f[..k]), SubtreeIds(m), SubtreeIds(f[k]), Ids(f[k + 1..]), e);
  }

  /** Inserting x adds exactly x's ids: one copy of the subtree. */
  lemma {:induction false} InsertAtIds(f: seq<Node>, q: seq<nat>, i: nat, x: Node)
    requires ValidSlot(f, q, i)
    ensures multiset(Ids(InsertAt(f, q, i, x))) == multiset(Ids(f)) + multiset(SubtreeIds(x))
    decreases q
  {
    if q == [] {
      InsertAtRootIds(f, i, x);
    } else {
      var k := q[0];
      var kids := f[k].children;
      if q[1..] != [] {
        assert At(f, q) == At(kids, q[1..]);
      }
      assert ValidSlot(kids, q[1..], i);
      InsertAtIds(kids, q[1..], i, x);
      ChildrenGrowIds(f, k, InsertAt(kids, q[1..], i, x), multiset(SubtreeIds(x)));
    }
  }
}
