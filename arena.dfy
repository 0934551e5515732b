/** The pointer updates of the sources, as updates of arena cells, and the
    proofs that after them the arena realises the transformed ghost tree:
    changing a node's key or payload, a rotation, hanging a new leaf,
    unlinking a childless node, and splicing a node out in favour of its
    only child. */
module Arena {
  import opened BinaryTrees

  /** The child link of a cell in direction `d`, and the cell with that link replaced. */
  function Link<A>(c: Slot<A>, d: Dir): int { if d == L then c.left else c.right }

  function SetLink<A>(c: Slot<A>, d: Dir, v: int): (r: Slot<A>)
    ensures Link(r, d) == v && Link(r, Other(d)) == Link(c, Other(d))
    ensures r.key == c.key && r.info == c.info && r.parent == c.parent
  {
    if d == L then c.(left := v) else c.(right := v)
  }

  lemma IdIn<A>(t: Tree<A>)
    requires t.Node?
    ensures t.id in Ids(t)
    ensures Ids(t) == Ids(t.left) + {t.id} + Ids(t.right)
  {
  }

  /** What the arena says about a node below the root and its parent. */
  lemma ParentLink<A>(t: Tree<A>, s: seq<Slot<A>>, p: Path)
    requires Linked(t, NIL, s) && Reaches(t, p) && p != []
    ensures Reaches(t, Parent(p)) && At(t, Parent(p)).Node?
    ensures At(t, p) == Child(At(t, Parent(p)), Last(p))
    ensures p == Parent(p) + [Last(p)]
    ensures At(t, Parent(p)).id < |s|
    ensures Link(s[At(t, Parent(p)).id], Last(p)) == Id(At(t, p))
    ensures At(t, p).Node? ==> At(t, p).id < |s| && s[At(t, p).id].parent == At(t, Parent(p)).id
  {
    ReachesPrefix(t, p, |p| - 1);
    assert p[..|p|] == p;
    LinkedNode(t, s, Parent(p));
    if At(t, p).Node? { LinkedNode(t, s, p); }
  }

  /** In a distinct tree the node at `p` is not its parent. */
  lemma ParentDistinct<A>(t: Tree<A>, p: Path)
    requires Distinct(t) && Reaches(t, p) && p != [] && At(t, p).Node?
    ensures Reaches(t, Parent(p)) && At(t, Parent(p)).Node?
    ensures At(t, Parent(p)).id !in Ids(At(t, p))
  {
    ReachesPrefix(t, p, |p| - 1);
    assert p[..|p|] == p;
    DistinctAt(t, Parent(p));
  }

  /** Linking `u` in place of the subtree at `p`: the parent's link names `u`, no
      other cell outside the old subtree changes, and `u` hangs under that parent. */
  lemma LinkedPutAt<A>(t: Tree<A>, s: seq<Slot<A>>, p: Path, u: Tree<A>, s': seq<Slot<A>>)
    requires Linked(t, NIL, s) && Distinct(t) && Reaches(t, p)
    requires p == [] ==> Linked(u, NIL, s')
    requires p != [] ==> var g := At(t, Parent(p));
      g.Node? && g.id < |s| && g.id < |s'| && s'[g.id] == SetLink(s[g.id], Last(p), Id(u)) &&
      Linked(u, g.id, s') &&
      (forall i :: i in Ids(t) - Ids(At(t, p)) - {g.id} && i < |s| ==> i < |s'| && s'[i] == s[i])
    ensures Linked(Put(t, p, u), NIL, s')
  {
    if p != [] {
      var g := At(t, Parent(p));
      LinkedIds(t, NIL, s);
      forall i | i in Ids(t) - Ids(At(t, p)) - {g.id} ensures i < |s| && i < |s'| && s'[i] == s[i] { }
      assert s'[g.id] == (if p[|p| - 1] == L then s[g.id].(left := Id(u)) else s[g.id].(right := Id(u)));
      LinkedPut(t, NIL, s, p, u, s');
    }
  }

  /** A subtree whose root cell only changes its parent link. */
  lemma LinkedReparent<A>(t: Tree<A>, parent: int, s: seq<Slot<A>>, parent': int, s': seq<Slot<A>>)
    requires Linked(t, parent, s) && Distinct(t) && t.Node?
    requires t.id < |s'| && s'[t.id] == s[t.id].(parent := parent')
    requires forall i :: i in Ids(t.left) && i < |s| ==> i < |s'| && s'[i] == s[i]
    requires forall i :: i in Ids(t.right) && i < |s| ==> i < |s'| && s'[i] == s[i]
    ensures Linked(t, parent', s')
  {
    LinkedKeep(t.left, t.id, s, s');
    LinkedKeep(t.right, t.id, s, s');
  }

  /** A subtree none of whose cells change. */
  lemma LinkedKeep<A>(t: Tree<A>, parent: int, s: seq<Slot<A>>, s': seq<Slot<A>>)
    requires Linked(t, parent, s)
    requires forall i :: i in Ids(t) && i < |s| ==> i < |s'| && s'[i] == s[i]
    ensures Linked(t, parent, s')
  {
    LinkedIds(t, parent, s);
    forall i | i in Ids(t) ensures i < |s| && i < |s'| && s'[i] == s[i] { }
    LinkedFrame(t, parent, s, s');
  }

  /** MoveTo and recolouring: the node at `p` gets a new key and information. */
  lemma LinkedRelabel<A>(t: Tree<A>, s: seq<Slot<A>>, p: Path, k: int, a: A)
    requires Linked(t, NIL, s) && Distinct(t) && Reaches(t, p) && At(t, p).Node?
    ensures At(t, p).id < |s|
    ensures Linked(Put(t, p, At(t, p).(key := k, info := a)), NIL,
                   s[At(t, p).id := s[At(t, p).id].(key := k, info := a)])
  {
    var x := At(t, p);
    var u := x.(key := k, info := a);
    LinkedNode(t, s, p);
    var s' := s[x.id := s[x.id].(key := k, info := a)];
    var par := if p == [] then NIL else Id(At(t, p[..|p| - 1]));
    LinkedAt(t, NIL, s, p);
    DistinctAt(t, p);
    assert x.id !in Ids(x.left) && x.id !in Ids(x.right);
    LinkedKeep(x.left, x.id, s, s');
    LinkedKeep(x.right, x.id, s, s');
    assert Linked(u, par, s');
    if p != [] {
      ParentLink(t, s, p);
      ParentDistinct(t, p);
      IdIn(x);
      var g := At(t, Parent(p));
      assert SetLink(s[g.id], Last(p), Id(u)) == s[g.id] by { if Last(p) == L { } else { } }
    }
    LinkedPutAt(t, s, p, u, s');
  }

  /** Everything the rotation at `p` toward `d` needs to know about the arena:
      the ids involved are pairwise different and the cells hold the links. */
  lemma RotateShape<A>(t: Tree<A>, s: seq<Slot<A>>, p: Path, d: Dir)
    requires Linked(t, NIL, s) && Distinct(t) && Reaches(t, p)
    requires At(t, p).Node? && Child(At(t, p), Other(d)).Node?
    ensures var x := At(t, p); var y := Child(x, Other(d)); var b := Child(y, d);
      x.id < |s| && y.id < |s| && x.id != y.id &&
      Link(s[x.id], Other(d)) == y.id && Link(s[y.id], d) == Id(b) &&
      s[y.id].parent == x.id &&
      (b.Node? ==> b.id < |s| && b.id != x.id && b.id != y.id && s[b.id].parent == y.id) &&
      (p == [] ==> s[x.id].parent == NIL) &&
      (p != [] ==> At(t, Parent(p)).Node? && s[x.id].parent == At(t, Parent(p)).id &&
                   At(t, Parent(p)).id < |s| &&
                   At(t, Parent(p)).id != x.id && At(t, Parent(p)).id != y.id &&
                   At(t, Parent(p)).id != Id(b) &&
                   Link(s[At(t, Parent(p)).id], Last(p)) == x.id &&
                   Link(s[At(t, Parent(p)).id], Other(Last(p))) != x.id)
  {
    var x := At(t, p);
    var y := Child(x, Other(d));
    var b := Child(y, d);
    LinkedNode(t, s, p);
    LinkedAt(t, NIL, s, p);
    DistinctAt(t, p);
    IdIn(x);
    IdIn(y);
    assert Linked(y, x.id, s) && Distinct(y) by { if d == L { } else { } }
    assert Ids(y) <= Ids(x) && x.id !in Ids(y) by { if d == L { } else { } }
    if b.Node? {
      IdIn(b);
      assert Linked(b, y.id, s) by { if d == L { } else { } }
      assert Ids(b) <= Ids(y) && y.id !in Ids(b) by { if d == L { } else { } }
    }
    if p != [] {
      ParentLink(t, s, p);
      ParentDistinct(t, p);
      var g := At(t, Parent(p));
      DistinctAt(t, Parent(p));
      var o := Child(g, Other(Last(p)));
      assert x == Child(g, Last(p));
      assert Ids(x) !! Ids(o) by { if Last(p) == L { } else { } }
      LinkedAt(t, NIL, s, Parent(p));
      assert Linked(o, g.id, s) by { if Last(p) == L { } else { } }
      assert Link(s[g.id], Other(Last(p))) == Id(o) by { if Last(p) == L { } else { } }
    }
  }

  /** How the ids of a distinct subtree split among the pieces a rotation moves. */
  lemma RotIds<A>(x: Tree<A>, d: Dir)
    requires Distinct(x) && x.Node? && Child(x, Other(d)).Node?
    ensures var y := Child(x, Other(d)); var a, b, c := Child(x, d), Child(y, d), Child(y, Other(d));
      Distinct(a) && Distinct(y) && Distinct(b) && Distinct(c) &&
      Ids(x) == Ids(a) + {x.id} + Ids(y) && Ids(a) !! Ids(y) && x.id !in Ids(a) && x.id !in Ids(y) &&
      Ids(y) == Ids(b) + {y.id} + Ids(c) && Ids(b) !! Ids(c) && y.id !in Ids(b) && y.id !in Ids(c)
  {
    var y := Child(x, Other(d));
    assert Distinct(Child(x, d)) && Distinct(y) by { if d == L { } else { } }
    assert Distinct(Child(y, d)) && Distinct(Child(y, Other(d))) by { if d == L { } else { } }
    if d == L { } else { }
  }

  /** The three subtrees a rotation moves keep their links after the cell updates;
      the middle one now hangs under `x`. */
  lemma LinkedRotKids<A>(x: Tree<A>, par: int, s: seq<Slot<A>>, d: Dir, s': seq<Slot<A>>)
    requires Linked(x, par, s) && Distinct(x) && x.Node? && Child(x, Other(d)).Node?
    requires var y := Child(x, Other(d)); var b := Child(y, d);
      y.id < |s| && x.id < |s'| && y.id < |s'| &&
      (b.Node? ==> b.id < |s| && b.id < |s'| && s'[b.id] == s[b.id].(parent := x.id)) &&
      (forall i :: i in Ids(x) && i < |s| && i != x.id && i != y.id && i != Id(b) ==> i < |s'| && s'[i] == s[i])
    ensures var y := Child(x, Other(d));
      Linked(Child(x, d), x.id, s') && Linked(Child(y, d), x.id, s') && Linked(Child(y, Other(d)), y.id, s')
    ensures var y := Child(x, Other(d));
      s[x.id] == Slot(x.key, x.info, par, Id(x.left), Id(x.right)) &&
      s[y.id] == Slot(y.key, y.info, x.id, Id(y.left), Id(y.right))
  {
    var y := Child(x, Other(d));
    var a := Child(x, d);
    var b := Child(y, d);
    var c := Child(y, Other(d));
    IdIn(x);
    IdIn(y);
    assert Linked(a, x.id, s) && Linked(y, x.id, s) by { if d == L { } else { } }
    assert Linked(b, y.id, s) && Linked(c, y.id, s) by { if d == L { } else { } }
    RotIds(x, d);
    forall i | i in Ids(a) && i < |s| ensures i < |s'| && s'[i] == s[i] {
      assert i in Ids(x) && i != x.id && i != y.id && i != Id(b);
    }
    LinkedKeep(a, x.id, s, s');
    forall i | i in Ids(c) && i < |s| ensures i < |s'| && s'[i] == s[i] {
      assert i in Ids(x) && i != x.id && i != y.id && i != Id(b);
    }
    LinkedKeep(c, y.id, s, s');
    if b.Node? {
      IdIn(b);
      assert Ids(b) == Ids(b.left) + {b.id} + Ids(b.right) && b.id !in Ids(b.left) && b.id !in Ids(b.right);
      forall i | i in Ids(b) - {b.id} && i < |s| ensures i < |s'| && s'[i] == s[i] {
        assert i in Ids(x) && i != x.id && i != y.id;
      }
      LinkedReparent(b, y.id, s, x.id, s');
    }
  }

  /** The rotation of a subtree `x` hanging under `par`, from the cell updates. */
  lemma LinkedRotNode<A>(x: Tree<A>, par: int, s: seq<Slot<A>>, d: Dir, s': seq<Slot<A>>)
    requires Linked(x, par, s) && Distinct(x) && x.Node? && Child(x, Other(d)).Node?
    requires var y := Child(x, Other(d)); var b := Child(y, d);
      y.id < |s| && x.id < |s'| && y.id < |s'| &&
      s'[y.id] == SetLink(s[y.id].(parent := par), d, x.id) &&
      s'[x.id] == SetLink(s[x.id].(parent := y.id), Other(d), Id(b)) &&
      (b.Node? ==> b.id < |s| && b.id < |s'| && s'[b.id] == s[b.id].(parent := x.id)) &&
      (forall i :: i in Ids(x) && i < |s| && i != x.id && i != y.id && i != Id(b) ==> i < |s'| && s'[i] == s[i])
    ensures Linked(Rot(x, d), par, s')
  {
    var y := Child(x, Other(d));
    var b := Child(y, d);
    LinkedRotKids(x, par, s, d, s');
    var x' := WithChild(x, Other(d), b);
    var u := WithChild(y, d, x');
    assert Rot(x, d) == u by { if d == L { } else { } }
    assert Linked(x', y.id, s') by { if d == L { } else { } }
    assert Linked(u, par, s') by { if d == L { } else { } }
  }

  /** After the cell updates of RotateLeft (`d == L`) or RotateRight (`d == R`)
      at the node at `p`, the arena realises the rotated tree. */
  lemma LinkedRotate<A>(t: Tree<A>, s: seq<Slot<A>>, p: Path, d: Dir, s': seq<Slot<A>>)
    requires Linked(t, NIL, s) && Distinct(t) && Reaches(t, p)
    requires At(t, p).Node? && Child(At(t, p), Other(d)).Node?
    requires var x := At(t, p); var y := Child(x, Other(d)); var b := Child(y, d);
      x.id < |s| && y.id < |s| && x.id < |s'| && y.id < |s'| &&
      s'[y.id] == SetLink(s[y.id].(parent := s[x.id].parent), d, x.id) &&
      s'[x.id] == SetLink(s[x.id].(parent := y.id), Other(d), Id(b)) &&
      (b.Node? ==> b.id < |s| && b.id < |s'| && s'[b.id] == s[b.id].(parent := x.id)) &&
      (p != [] ==> At(t, Parent(p)).Node? && At(t, Parent(p)).id < |s| && At(t, Parent(p)).id < |s'| &&
                   s'[At(t, Parent(p)).id] == SetLink(s[At(t, Parent(p)).id], Last(p), y.id)) &&
      (forall i :: (i in Ids(t) && i < |s| && i != x.id && i != y.id && i != Id(b) &&
                    (p == [] || i != At(t, Parent(p)).id)) ==> i < |s'| && s'[i] == s[i])
    ensures Linked(Put(t, p, Rot(At(t, p), d)), NIL, s')
  {
    var x := At(t, p);
    var y := Child(x, Other(d));
    RotateShape(t, s, p, d);
    LinkedNode(t, s, p);
    LinkedAt(t, NIL, s, p);
    DistinctAt(t, p);
    IdsAt(t, p);
    var par := if p == [] then NIL else At(t, Parent(p)).id;
    if p != [] {
      ParentDistinct(t, p);
      assert At(t, Parent(p)).id !in Ids(x);
    }
    LinkedRotNode(x, par, s, d, s');
    RotElems(x, d);
    assert Id(Rot(x, d)) == y.id by { if d == L { } else { } }
    LinkedPutAt(t, s, p, Rot(x, d), s');
  }

  /** InsertNode: a new cell at the end of the arena hangs at the empty position `p`. */
  lemma LinkedAttach<A>(t: Tree<A>, s: seq<Slot<A>>, p: Path, k: int, a: A, s': seq<Slot<A>>)
    requires Linked(t, NIL, s) && Distinct(t) && Reaches(t, p) && At(t, p).Leaf?
    requires |s'| == |s| + 1
    requires p == [] ==> s'[|s|] == Slot(k, a, NIL, NIL, NIL)
    requires p != [] ==> var g := At(t, Parent(p));
      g.Node? && g.id < |s| && s'[|s|] == Slot(k, a, g.id, NIL, NIL) &&
      s'[g.id] == SetLink(s[g.id], Last(p), |s|)
    requires forall i :: (i in Ids(t) && i < |s| && (p == [] || i != At(t, Parent(p)).id)) ==> s'[i] == s[i]
    ensures var u := Node(|s|, k, a, Leaf, Leaf);
      Linked(Put(t, p, u), NIL, s') && Distinct(Put(t, p, u)) && Ids(Put(t, p, u)) == Ids(t) + {|s|}
  {
    var u := Node(|s|, k, a, Leaf, Leaf);
    LinkedIds(t, NIL, s);
    assert Ids(u) == {|s|};
    DistinctPutFresh(t, p, u);
    if p != [] {
      ParentLink(t, s, p);
      forall i | i in Ids(t) - Ids(At(t, p)) - {At(t, Parent(p)).id} && i < |s| ensures i < |s'| && s'[i] == s[i] { }
    }
    LinkedPutAt(t, s, p, u, s');
  }

  /** The destructor of a childless node: its parent's link toward it becomes null. */
  lemma LinkedUnlink<A>(t: Tree<A>, s: seq<Slot<A>>, q: Path, s': seq<Slot<A>>)
    requires Linked(t, NIL, s) && Distinct(t) && Reaches(t, q) && q != []
    requires At(t, q).Node? && At(t, q).left.Leaf? && At(t, q).right.Leaf?
    requires var g := At(t, Parent(q));
      g.Node? && g.id < |s| && g.id < |s'| && s'[g.id] == SetLink(s[g.id], Last(q), NIL)
    requires forall i :: (i in Ids(t) && i < |s| && i != At(t, Parent(q)).id && i != At(t, q).id) ==>
      i < |s'| && s'[i] == s[i]
    ensures Linked(Put(t, q, Leaf), NIL, s') && Distinct(Put(t, q, Leaf))
    ensures Ids(Put(t, q, Leaf)) == Ids(t) - {At(t, q).id}
  {
    DistinctPutFresh(t, q, Leaf);
    assert Ids(At(t, q)) == {At(t, q).id};
    LinkedCut(t, s, q, s');
  }

  /** The links of LinkedUnlink. */
  lemma LinkedCut<A>(t: Tree<A>, s: seq<Slot<A>>, q: Path, s': seq<Slot<A>>)
    requires Linked(t, NIL, s) && Distinct(t) && Reaches(t, q) && q != []
    requires At(t, q).Node? && Ids(At(t, q)) == {At(t, q).id}
    requires var g := At(t, Parent(q));
      g.Node? && g.id < |s| && g.id < |s'| && s'[g.id] == SetLink(s[g.id], Last(q), NIL)
    requires forall i :: (i in Ids(t) && i < |s| && i != At(t, Parent(q)).id && i != At(t, q).id) ==>
      i < |s'| && s'[i] == s[i]
    ensures Linked(Put(t, q, Leaf), NIL, s')
  {
    ParentLink(t, s, q);
    LinkedPutAt(t, s, q, Leaf, s');
  }

  /** ReplaceIfNotNull with a child: the parent's link and the child's parent link
      bypass the node at `q`, which has no other child. */
  lemma LinkedSplice<A>(t: Tree<A>, s: seq<Slot<A>>, q: Path, s': seq<Slot<A>>)
    requires Linked(t, NIL, s) && Distinct(t) && Reaches(t, q) && q != []
    requires At(t, q).Node? && (At(t, q).left.Leaf? || At(t, q).right.Leaf?)
    requires var x := At(t, q); var c := if x.left.Node? then x.left else x.right;
      var g := At(t, Parent(q));
      c.Node? && g.Node? && g.id < |s| && g.id < |s'| && c.id < |s| && c.id < |s'| &&
      s'[g.id] == SetLink(s[g.id], Last(q), c.id) &&
      s'[c.id] == s[c.id].(parent := g.id) &&
      (forall i :: (i in Ids(t) && i < |s| && i != g.id && i != c.id && i != x.id) ==> i < |s'| && s'[i] == s[i])
    ensures var x := At(t, q); var c := if x.left.Node? then x.left else x.right;
      Linked(Put(t, q, c), NIL, s') && Distinct(Put(t, q, c)) &&
      Ids(Put(t, q, c)) == Ids(t) - {x.id}
  {
    var x := At(t, q);
    var c := if x.left.Node? then x.left else x.right;
    var g := At(t, Parent(q));
    ParentLink(t, s, q);
    ParentDistinct(t, q);
    LinkedAt(t, NIL, s, q);
    DistinctAt(t, q);
    IdsAt(t, q);
    IdIn(x);
    IdIn(c);
    assert Ids(x) == Ids(c) + {x.id} && x.id !in Ids(c);
    assert Linked(c, x.id, s) && Distinct(c);
    forall i | i in Ids(c.left) && i < |s| ensures i < |s'| && s'[i] == s[i] { assert i in Ids(t); }
    forall i | i in Ids(c.right) && i < |s| ensures i < |s'| && s'[i] == s[i] { assert i in Ids(t); }
    LinkedReparent(c, x.id, s, g.id, s');
    DistinctPutFresh(t, q, c);
    LinkedPutAt(t, s, q, c, s');
  }

  /** Everything the arena holds about the node at `p`, and how its parent's
      links tell on which side it hangs (isLeftChild / isRightChild). */
  lemma NodeInArena<A>(t: Tree<A>, s: seq<Slot<A>>, p: Path)
    requires Linked(t, NIL, s) && Distinct(t) && At(t, p).Node?
    ensures Reaches(t, p)
    ensures At(t, p).id < |s|
    ensures s[At(t, p).id] == Slot(At(t, p).key, At(t, p).info,
                                   if p == [] then NIL else Id(At(t, Parent(p))),
                                   Id(At(t, p).left), Id(At(t, p).right))
    ensures p != [] ==> (At(t, Parent(p)).Node? && At(t, Parent(p)).id < |s| &&
      At(t, Parent(p)).id != At(t, p).id &&
      (s[At(t, Parent(p)).id].left == At(t, p).id <==> Last(p) == L) &&
      (s[At(t, Parent(p)).id].right == At(t, p).id <==> Last(p) == R))
  {
    AtNodeReaches(t, p);
    LinkedNode(t, s, p);
    if p != [] {
      ParentLink(t, s, p);
      ParentDistinct(t, p);
      IdIn(At(t, p));
      var g := At(t, Parent(p));
      DistinctAt(t, Parent(p));
      LinkedAt(t, NIL, s, Parent(p));
      var o := Child(g, Other(Last(p)));
      assert Ids(At(t, p)) !! Ids(o) by { if Last(p) == L { } else { } }
      if o.Node? { IdIn(o); }
      assert Link(s[g.id], Other(Last(p))) == Id(o) by { if Last(p) == L { } else { } }
      assert Id(o) != At(t, p).id;
      if Last(p) == L { } else { }
    }
  }

  /** The brother of the node at `p` is the parent's other link. */
  lemma SiblingInArena<A>(t: Tree<A>, s: seq<Slot<A>>, p: Path)
    requires Linked(t, NIL, s) && Distinct(t) && At(t, p).Node? && p != []
    ensures Reaches(t, Sibling(p)) && Reaches(t, Parent(p)) && At(t, Parent(p)).Node?
    ensures At(t, Parent(p)).id < |s|
    ensures At(t, Sibling(p)) == Child(At(t, Parent(p)), Other(Last(p)))
    ensures Link(s[At(t, Parent(p)).id], Other(Last(p))) == Id(At(t, Sibling(p)))
    ensures At(t, Sibling(p)).Node? ==> At(t, Sibling(p)).id < |s|
  {
    AtNodeReaches(t, p);
    ParentLink(t, s, p);
    AtChild(t, Parent(p), Other(Last(p)));
    LinkedNode(t, s, Parent(p));
    if At(t, Sibling(p)).Node? { LinkedNode(t, s, Sibling(p)); }
    if Last(p) == L { } else { }
  }

  /** The cell updates of RotateLeft (`d == L`) / RotateRight (`d == R`) on the
      node `x`, in the order the source performs them. */
  function RotateCells<A>(s: seq<Slot<A>>, x: int, d: Dir): (r: seq<Slot<A>>)
    requires 0 <= x < |s| && 0 <= Link(s[x], Other(d)) < |s|
    requires s[x].parent != NIL ==> 0 <= s[x].parent < |s|
    requires Link(s[Link(s[x], Other(d))], d) != NIL ==> 0 <= Link(s[Link(s[x], Other(d))], d) < |s|
    ensures |r| == |s|
  {
    var y := Link(s[x], Other(d));
    var b := Link(s[y], d);
    var par := s[x].parent;
    var s1 := s[y := s[y].(parent := par)];
    var s2 := if par == NIL then s1
              else if s1[par].left == x then s1[par := s1[par].(left := y)]
              else s1[par := s1[par].(right := y)];
    var s3 := s2[x := SetLink(s2[x], Other(d), b)];
    var s4 := if b != NIL then s3[b := s3[b].(parent := x)] else s3;
    var s5 := s4[x := s4[x].(parent := y)];
    s5[y := SetLink(s5[y], d, x)]
  }

  /** Cell by cell, for distinct nodes `x`, `y == Link(s[x], Other(d))`,
      `b == Link(s[y], d)` and the parent. */
  lemma RotateCellsAt<A>(s: seq<Slot<A>>, x: int, d: Dir, i: int)
    requires 0 <= x < |s| && 0 <= Link(s[x], Other(d)) < |s|
    requires s[x].parent != NIL ==> 0 <= s[x].parent < |s|
    requires Link(s[Link(s[x], Other(d))], d) != NIL ==> 0 <= Link(s[Link(s[x], Other(d))], d) < |s|
    requires var y := Link(s[x], Other(d)); var b := Link(s[y], d); var g := s[x].parent;
      x != y && b != x && b != y && g != x && g != y && (b == NIL || b != g)
    requires 0 <= i < |s|
    ensures |RotateCells(s, x, d)| == |s|
    ensures var y := Link(s[x], Other(d)); var b := Link(s[y], d); var g := s[x].parent;
      RotateCells(s, x, d)[i] ==
        if i == y then SetLink(s[y].(parent := g), d, x)
        else if i == x then SetLink(s[x].(parent := y), Other(d), b)
        else if i == b then s[b].(parent := x)
        else if i == g then (if s[g].left == x then s[g].(left := y) else s[g].(right := y))
        else s[i]
  {
  }

  /** The cells of the four nodes involved, and every other cell unchanged. */
  lemma RotateCellsSpec<A>(s: seq<Slot<A>>, x: int, d: Dir)
    requires 0 <= x < |s| && 0 <= Link(s[x], Other(d)) < |s|
    requires s[x].parent != NIL ==> 0 <= s[x].parent < |s|
    requires Link(s[Link(s[x], Other(d))], d) != NIL ==> 0 <= Link(s[Link(s[x], Other(d))], d) < |s|
    requires var y := Link(s[x], Other(d)); var b := Link(s[y], d); var g := s[x].parent;
      x != y && b != x && b != y && g != x && g != y && (b == NIL || b != g)
    ensures |RotateCells(s, x, d)| == |s|
    ensures var y := Link(s[x], Other(d)); var s' := RotateCells(s, x, d);
      s'[y] == SetLink(s[y].(parent := s[x].parent), d, x) &&
      s'[x] == SetLink(s[x].(parent := y), Other(d), Link(s[y], d))
    ensures var y := Link(s[x], Other(d)); var b := Link(s[y], d); var s' := RotateCells(s, x, d);
      b != NIL ==> s'[b] == s[b].(parent := x)
    ensures var y := Link(s[x], Other(d)); var g := s[x].parent; var s' := RotateCells(s, x, d);
      g != NIL ==> s'[g] == if s[g].left == x then s[g].(left := y) else s[g].(right := y)
    ensures var y := Link(s[x], Other(d)); var b := Link(s[y], d); var g := s[x].parent;
      var s' := RotateCells(s, x, d);
      forall i :: 0 <= i < |s| && i != x && i != y && i != b && i != g ==> s'[i] == s[i]
  {
    var y := Link(s[x], Other(d));
    var b := Link(s[y], d);
    var g := s[x].parent;
    RotateCellsAt(s, x, d, y);
    RotateCellsAt(s, x, d, x);
    if b != NIL { RotateCellsAt(s, x, d, b); }
    if g != NIL { RotateCellsAt(s, x, d, g); }
    forall i | 0 <= i < |s| && i != x && i != y && i != b && i != g
      ensures RotateCells(s, x, d)[i] == s[i]
    {
      RotateCellsAt(s, x, d, i);
    }
  }

  /** Those updates realise the rotated tree. */
  lemma LinkedRotateCells<A>(t: Tree<A>, s: seq<Slot<A>>, p: Path, d: Dir)
    requires Linked(t, NIL, s) && Distinct(t) && Reaches(t, p)
    requires At(t, p).Node? && Child(At(t, p), Other(d)).Node?
    ensures var x := At(t, p).id; var y := Child(At(t, p), Other(d));
      x < |s| && Link(s[x], Other(d)) == y.id && y.id < |s| &&
      (s[x].parent != NIL ==> 0 <= s[x].parent < |s|) &&
      Link(s[y.id], d) == Id(Child(y, d)) && (Child(y, d).Node? ==> Child(y, d).id < |s|) &&
      (s[x].parent == NIL <==> p == []) &&
      Linked(Put(t, p, Rot(At(t, p), d)), NIL, RotateCells(s, x, d)) &&
      |RotateCells(s, x, d)| == |s|
  {
    RotateShape(t, s, p, d);
    RotateCellsTree(t, s, p, d);
    LinkedRotate(t, s, p, d, RotateCells(s, At(t, p).id, d));
  }

  /** The cells RotateCells changes, named by the tree's nodes. */
  lemma RotateCellsTree<A>(t: Tree<A>, s: seq<Slot<A>>, p: Path, d: Dir)
    requires Linked(t, NIL, s) && Distinct(t) && Reaches(t, p)
    requires At(t, p).Node? && Child(At(t, p), Other(d)).Node?
    requires var x := At(t, p); var y := Child(x, Other(d)); var b := Child(y, d);
      x.id < |s| && y.id < |s| && x.id != y.id &&
      Link(s[x.id], Other(d)) == y.id && Link(s[y.id], d) == Id(b) &&
      (b.Node? ==> b.id < |s| && b.id != x.id && b.id != y.id) &&
      (p == [] ==> s[x.id].parent == NIL) &&
      (p != [] ==> At(t, Parent(p)).Node? && s[x.id].parent == At(t, Parent(p)).id &&
                   At(t, Parent(p)).id < |s| &&
                   At(t, Parent(p)).id != x.id && At(t, Parent(p)).id != y.id &&
                   At(t, Parent(p)).id != Id(b) &&
                   Link(s[At(t, Parent(p)).id], Last(p)) == x.id &&
                   Link(s[At(t, Parent(p)).id], Other(Last(p))) != x.id)
    ensures var x := At(t, p); var y := Child(x, Other(d)); var b := Child(y, d);
      var s' := RotateCells(s, x.id, d);
      |s'| == |s| &&
      s'[y.id] == SetLink(s[y.id].(parent := s[x.id].parent), d, x.id) &&
      s'[x.id] == SetLink(s[x.id].(parent := y.id), Other(d), Id(b)) &&
      (b.Node? ==> s'[b.id] == s[b.id].(parent := x.id)) &&
      (p != [] ==> s'[At(t, Parent(p)).id] == SetLink(s[At(t, Parent(p)).id], Last(p), y.id)) &&
      (forall i :: (i in Ids(t) && i < |s| && i != x.id && i != y.id && i != Id(b) &&
                    (p == [] || i != At(t, Parent(p)).id)) ==> s'[i] == s[i])
  {
    var xt := At(t, p);
    var x, y := xt.id, Child(xt, Other(d));
    var s' := RotateCells(s, x, d);
    RotateCellsSpec(s, x, d);
    if p != [] {
      var g := At(t, Parent(p)).id;
      assert s'[g] == SetLink(s[g], Last(p), y.id) by { if Last(p) == L { } else { } }
    }
    assert s'[x] == SetLink(s[x].(parent := y.id), Other(d), Id(Child(y, d))) by { if d == L { } else { } }
  }
}
