/** Subtree sizes kept in the nodes of the order-statistic tree.

    `Sized(t, size, extra)` says that every node of `t` stores the number of
    nodes of its subtree, except the nodes in `extra`, which store one more:
    those are the ancestors whose count is ahead of the tree (during the
    descent of InsertNode) or behind it (after a node was cut off and before
    the destructor's walk up has reached them). */
module SizedTrees {
  import opened BinaryTrees

  ghost predicate Sized<A>(t: Tree<A>, size: seq<int>, extra: set<nat>)
  {
    t.Leaf? ||
    (t.id < |size| && size[t.id] == Count(t) + (if t.id in extra then 1 else 0) &&
     Sized(t.left, size, extra) && Sized(t.right, size, extra))
  }

  /** Only the marks on the tree's own ids matter. */
  lemma SizedIgnore<A>(t: Tree<A>, size: seq<int>, e: set<nat>, e': set<nat>)
    requires Sized(t, size, e) && forall i :: i in Ids(t) ==> (i in e <==> i in e')
    ensures Sized(t, size, e')
  {
    if t.Node? {
      SizedIgnore(t.left, size, e, e');
      SizedIgnore(t.right, size, e, e');
    }
  }

  /** Every subtree keeps the marks. */
  lemma SizedAt<A>(t: Tree<A>, p: Path, size: seq<int>, e: set<nat>)
    requires Sized(t, size, e)
    ensures Sized(At(t, p), size, e)
    decreases |p|
  {
    if p != [] && t.Node? { SizedAt(Child(t, p[0]), p[1..], size, e); }
  }

  /** Cells that the tree does not use may change. */
  lemma SizedFrame<A>(t: Tree<A>, size: seq<int>, size': seq<int>, e: set<nat>)
    requires Sized(t, size, e)
    requires forall i :: i in Ids(t) && i < |size| ==> i < |size'| && size'[i] == size[i]
    ensures Sized(t, size', e)
  {
    if t.Node? {
      SizedFrame(t.left, size, size', e);
      SizedFrame(t.right, size, size', e);
    }
  }

  /** Equal shapes carry equal counts. */
  lemma SizedShape<A>(t: Tree<A>, u: Tree<A>, size: seq<int>, e: set<nat>)
    requires SameShape(t, u) && Sized(t, size, e)
    ensures Sized(u, size, e)
  {
    if t.Node? {
      SizedShape(t.left, u.left, size, e);
      SizedShape(t.right, u.right, size, e);
      ShapeElems(t, u);
    }
  }

  /** `size++` on a node that was not yet ahead. */
  lemma SizedInc<A>(t: Tree<A>, size: seq<int>, e: set<nat>, a: nat)
    requires Sized(t, size, e) && a !in e && a < |size|
    ensures Sized(t, size[a := size[a] + 1], e + {a})
  {
    if t.Node? {
      SizedInc(t.left, size, e, a);
      SizedInc(t.right, size, e, a);
    }
  }

  /** `size--` on a node whose count was one ahead. */
  lemma SizedDec<A>(t: Tree<A>, size: seq<int>, e: set<nat>, a: nat)
    requires Sized(t, size, e) && a in e && a < |size|
    ensures Sized(t, size[a := size[a] - 1], e - {a})
  {
    if t.Node? {
      SizedDec(t.left, size, e, a);
      SizedDec(t.right, size, e, a);
    }
  }

  /** Hanging a larger subtree at `p` catches up with the ancestors that were ahead. */
  lemma SizedGrow<A>(t: Tree<A>, p: Path, u: Tree<A>, size: seq<int>)
    requires Reaches(t, p) && Distinct(t)
    requires Sized(t, size, Anc(t, p)) && Sized(u, size, {})
    requires Count(u) == Count(At(t, p)) + 1 && Ids(u) !! Anc(t, p)
    ensures Sized(Put(t, p, u), size, {})
    decreases |p|
  {
    if p == [] {
    } else {
      var c, o := Child(t, p[0]), Child(t, Other(p[0]));
      AncIds(t, p);
      IdsAt(c, p[1..]);
      assert Anc(t, p) == {t.id} + Anc(c, p[1..]);
      DistinctAt(t, [p[0]]);
      assert Distinct(c) && Distinct(o) && Ids(c) !! Ids(o) && t.id !in Ids(c) && t.id !in Ids(o) by {
        if p[0] == L { } else { }
      }
      AncIds(c, p[1..]);
      assert Sized(c, size, Anc(t, p)) && Sized(o, size, Anc(t, p)) by { if p[0] == L { } else { } }
      SizedIgnore(c, size, Anc(t, p), Anc(c, p[1..]));
      SizedIgnore(o, size, Anc(t, p), {});
      SizedGrow(c, p[1..], u, size);
      CountPutDelta(c, p[1..], u);
      if p[0] == L { } else { }
    }
  }

  /** Cutting one node out of the subtree at `p` leaves its ancestors one ahead. */
  lemma SizedShrink<A>(t: Tree<A>, p: Path, u: Tree<A>, size: seq<int>)
    requires Reaches(t, p) && Distinct(t)
    requires Sized(t, size, {}) && Sized(u, size, {})
    requires Count(u) + 1 == Count(At(t, p)) && Ids(u) !! Anc(t, p)
    ensures Sized(Put(t, p, u), size, Anc(t, p))
    decreases |p|
  {
    if p == [] {
    } else {
      var c, o := Child(t, p[0]), Child(t, Other(p[0]));
      AncIds(t, p);
      IdsAt(c, p[1..]);
      assert Anc(t, p) == {t.id} + Anc(c, p[1..]);
      DistinctAt(t, [p[0]]);
      assert Distinct(c) && Distinct(o) && Ids(c) !! Ids(o) && t.id !in Ids(c) && t.id !in Ids(o) by {
        if p[0] == L { } else { }
      }
      AncIds(c, p[1..]);
      SizedShrink(c, p[1..], u, size);
      IdsPut(c, p[1..], u);
      SizedIgnore(Put(c, p[1..], u), size, Anc(c, p[1..]), Anc(t, p));
      SizedIgnore(o, size, {}, Anc(t, p));
      CountPutDelta(t, p, u);
      assert t.id in Anc(t, p) && size[t.id] == Count(t);
      SizedStep(t, p, u, size, Anc(t, p));
    }
  }

  /** A node whose size is right over children with their sizes right. */
  lemma SizedStep<A>(t: Tree<A>, p: Path, u: Tree<A>, size: seq<int>, e: set<nat>)
    requires t.Node? && p != [] && t.id < |size|
    requires Sized(Put(Child(t, p[0]), p[1..], u), size, e) && Sized(Child(t, Other(p[0])), size, e)
    requires size[t.id] == Count(Put(t, p, u)) + (if t.id in e then 1 else 0)
    ensures Sized(Put(t, p, u), size, e)
  {
    if p[0] == L { } else { }
  }

  /** A subtree of the same count, with its own sizes right, fits where the old one was. */
  lemma SizedSwap<A>(t: Tree<A>, p: Path, u: Tree<A>, size: seq<int>, size': seq<int>)
    requires Reaches(t, p) && Distinct(t)
    requires Sized(t, size, {}) && Sized(u, size', {}) && Count(u) == Count(At(t, p))
    requires forall i :: i in Ids(t) - Ids(At(t, p)) && i < |size| ==> i < |size'| && size'[i] == size[i]
    ensures Sized(Put(t, p, u), size', {})
    decreases |p|
  {
    if p != [] {
      var c, o := Child(t, p[0]), Child(t, Other(p[0]));
      var q := p[1..];
      IdsAt(c, q);
      assert At(t, p) == At(c, q);
      var inner := Ids(At(c, q));
      assert Ids(c) <= Ids(t) && Ids(o) <= Ids(t) && t.id in Ids(t) by { if p[0] == L { } else { } }
      assert Distinct(c) && Ids(c) !! Ids(o) && t.id !in Ids(c) && t.id !in Ids(o) by {
        if p[0] == L { } else { }
      }
      assert Sized(c, size, {}) && Sized(o, size, {}) by { if p[0] == L { } else { } }
      assert t.id in Ids(t) - inner;
      forall i | i in Ids(o) && i < |size| ensures i < |size'| && size'[i] == size[i] {
        assert i in Ids(t) - inner;
      }
      SizedFrame(o, size, size', {});
      forall i | i in Ids(c) - inner && i < |size| ensures i < |size'| && size'[i] == size[i] {
        assert i in Ids(t) - inner;
      }
      SizedSwap(c, q, u, size, size');
      CountPutDelta(t, p, u);
      assert size'[t.id] == Count(Put(t, p, u));
      SizedStep(t, p, u, size', {});
    }
  }

  /** The two size updates of RotateLeft (`d == L`) and RotateRight (`d == R`): the
      pivot takes over the node's size, the node is recounted from its new children. */
  lemma SizedRot<A>(x: Tree<A>, d: Dir, size: seq<int>)
    requires Distinct(x) && Sized(x, size, {}) && x.Node? && Child(x, Other(d)).Node?
    ensures x.id < |size| && Child(x, Other(d)).id < |size|
    ensures var y := Child(x, Other(d));
      Sized(Rot(x, d), size[y.id := size[x.id]][x.id := Count(Child(x, d)) + Count(Child(y, d)) + 1], {})
  {
    var y := Child(x, Other(d));
    var a, b, c := Child(x, d), Child(y, d), Child(y, Other(d));
    var size' := size[y.id := size[x.id]][x.id := Count(a) + Count(b) + 1];
    RotParts(x, d, size);
    SizedOutside(a, size, y.id, size[x.id], x.id, Count(a) + Count(b) + 1);
    SizedOutside(b, size, y.id, size[x.id], x.id, Count(a) + Count(b) + 1);
    SizedOutside(c, size, y.id, size[x.id], x.id, Count(a) + Count(b) + 1);
    RotAsWith(x, d);
    var x' := WithChild(x, Other(d), b);
    assert size'[x.id] == Count(x') && size'[y.id] == Count(x);
    assert Child(x, Other(Other(d))) == a by { if d == L { } else { } }
    SizedWith(x, Other(d), b, size', {});
    SizedWith(y, d, x', size', {});
  }

  /** Sizes of two nodes outside the tree may change. */
  lemma SizedOutside<A>(t: Tree<A>, size: seq<int>, i: nat, vi: int, j: nat, vj: int)
    requires Sized(t, size, {}) && i < |size| && j < |size| && i !in Ids(t) && j !in Ids(t)
    ensures Sized(t, size[i := vi][j := vj], {})
  {
    SizedFrame(t, size, size[i := vi][j := vj], {});
  }

  /** A rotation rebuilds the two nodes with one child each exchanged. */
  lemma RotAsWith<A>(x: Tree<A>, d: Dir)
    requires x.Node? && Child(x, Other(d)).Node?
    ensures var y := Child(x, Other(d)); var x' := WithChild(x, Other(d), Child(y, d));
      Rot(x, d) == WithChild(y, d, x') &&
      Count(x') == Count(Child(x, d)) + Count(Child(y, d)) + 1 &&
      Count(WithChild(y, d, x')) == Count(x)
  {
    if d == L { } else { }
  }

  /** A node with child `u` on side `d` has its sizes right when its own
      size and both children's are. */
  lemma SizedWith<A>(n: Tree<A>, d: Dir, u: Tree<A>, size: seq<int>, e: set<nat>)
    requires n.Node? && n.id < |size| && Sized(u, size, e) && Sized(Child(n, Other(d)), size, e)
    requires size[n.id] == Count(WithChild(n, d, u)) + (if n.id in e then 1 else 0)
    ensures Sized(WithChild(n, d, u), size, e)
  {
    if d == L { } else { }
  }

  /** The three subtrees a rotation moves about, and where the two rotated ids are not. */
  lemma RotParts<A>(x: Tree<A>, d: Dir, size: seq<int>)
    requires Distinct(x) && Sized(x, size, {}) && x.Node? && Child(x, Other(d)).Node?
    ensures var y := Child(x, Other(d)); var a, b, c := Child(x, d), Child(y, d), Child(y, Other(d));
      x.id < |size| && y.id < |size| && x.id != y.id &&
      Sized(a, size, {}) && Sized(b, size, {}) && Sized(c, size, {}) &&
      x.id !in Ids(a) && x.id !in Ids(b) && x.id !in Ids(c) &&
      y.id !in Ids(a) && y.id !in Ids(b) && y.id !in Ids(c) &&
      size[x.id] == Count(x)
  {
    var y := Child(x, Other(d));
    assert Distinct(y) && Sized(y, size, {}) && Sized(Child(x, d), size, {}) by { if d == L { } else { } }
    assert x.id !in Ids(Child(x, d)) && x.id !in Ids(y) && Ids(Child(x, d)) !! Ids(y) by { if d == L { } else { } }
    assert Ids(Child(y, d)) <= Ids(y) && Ids(Child(y, Other(d))) <= Ids(y) by { if d == L { } else { } }
    assert y.id !in Ids(Child(y, d)) && y.id !in Ids(Child(y, Other(d))) by { if d == L { } else { } }
    assert Sized(Child(y, d), size, {}) && Sized(Child(y, Other(d)), size, {}) by { if d == L { } else { } }
  }

  /** The size updates of a rotation at `p`, seen in the whole tree. */
  lemma SizedRotAt<A>(t: Tree<A>, p: Path, d: Dir, size: seq<int>)
    requires Reaches(t, p) && Distinct(t) && Sized(t, size, {})
    requires At(t, p).Node? && Child(At(t, p), Other(d)).Node?
    ensures var x := At(t, p); var y := Child(x, Other(d));
      x.id < |size| && y.id < |size| &&
      Sized(Put(t, p, Rot(x, d)),
            size[y.id := size[x.id]][x.id := Count(Child(x, d)) + Count(Child(y, d)) + 1], {})
  {
    var x := At(t, p);
    DistinctAt(t, p);
    SizedAt(t, p, size, {});
    SizedRot(x, d, size);
    RotElems(x, d);
    var y := Child(x, Other(d));
    var size' := size[y.id := size[x.id]][x.id := Count(Child(x, d)) + Count(Child(y, d)) + 1];
    IdsAt(t, p);
    assert x.id in Ids(x) && y.id in Ids(x) by { if d == L { } else { } }
    forall i | i in Ids(t) - Ids(x) && i < |size| ensures i < |size'| && size'[i] == size[i] {
      assert i != x.id && i != y.id;
    }
    SizedSwap(t, p, Rot(x, d), size, size');
  }
}
