/** The deletion fixup (DeleteCase1-6) of the three red-black trees.

    Subject `X` sits at path `p`; it is black and its subtree is one black
    level short (`DeleteInv`).  When a childless black node is removed, the
    source runs the fixup while that node is still attached; it is the
    `phantom` and is read as an absent child everywhere. */
module RedBlackDeletion {
  import opened BinaryTrees
  import opened RedBlack

  /** Between the deletion steps: the only fault of the whole tree is that the
      black subject at `p` has one black level too few. */
  ghost predicate DeleteInv(t: RBTree, p: Path, ph: int)
  {
    Avoids(t, p, ph) && At(t, p).Node? && ColorOf(At(t, p), ph) == Black &&
    Balanced(At(t, p), ph) && CtxBal(t, p, BH(At(t, p), ph) + 1, ph) &&
    NoRedRed(t, ph) && ColorOf(t, ph) == Black
  }

  /** The near nephew (the brother's child on the subject's side) and the far one. */
  function Near(p: Path): Path requires p != [] { Sibling(p) + [Last(p)] }
  function Far(p: Path): Path requires p != [] { Sibling(p) + [Other(Last(p))] }

  /** Ancestors of the node with id `ph` are not that node. */
  lemma DistinctAvoids(t: RBTree, q: Path, ph: int)
    requires Distinct(t) && At(t, q).Node? && At(t, q).id == ph
    ensures Avoids(t, q, ph)
    decreases |q|
  {
    if q != [] {
      var c := Child(t, q[0]);
      IdsAt(c, q[1..]);
      assert t.id != ph by { if q[0] == L { } else { } }
      DistinctAt(t, [q[0]]);
      assert Distinct(c) by { if q[0] == L { } else { } }
      DistinctAvoids(c, q[1..], ph);
    }
  }

  /** Erase of a black node without children: the fixup starts at that node as the phantom. */
  lemma DeleteStart(t: RBTree, q: Path)
    requires IsRB(t, NIL) && Distinct(t) && At(t, q).Node?
    requires At(t, q).info == Black && At(t, q).left.Leaf? && At(t, q).right.Leaf?
    ensures DeleteInv(t, q, At(t, q).id)
  {
    var ph := At(t, q).id;
    AtNodeReaches(t, q);
    DistinctAvoids(t, q, ph);
    ReachesAvoidsNil(t, q);
    IdsAt(t, q);
    SplitBalanced(t, q, NIL);
    SplitNoRedRed(t, q, NIL);
    CtxNoPhantom(t, q, 1, Black, ph);
    PlugNoRedRed(t, q, At(t, q), ph);
    PutAt(t, q);
    if q != [] { assert t.id != ph; }
  }

  /** Erase of a black node whose only child is black: the fixup starts at that child. */
  lemma DeleteStartAtChild(t: RBTree, q: Path)
    requires Balanced(t, NIL) && NoRedRed(t, NIL) && ColorOf(t, NIL) == Black
    requires Reaches(t, q) && At(t, q).Node? && At(t, q).info == Black
    requires CtxBal(t, q, BH(At(t, q), NIL) + 1, NIL)
    ensures DeleteInv(t, q, NIL)
  {
    ReachesAvoidsNil(t, q);
    SplitBalanced(t, q, NIL);
  }

  /** After the fixup the phantom is cut off: a sound red-black tree remains. */
  lemma DeleteFinish(t: RBTree, q: Path)
    requires Distinct(t) && At(t, q).Node? && At(t, q).left.Leaf? && At(t, q).right.Leaf?
    requires IsRB(t, At(t, q).id)
    ensures IsRB(Put(t, q, Leaf), NIL)
  {
    var ph := At(t, q).id;
    AtNodeReaches(t, q);
    DistinctAvoids(t, q, ph);
    IdsAt(t, q);
    SplitBalanced(t, q, ph);
    SplitNoRedRed(t, q, ph);
    CtxNoPhantom(t, q, 0, Black, ph);
    ReachesAvoidsNil(t, q);
    PlugBalanced(t, q, Leaf, NIL);
    PlugNoRedRed(t, q, Leaf, NIL);
    if q != [] { assert t.id != ph; }
  }

  /** DeleteCase1 at the root: the missing black level is shared by every path. */
  lemma DeleteCase1Done(t: RBTree, ph: int)
    requires DeleteInv(t, [], ph)
    ensures IsRB(t, ph)
  {
  }

  /** The local picture around the subject's parent. */
  lemma DeleteLocal(t: RBTree, p: Path, ph: int)
    requires DeleteInv(t, p, ph) && p != []
    ensures p == Parent(p) + [Last(p)] && Sibling(p) == Parent(p) + [Other(Last(p))]
    ensures Near(p) == Parent(p) + [Other(Last(p)), Last(p)]
    ensures Far(p) == Parent(p) + [Other(Last(p)), Other(Last(p))]
    ensures Avoids(t, Parent(p), ph) && Reaches(t, Parent(p)) && !Absent(At(t, Parent(p)), ph)
    ensures At(t, p) == Child(At(t, Parent(p)), Last(p))
    ensures At(t, Sibling(p)) == Child(At(t, Parent(p)), Other(Last(p)))
    ensures !Absent(At(t, Sibling(p)), ph)
    ensures At(t, Near(p)) == Child(At(t, Sibling(p)), Last(p))
    ensures At(t, Far(p)) == Child(At(t, Sibling(p)), Other(Last(p)))
    ensures Balanced(At(t, Sibling(p)), ph)
    ensures BH(At(t, Sibling(p)), ph) == BH(At(t, p), ph) + 1
    ensures CtxBal(t, Parent(p), HeightPut(At(t, Parent(p)), [Last(p)], BH(At(t, p), ph) + 1, ph), ph)
    ensures HeightPut(At(t, Parent(p)), [Last(p)], BH(At(t, p), ph) + 1, ph) ==
            (if At(t, Parent(p)).info == Black then 1 else 0) + BH(At(t, p), ph) + 1
    ensures NoRedRed(At(t, Parent(p)), ph)
    ensures CtxNRR(t, Parent(p), ColorOf(At(t, Parent(p)), ph), ph)
    ensures Parent(p) == [] || ColorOf(t, ph) == Black
  {
    var P, dX := Parent(p), Last(p);
    var h := BH(At(t, p), ph);
    AvoidsPrefix(t, p, ph);
    AvoidsReaches(t, P, ph);
    assert p == P + [dX];
    assert Near(p) == P + [Other(dX), dX];
    assert Far(p) == P + [Other(dX), Other(dX)];
    AtAppend(t, P, [Other(dX)]);
    AtAppend(t, P, [Other(dX), dX]);
    AtAppend(t, P, [Other(dX), Other(dX)]);
    CtxSplit(t, P, [dX], h + 1, Black, ph);
    assert [dX][0] == dX && [dX][1..] == [];
    var par := At(t, P);
    assert CtxBal(par, [dX], h + 1, ph);
    SplitNoRedRed(t, P, ph);
    var sb := Child(par, Other(dX));
    assert [Other(dX), dX][0] == Other(dX) && [Other(dX), dX][1..] == [dX];
    assert [Other(dX), Other(dX)][0] == Other(dX) && [Other(dX), Other(dX)][1..] == [Other(dX)];
    assert [Other(dX)][1..] == [];
    assert At(par, [Other(dX), dX]) == At(sb, [dX]) == Child(sb, dX);
    assert At(par, [Other(dX), Other(dX)]) == At(sb, [Other(dX)]) == Child(sb, Other(dX));
  }

  // ---------------------------------------------------------------------

  /** DeleteCase2 around the parent `par`, with the subject on side `d`. */
  lemma DeleteCase2Local(par: RBTree, d: Dir, ph: int)
    requires !Absent(par, ph) && par.info == Black && ColorOf(Child(par, d), ph) == Black
    requires !Absent(Child(par, Other(d)), ph) && Child(par, Other(d)).info == Red
    requires NoRedRed(par, ph) && Balanced(Child(par, d), ph) && Balanced(Child(par, Other(d)), ph)
    requires BH(Child(par, Other(d)), ph) == BH(Child(par, d), ph) + 1
    ensures Child(Child(par, Other(d)), d).Node?
    ensures var s := Child(par, Other(d));
      var u := Rot(WithChild(par.(info := Red), Other(d), s.(info := Black)), d);
      var h := BH(Child(par, d), ph);
      NoRedRed(u, ph) && ColorOf(u, ph) == Black &&
      At(u, [d, d]) == Child(par, d) && CtxBal(u, [d, d], h + 1, ph) &&
      HeightPut(u, [d, d], h + 1, ph) == h + 2 &&
      At(u, [d, Other(d)]) == Child(s, d) && ColorOf(Child(s, d), ph) == Black &&
      !Absent(u, ph) && !Absent(Child(u, d), ph) && CtxNRR(u, [d, d], Black, ph) &&
      Avoids(u, [d, d], ph)
  {
    var oX := Other(d);
    var x, s := Child(par, d), Child(par, oX);
    var h := BH(x, ph);
    var nr, fr := Child(s, d), Child(s, oX);
    var u2 := WithChild(par.(info := Red), oX, s.(info := Black));
    var u3 := Rot(u2, d);
    var pr := WithChild(par.(info := Red), oX, nr);
    assert u3 == WithChild(s.(info := Black), d, pr) by { if d == L { } else { } }
    assert NoRedRed(s, ph) && NoRedRed(x, ph) by { if d == L { } else { } }
    assert Balanced(nr, ph) && Balanced(fr, ph) && BH(nr, ph) == BH(fr, ph) == h + 1;
    assert ColorOf(nr, ph) == Black && ColorOf(fr, ph) == Black && NoRedRed(nr, ph) && NoRedRed(fr, ph);
    assert !Absent(nr, ph) && !Absent(fr, ph);
    assert NoRedRed(pr, ph) by { if d == L { } else { } }
    assert NoRedRed(u3, ph) && ColorOf(u3, ph) == Black by { if d == L { } else { } }
    assert [d, d][0] == d && [d, d][1..] == [d];
    assert [d][0] == d && [d][1..] == [];
    assert [d, oX][0] == d && [d, oX][1..] == [oX];
    assert [oX][0] == oX && [oX][1..] == [];
    assert At(u3, [d, d]) == At(pr, [d]) == x;
    assert At(u3, [d, oX]) == At(pr, [oX]) == nr;
    assert CtxBal(u3, [d, d], h + 1, ph) by { if d == L { } else { } }
    assert HeightPut(u3, [d, d], h + 1, ph) == h + 2 by { if d == L { } else { } }
    assert CtxNRR(u3, [d, d], Black, ph) by { if d == L { } else { } }
  }

  /** Two repaints at a node and its child on side `e`, then a rotation there
      toward `d`, seen as one replacement of the subtree at `a`. */
  lemma PaintPaintRot(t: RBTree, a: Path, c1: Color, e: Dir, c2: Color, d: Dir)
    requires Reaches(t, a) && At(t, a).Node? && Child(At(t, a), e).Node?
    requires Other(d) == e
    ensures At(Paint(t, a, c1), a + [e]) == Child(At(t, a), e)
    ensures var t2 := Paint(Paint(t, a, c1), a + [e], c2);
      At(t2, a).Node? && Child(At(t2, a), Other(d)).Node? &&
      RotAt(t2, a, d) == Put(t, a, Rot(WithChild(At(t, a).(info := c1), e, Child(At(t, a), e).(info := c2)), d)) &&
      Elems(RotAt(t2, a, d)) == Elems(t) && Count(RotAt(t2, a, d)) == Count(t) &&
      (Distinct(t) ==> Distinct(RotAt(t2, a, d)) && Ids(RotAt(t2, a, d)) == Ids(t))
  {
    var u := At(t, a);
    var u1 := Paint(u, [], c1);
    var u2 := Paint(u1, [e], c2);
    PaintOne(u, e, c1);
    PaintOne(u1, e, c2);
    PaintFrom(t, a, [], c1);
    assert a + [] == a;
    PaintInside(t, a, u1, [e], c2);
    var t2 := Put(t, a, u2);
    AtPut(t, a, u1);
    AtPut(t, a, u2);
    AtAppend(Put(t, a, u1), a, [e]);
    var u3 := Rot(u2, d);
    RotFrom(t2, a, [], d);
    PutPut(t, a, u2, u3);
    PaintElems(t, a, c1);
    AtNodeReaches(Paint(t, a, c1), a + [e]);
    PaintElems(Paint(t, a, c1), a + [e], c2);
    RotAtElemsOf(t2, a, d);
  }

  /** DeleteCase2: a red brother.  Parent turns red, brother black, and the parent
      rotates toward the subject; the subject now has a black brother. */
  lemma DeleteCase2Step(t: RBTree, p: Path, ph: int)
    requires DeleteInv(t, p, ph) && p != []
    requires ColorOf(At(t, Sibling(p)), ph) == Red
    ensures At(t, Parent(p)).Node? && At(t, Sibling(p)).Node?
    ensures At(Paint(t, Parent(p), Red), Sibling(p)) == At(t, Sibling(p))
    ensures !Absent(At(t, Parent(p)), ph) && !Absent(At(t, Sibling(p)), ph)
    ensures var t2 := Paint(Paint(t, Parent(p), Red), Sibling(p), Black);
      At(t2, Parent(p)).Node? && Child(At(t2, Parent(p)), Other(Last(p))).Node? &&
      var t3 := RotAt(t2, Parent(p), Last(p));
      var q := Parent(p) + [Last(p), Last(p)];
      DeleteInv(t3, q, ph) && At(t3, q) == At(t, p) &&
      ColorOf(At(t3, Sibling(q)), ph) == Black &&
      Elems(t3) == Elems(t) && Count(t3) == Count(t) &&
      (Distinct(t) ==> Distinct(t3) && Ids(t3) == Ids(t))
  {
    DeleteLocal(t, p, ph);
    var P, dX := Parent(p), Last(p);
    var oX := Other(dX);
    var par := At(t, P);
    var x, s := Child(par, dX), Child(par, oX);
    var h := BH(x, ph);
    PaintPaintRot(t, P, Red, oX, Black, dX);
    DeleteCase2Local(par, dX, ph);
    var u3 := Rot(WithChild(par.(info := Red), oX, s.(info := Black)), dX);
    var t3 := Put(t, P, u3);
    var q := P + [dX, dX];
    assert HeightPut(par, [dX], h + 1, ph) == h + 2;
    PlugDeleteInv(t, P, u3, [dX, dX], h, ph);
    AtPut(t, P, u3);
    PathTwo(P, dX, dX);
    AtAppend(t3, P, [dX, oX]);
  }

  /** Hanging at `P` a subtree `u` that holds the subject at `r`, with
      everything around the subject balanced and free of red-red edges,
      keeps DeleteInv for the subject at its new place `P + r`. */
  lemma PlugDeleteInv(t: RBTree, P: Path, u: RBTree, r: Path, h: nat, ph: int)
    requires Reaches(t, P) && Avoids(t, P, ph) && r != []
    requires NoRedRed(u, ph) && CtxNRR(t, P, ColorOf(u, ph), ph)
    requires ColorOf(t, ph) == Black && (P == [] ==> ColorOf(u, ph) == Black)
    requires Avoids(u, r, ph) && At(u, r).Node? && ColorOf(At(u, r), ph) == Black
    requires Balanced(At(u, r), ph) && BH(At(u, r), ph) == h
    requires CtxBal(u, r, h + 1, ph) && CtxBal(t, P, HeightPut(u, r, h + 1, ph), ph)
    ensures DeleteInv(Put(t, P, u), P + r, ph) && At(Put(t, P, u), P + r) == At(u, r)
  {
    var t3 := Put(t, P, u);
    CtxPut(t, P, u, HeightPut(u, r, h + 1, ph), Black, ph);
    AtPut(t, P, u);
    AtAppend(t3, P, r);
    CtxSplit(t3, P, r, h + 1, Black, ph);
    PlugNoRedRed(t, P, u, ph);
  }

  /** The nephews are both black (absent counts as black). */
  ghost predicate NephewsBlack(t: RBTree, p: Path, ph: int)
    requires p != []
  {
    ColorOf(At(t, Near(p)), ph) == Black && ColorOf(At(t, Far(p)), ph) == Black
  }

  /** DeleteCase3: black parent, black brother, black nephews.  The brother turns red
      and the shortage moves up to the parent. */
  lemma DeleteCase3Step(t: RBTree, p: Path, ph: int)
    requires DeleteInv(t, p, ph) && p != []
    requires ColorOf(At(t, Parent(p)), ph) == Black && ColorOf(At(t, Sibling(p)), ph) == Black
    requires NephewsBlack(t, p, ph)
    ensures At(t, Sibling(p)).Node? && !Absent(At(t, Sibling(p)), ph)
    ensures var t3 := Paint(t, Sibling(p), Red);
      DeleteInv(t3, Parent(p), ph) && Count(At(t3, Parent(p))) > Count(At(t, p)) &&
      At(t3, p) == At(t, p) &&
      Elems(t3) == Elems(t) && Count(t3) == Count(t) &&
      (Distinct(t) ==> Distinct(t3) && Ids(t3) == Ids(t))
  {
    DeleteLocal(t, p, ph);
    var P, dX := Parent(p), Last(p);
    var oX := Other(dX);
    var par := At(t, P);
    var x, s := Child(par, dX), Child(par, oX);
    var h := BH(x, ph);
    var u := Paint(par, [oX], Red);
    PaintOne(par, oX, Red);
    PaintFrom(t, P, [oX], Red);
    var t3 := Put(t, P, u);
    AtPut(t, P, u);
    DeleteCase3Local(par, dX, ph);
    CtxPut(t, P, u, h + 2, Black, ph);
    PlugNoRedRed(t, P, u, ph);
    AtNodeReaches(t, Sibling(p));
    PaintElems(t, Sibling(p), Red);
    AtAppend(t3, P, [dX]);
    assert [dX][0] == dX && [dX][1..] == [];
  }

  /** DeleteCase3 around the parent `par`, with the subject on side `d`: the
      brother turned red leaves a black subtree one level higher than the subject. */
  lemma DeleteCase3Local(par: RBTree, d: Dir, ph: int)
    requires !Absent(par, ph) && par.info == Black && NoRedRed(par, ph)
    requires Balanced(Child(par, d), ph) && Balanced(Child(par, Other(d)), ph)
    requires BH(Child(par, Other(d)), ph) == BH(Child(par, d), ph) + 1
    requires !Absent(Child(par, Other(d)), ph) && Child(par, Other(d)).info == Black
    requires ColorOf(Child(Child(par, Other(d)), L), ph) == Black
    requires ColorOf(Child(Child(par, Other(d)), R), ph) == Black
    ensures var u := WithChild(par, Other(d), Child(par, Other(d)).(info := Red));
      Balanced(u, ph) && BH(u, ph) == BH(Child(par, d), ph) + 1 && NoRedRed(u, ph) &&
      ColorOf(u, ph) == Black && Count(u) > Count(Child(par, d))
  {
    var x, s := Child(par, d), Child(par, Other(d));
    var h := BH(x, ph);
    assert Balanced(s.left, ph) && Balanced(s.right, ph);
    assert BH(s.left, ph) == h && BH(s.right, ph) == h;
    assert NoRedRed(s.(info := Red), ph) && Balanced(s.(info := Red), ph) && BH(s.(info := Red), ph) == h;
    assert NoRedRed(x, ph) && NoRedRed(s, ph) by { if d == L { } else { } }
    if d == L { } else { }
  }

  /** DeleteCase4: red parent, black brother, black nephews.  Swapping the colours of
      parent and brother ends the repair. */
  lemma DeleteCase4Done(t: RBTree, p: Path, ph: int)
    requires DeleteInv(t, p, ph) && p != []
    requires ColorOf(At(t, Parent(p)), ph) == Red && ColorOf(At(t, Sibling(p)), ph) == Black
    requires NephewsBlack(t, p, ph)
    ensures At(t, Sibling(p)).Node? && !Absent(At(t, Sibling(p)), ph) && !Absent(At(t, Parent(p)), ph)
    ensures At(Paint(t, Sibling(p), Red), Parent(p)).Node?
    ensures var t4 := Paint(Paint(t, Sibling(p), Red), Parent(p), Black);
      IsRB(t4, ph) && At(t4, p) == At(t, p) && Elems(t4) == Elems(t) && Count(t4) == Count(t) &&
      (Distinct(t) ==> Distinct(t4) && Ids(t4) == Ids(t))
  {
    DeleteLocal(t, p, ph);
    var P, dX := Parent(p), Last(p);
    var oX := Other(dX);
    var par := At(t, P);
    var x, s := Child(par, dX), Child(par, oX);
    var h := BH(x, ph);
    var u1 := Paint(par, [oX], Red);
    var u2 := Paint(u1, [], Black);
    PaintOne(par, oX, Red);
    PaintOne(u1, oX, Black);
    PaintFrom(t, P, [oX], Red);
    PaintInside(t, P, u1, [], Black);
    assert P + [] == P;
    AtPut(t, P, u1);
    var t4 := Put(t, P, u2);
    assert Balanced(Child(s, dX), ph) && Balanced(Child(s, oX), ph);
    assert BH(Child(s, dX), ph) == h && BH(Child(s, oX), ph) == h;
    assert NoRedRed(s.(info := Red), ph) && Balanced(s.(info := Red), ph) && BH(s.(info := Red), ph) == h;
    assert NoRedRed(x, ph) && NoRedRed(s, ph) by { if dX == L { } else { } }
    assert Balanced(u2, ph) && BH(u2, ph) == h + 1 && NoRedRed(u2, ph) && ColorOf(u2, ph) == Black by {
      if dX == L { } else { }
    }
    CtxNRRRedBlack(t, P, ph);
    PlugRB(t, P, u2, ph);
    AtNodeReaches(t, Sibling(p));
    PaintElems(t, Sibling(p), Red);
    AtNodeReaches(Paint(t, Sibling(p), Red), P);
    PaintElems(Paint(t, Sibling(p), Red), P, Black);
    AtAppend(t4, P, [dX]);
    assert [dX][0] == dX && [dX][1..] == [];
  }

  /** DeleteCase6's precondition: a black brother whose far child is red. */
  ghost predicate DeleteCase6Pre(t: RBTree, p: Path, ph: int)
  {
    DeleteInv(t, p, ph) && p != [] &&
    ColorOf(At(t, Sibling(p)), ph) == Black && ColorOf(At(t, Far(p)), ph) == Red
  }

  /** DeleteCase5 around the brother `s`, with the subject on side `d`. */
  lemma DeleteCase5Local(s: RBTree, d: Dir, ph: int)
    requires !Absent(s, ph) && s.info == Black && Balanced(s, ph) && NoRedRed(s, ph)
    requires !Absent(Child(s, d), ph) && Child(s, d).info == Red
    requires ColorOf(Child(s, Other(d)), ph) == Black
    ensures var u := Rot(WithChild(s.(info := Red), d, Child(s, d).(info := Black)), Other(d));
      Balanced(u, ph) && BH(u, ph) == BH(s, ph) && NoRedRed(u, ph) && ColorOf(u, ph) == Black &&
      ColorOf(Child(u, Other(d)), ph) == Red && !Absent(u, ph)
  {
    var nr, fr := Child(s, d), Child(s, Other(d));
    var a, b := Child(nr, d), Child(nr, Other(d));
    var u := Rot(WithChild(s.(info := Red), d, nr.(info := Black)), Other(d));
    var sr := WithChild(s.(info := Red), d, b);
    assert u == WithChild(nr.(info := Black), Other(d), sr) by { if d == L { } else { } }
    assert NoRedRed(nr, ph) && NoRedRed(fr, ph) by { if d == L { } else { } }
    assert Balanced(nr, ph) && Balanced(fr, ph) && BH(nr, ph) == BH(fr, ph) by { if d == L { } else { } }
    assert Balanced(a, ph) && Balanced(b, ph) && BH(a, ph) == BH(b, ph) == BH(nr, ph) by { if d == L { } else { } }
    assert ColorOf(a, ph) == Black && ColorOf(b, ph) == Black && NoRedRed(a, ph) && NoRedRed(b, ph) by {
      if d == L { } else { }
    }
    assert Balanced(sr, ph) && BH(sr, ph) == BH(nr, ph) && NoRedRed(sr, ph) by { if d == L { } else { } }
    assert Balanced(u, ph) && BH(u, ph) == BH(s, ph) && NoRedRed(u, ph) by { if d == L { } else { } }
  }

  /** DeleteCase5: a black brother whose near child is red and far child black.  The
      brother turns red, that child black, and the brother rotates away from the
      subject: now the far child is red. */
  lemma DeleteCase5Step(t: RBTree, p: Path, ph: int)
    requires DeleteInv(t, p, ph) && p != []
    requires ColorOf(At(t, Sibling(p)), ph) == Black
    requires ColorOf(At(t, Near(p)), ph) == Red && ColorOf(At(t, Far(p)), ph) == Black
    ensures At(t, Sibling(p)).Node? && !Absent(At(t, Sibling(p)), ph) && !Absent(At(t, Near(p)), ph)
    ensures At(Paint(t, Sibling(p), Red), Near(p)) == At(t, Near(p))
    ensures var t2 := Paint(Paint(t, Sibling(p), Red), Near(p), Black);
      At(t2, Sibling(p)).Node? && Child(At(t2, Sibling(p)), Last(p)).Node? &&
      var t5 := RotAt(t2, Sibling(p), Other(Last(p)));
      DeleteCase6Pre(t5, p, ph) && At(t5, p) == At(t, p) &&
      Elems(t5) == Elems(t) && Count(t5) == Count(t) &&
      (Distinct(t) ==> Distinct(t5) && Ids(t5) == Ids(t))
  {
    DeleteLocal(t, p, ph);
    var P, dX := Parent(p), Last(p);
    var oX := Other(dX);
    var S := Sibling(p);
    var par := At(t, P);
    var x, s := Child(par, dX), Child(par, oX);
    var h := BH(x, ph);
    AvoidsChild(t, P, oX, ph);
    AvoidsReaches(t, S, ph);
    assert Near(p) == S + [dX];
    PaintPaintRot(t, S, Red, dX, Black, oX);
    var u := Rot(WithChild(s.(info := Red), dX, Child(s, dX).(info := Black)), oX);
    var t5 := Put(t, S, u);
    assert NoRedRed(s, ph) by { SplitNoRedRed(t, S, ph); }
    DeleteCase5Local(s, dX, ph);
    // in the whole tree
    SplitNoRedRed(t, S, ph);
    PlugNoRedRed(t, S, u, ph);
    DeleteInvSibling(t, p, u, ph);
    AtPut(t, S, u);
    assert At(t5, Far(p)) == Child(u, oX) by {
      assert Far(p) == S + [oX];
      AtAppend(t5, S, [oX]);
      assert [oX][0] == oX && [oX][1..] == [];
    }
  }

  /** Replacing the brother of the subject by a subtree of the same black
      height keeps DeleteInv, provided no red-red edge comes with it. */
  lemma DeleteInvSibling(t: RBTree, p: Path, u: RBTree, ph: int)
    requires DeleteInv(t, p, ph) && p != []
    requires Balanced(u, ph) && BH(u, ph) == BH(At(t, Sibling(p)), ph)
    requires NoRedRed(Put(t, Sibling(p), u), ph) && ColorOf(Put(t, Sibling(p), u), ph) == Black
    ensures DeleteInv(Put(t, Sibling(p), u), p, ph) && At(Put(t, Sibling(p), u), p) == At(t, p)
  {
    DeleteLocal(t, p, ph);
    var P, dX := Parent(p), Last(p);
    var oX := Other(dX);
    var par := At(t, P);
    var x := Child(par, dX);
    var h := BH(x, ph);
    var t5 := Put(t, Sibling(p), u);
    PutAppend(t, P, [oX], u);
    var par5 := WithChild(par, oX, u);
    assert Put(par, [oX], u) == par5 by {
      assert [oX][0] == oX && [oX][1..] == [];
    }
    assert t5 == Put(t, P, par5);
    AtPut(t, P, par5);
    CtxPut(t, P, par5, HeightPut(par, [dX], h + 1, ph), Black, ph);
    assert At(t5, p) == x by { AtAppend(t5, P, [dX]); }
    assert HeightPut(par5, [dX], h + 1, ph) == HeightPut(par, [dX], h + 1, ph) by {
      assert [dX][0] == dX && [dX][1..] == [];
    }
    assert CtxBal(par5, [dX], h + 1, ph) by {
      assert [dX][0] == dX && [dX][1..] == [];
    }
    assert Avoids(t5, p, ph) && CtxBal(t5, p, h + 1, ph) by {
      CtxSplit(t5, P, [dX], h + 1, Black, ph);
      assert [dX][0] == dX && [dX][1..] == [];
      assert Avoids(par5, [dX], ph);
    }
  }

  /** DeleteCase6 around the parent `par`, with the subject on side `d`. */
  lemma DeleteCase6Local(par: RBTree, d: Dir, ph: int)
    requires !Absent(par, ph) && NoRedRed(par, ph) && ColorOf(Child(par, d), ph) == Black
    requires Balanced(Child(par, d), ph) && Balanced(Child(par, Other(d)), ph)
    requires BH(Child(par, Other(d)), ph) == BH(Child(par, d), ph) + 1
    requires !Absent(Child(par, Other(d)), ph) && Child(par, Other(d)).info == Black
    requires !Absent(Child(Child(par, Other(d)), Other(d)), ph)
    requires Child(Child(par, Other(d)), Other(d)).info == Red
    ensures var s := Child(par, Other(d)); var f := Child(s, Other(d));
      var u3 := WithChild(par.(info := Black), Other(d),
                  WithChild(s.(info := par.info), Other(d), f.(info := Black)));
      Balanced(Rot(u3, d), ph) && NoRedRed(Rot(u3, d), ph) &&
      BH(Rot(u3, d), ph) == (if par.info == Black then 1 else 0) + BH(Child(par, d), ph) + 1 &&
      ColorOf(Rot(u3, d), ph) == par.info
  {
    var oX := Other(d);
    var x, s := Child(par, d), Child(par, oX);
    var nr, f := Child(s, d), Child(s, oX);
    var h := BH(x, ph);
    var u3 := WithChild(par.(info := Black), oX, WithChild(s.(info := par.info), oX, f.(info := Black)));
    var pr := WithChild(par.(info := Black), oX, nr);
    assert Rot(u3, d) == WithChild(WithChild(s.(info := par.info), oX, f.(info := Black)), d, pr) by {
      if d == L { } else { }
    }
    assert NoRedRed(x, ph) && NoRedRed(s, ph) by { if d == L { } else { } }
    assert NoRedRed(nr, ph) && NoRedRed(f, ph) by { if d == L { } else { } }
    assert Balanced(nr, ph) && Balanced(f, ph) && BH(nr, ph) == BH(f, ph) == h by { if d == L { } else { } }
    assert Balanced(f.left, ph) && Balanced(f.right, ph) && BH(f.left, ph) == BH(f.right, ph) == h;
    assert Balanced(pr, ph) && BH(pr, ph) == h + 1 && NoRedRed(pr, ph) by { if d == L { } else { } }
    assert Balanced(f.(info := Black), ph) && BH(f.(info := Black), ph) == h + 1 && NoRedRed(f.(info := Black), ph);
  }

  lemma PaintTwo(u: RBTree, d: Dir, e: Dir, c: Color)
    requires u.Node? && Child(u, d).Node? && Child(Child(u, d), e).Node?
    ensures At(u, [d, e]) == Child(Child(u, d), e)
    ensures Paint(u, [d, e], c) ==
            WithChild(u, d, WithChild(Child(u, d), e, Child(Child(u, d), e).(info := c)))
  {
    assert [d, e][0] == d && [d, e][1..] == [e];
    assert [e][0] == e && [e][1..] == [];
    assert At(u, [d, e]) == At(Child(u, d), [e]);
    assert At(Child(u, d), [e]) == At(Child(Child(u, d), e), []);
    var v := Child(Child(u, d), e).(info := c);
    assert Put(u, [d, e], v) == WithChild(u, d, Put(Child(u, d), [e], v));
    assert Put(Child(u, d), [e], v) == WithChild(Child(u, d), e, Put(Child(Child(u, d), e), [], v));
  }

  /** DeleteCase6: a black brother with a red far child.  The brother takes the
      parent's colour, the parent and that child turn black, and the parent rotates
      towards the subject.  The tree is a red-black tree again. */
  lemma DeleteCase6Done(t: RBTree, p: Path, ph: int)
    requires DeleteCase6Pre(t, p, ph)
    ensures At(t, Sibling(p)).Node? && At(t, Parent(p)).Node?
    ensures !Absent(At(t, Sibling(p)), ph) && !Absent(At(t, Far(p)), ph)
    ensures var t1 := Paint(t, Sibling(p), At(t, Parent(p)).info);
      At(t1, Parent(p)).Node? && At(t1, Parent(p)) == At(t, Parent(p)).(left := At(t1, Parent(p)).left, right := At(t1, Parent(p)).right) &&
      var t2 := Paint(t1, Parent(p), Black);
      At(t2, Far(p)) == At(t, Far(p)) && At(t2, Far(p)).Node? &&
      var t3 := Paint(t2, Far(p), Black);
      At(t3, Parent(p)).Node? && Child(At(t3, Parent(p)), Other(Last(p))).Node? &&
      Child(At(t3, Parent(p)), Other(Last(p))).id == At(t, Sibling(p)).id &&
      var t6 := RotAt(t3, Parent(p), Last(p));
      IsRB(t6, ph) && At(t6, Parent(p) + [Last(p), Last(p)]) == At(t, p) &&
      Elems(t6) == Elems(t) && Count(t6) == Count(t) &&
      (Distinct(t) ==> Distinct(t6) && Ids(t6) == Ids(t))
  {
    DeleteCase6Paints(t, p, ph);
    DeleteLocal(t, p, ph);
    var P, dX := Parent(p), Last(p);
    var par := At(t, P);
    var x := Child(par, dX);
    var u3 := Case6Paint(par, dX);
    var t3 := Put(t, P, u3);
    AtPut(t, P, u3);
    RotAtElemsOf(t3, P, dX);
    PutPut(t, P, u3, Rot(u3, dX));
    DeleteCase6Local(par, dX, ph);
    PlugRB(t, P, Rot(u3, dX), ph);
    AtPut(t, P, Rot(u3, dX));
    AtAppend(Put(t, P, Rot(u3, dX)), P, [dX, dX]);
    assert At(Rot(u3, dX), [dX, dX]) == x by {
      assert [dX, dX][0] == dX && [dX, dX][1..] == [dX];
      assert [dX][0] == dX && [dX][1..] == [];
      assert At(Rot(u3, dX), [dX, dX]) == At(Child(Rot(u3, dX), dX), [dX]);
      assert At(Child(Rot(u3, dX), dX), [dX]) == At(Child(Child(Rot(u3, dX), dX), dX), []);
      if dX == L { } else { }
    }
  }

  /** The subtree DeleteCase6 builds at the parent `par` before its rotation:
      the parent black, the brother in the parent's old colour and the far
      nephew black. */
  ghost function Case6Paint(par: RBTree, d: Dir): RBTree
    requires par.Node? && Child(par, Other(d)).Node? && Child(Child(par, Other(d)), Other(d)).Node?
  {
    var s := Child(par, Other(d));
    WithChild(par.(info := Black), Other(d), WithChild(s.(info := par.info), Other(d), Child(s, Other(d)).(info := Black)))
  }

  /** The three repaintings of DeleteCase6, as one replacement of the subtree at the parent. */
  lemma DeleteCase6Paints(t: RBTree, p: Path, ph: int)
    requires DeleteCase6Pre(t, p, ph)
    ensures At(t, Sibling(p)).Node? && At(t, Parent(p)).Node? && Reaches(t, Parent(p))
    ensures !Absent(At(t, Sibling(p)), ph) && !Absent(At(t, Far(p)), ph)
    ensures Child(At(t, Parent(p)), Other(Last(p))).Node? &&
      Child(Child(At(t, Parent(p)), Other(Last(p))), Other(Last(p))).Node?
    ensures var t1 := Paint(t, Sibling(p), At(t, Parent(p)).info);
      At(t1, Parent(p)).Node? && At(t1, Parent(p)) == At(t, Parent(p)).(left := At(t1, Parent(p)).left, right := At(t1, Parent(p)).right) &&
      var t2 := Paint(t1, Parent(p), Black);
      At(t2, Far(p)) == At(t, Far(p)) && At(t2, Far(p)).Node? &&
      var t3 := Paint(t2, Far(p), Black);
      t3 == Put(t, Parent(p), Case6Paint(At(t, Parent(p)), Last(p))) &&
      Elems(t3) == Elems(t) && Count(t3) == Count(t) &&
      (Distinct(t) ==> Distinct(t3) && Ids(t3) == Ids(t))
  {
    DeleteLocal(t, p, ph);
    var P, dX := Parent(p), Last(p);
    var oX := Other(dX);
    var S := Sibling(p);
    var par := At(t, P);
    var s := Child(par, oX);
    var f := Child(s, oX);
    var c := par.info;
    PaintFrom(t, P, [oX], c);
    PaintOne(par, oX, c);
    var u1 := WithChild(par, oX, s.(info := c));
    var t1 := Put(t, P, u1);
    AtPut(t, P, u1);
    AtNodeReaches(t, S);
    PaintElems(t, S, c);
    PaintOne(u1, oX, Black);
    var u2 := u1.(info := Black);
    PutPut(t, P, u1, u2);
    var t2 := Put(t, P, u2);
    AtPut(t, P, u2);
    PaintElems(t1, P, Black);
    assert Child(Child(u2, oX), oX) == f;
    assert At(u2, [oX, oX]) == f by {
      assert [oX, oX][0] == oX && [oX, oX][1..] == [oX];
      assert [oX][0] == oX && [oX][1..] == [];
      assert At(u2, [oX, oX]) == At(Child(u2, oX), [oX]);
      assert At(Child(u2, oX), [oX]) == At(f, []);
    }
    assert At(t2, Far(p)) == f by { AtAppend(t2, P, [oX, oX]); }
    AtNodeReaches(t2, Far(p));
    PaintFrom(t2, P, [oX, oX], Black);
    PaintTwo(u2, oX, oX, Black);
    var u3 := WithChild(u2, oX, WithChild(s.(info := c), oX, f.(info := Black)));
    PutPut(t, P, u2, u3);
    PaintElems(t2, Far(p), Black);
    assert u3 == Case6Paint(par, dX);
  }

  /** The subject's subtree holds the phantom, so the brother and the nephews,
      which lie outside it, read the same with or without the phantom. */
  lemma PhantomInside(t: RBTree, p: Path, ph: int)
    requires DeleteInv(t, p, ph) && p != [] && Distinct(t)
    requires ph == NIL || ph in Ids(At(t, p))
    ensures ph !in Ids(At(t, Sibling(p))) && ph != Id(At(t, Parent(p)))
    ensures ColorOf(At(t, Sibling(p)), ph) == ColorOf(At(t, Sibling(p)), NIL)
    ensures ColorOf(At(t, Near(p)), ph) == ColorOf(At(t, Near(p)), NIL)
    ensures ColorOf(At(t, Far(p)), ph) == ColorOf(At(t, Far(p)), NIL)
  {
    DeleteLocal(t, p, ph);
    SiblingDisjoint(t, p);
    var s := At(t, Sibling(p));
    assert Ids(Child(s, L)) <= Ids(s) && Ids(Child(s, R)) <= Ids(s);
    NoPhantom(s, ph);
    NoPhantom(At(t, Near(p)), ph);
    NoPhantom(At(t, Far(p)), ph);
  }

  /** A red leaf may be read as the phantom: dropping it changes no black height. */
  lemma RedLeafPhantom(t: RBTree, q: Path)
    requires IsRB(t, NIL) && Distinct(t) && At(t, q).Node?
    requires At(t, q).info == Red && At(t, q).left.Leaf? && At(t, q).right.Leaf?
    ensures IsRB(t, At(t, q).id)
  {
    var ph := At(t, q).id;
    AtNodeReaches(t, q);
    DistinctAvoids(t, q, ph);
    ReachesAvoidsNil(t, q);
    IdsAt(t, q);
    SplitBalanced(t, q, NIL);
    SplitNoRedRed(t, q, NIL);
    CtxNoPhantom(t, q, 0, Red, ph);
    CtxNoPhantom(t, q, 0, Black, ph);
    assert q != [] by { if q == [] { assert false; } }
    CtxNRRRedBlack(t, q, NIL);
    PlugBalanced(t, q, At(t, q), ph);
    PlugNoRedRed(t, q, At(t, q), ph);
    PutAt(t, q);
    CtxPut(t, q, At(t, q), 0, Black, ph);
  }

  /** Erase with a replacement node that has one child: the node is black, the
      child is red, and splicing the child in and painting it black keeps the
      red-black rules. */
  lemma SpliceRB(t: RBTree, q: Path)
    requires IsRB(t, NIL) && Reaches(t, q) && At(t, q).Node?
    requires At(t, q).left.Leaf? || At(t, q).right.Leaf?
    requires var x := At(t, q); (if x.left.Node? then x.left else x.right).Node?
    ensures var x := At(t, q); var c := if x.left.Node? then x.left else x.right;
      x.info == Black && c.info == Red &&
      IsRB(Put(t, q, c.(info := Black)), NIL)
  {
    var x := At(t, q);
    var c := if x.left.Node? then x.left else x.right;
    ReachesAvoidsNil(t, q);
    SplitBalanced(t, q, NIL);
    SplitNoRedRed(t, q, NIL);
    assert BH(c, NIL) == 0 by { if x.left.Node? { } else { } }
    assert c.info == Red;
    assert Balanced(c, NIL) && NoRedRed(c, NIL) by { if x.left.Node? { } else { } }
    assert x.info == Black by { if x.left.Node? { } else { } }
    var u := c.(info := Black);
    assert BH(u, NIL) == BH(x, NIL);
    PlugRB(t, q, u, NIL);
  }

  /** DeleteCase5 as OrderStatisticBST and RedBlackBST write it tests
      `brother->right->isBlack()` before `brother->left->isRed()` for a left
      subject (mirrored for a right one) without a null test: it reads a colour
      through a null pointer when the far nephew is absent, or when the far
      nephew is black and the near one absent. */
  ghost predicate Case5ReadsNull(t: RBTree, p: Path)
    requires p != []
  {
    At(t, Far(p)).Leaf? || (At(t, Far(p)).info == Black && At(t, Near(p)).Leaf?)
  }

  /** Wherever DeleteCase5 is entered (black brother, not both nephews black),
      it reads through a null pointer exactly when the far nephew is absent. */
  lemma Case5ReadsNullIff(t: RBTree, p: Path, ph: int)
    requires DeleteInv(t, p, ph) && p != []
    requires ColorOf(At(t, Sibling(p)), ph) == Black && !NephewsBlack(t, p, ph)
    ensures Case5ReadsNull(t, p) <==> At(t, Far(p)).Leaf?
  {
  }

  /** A red-black tree in which erasing key 1 reaches DeleteCase5 with an
      absent far nephew: the root 2 with the black children 1 and 4, and 3 red
      under 4, written out by hand; it is the tree inserting 2, 1, 4, 3 gives.
      The childless black 1 is the subject; its brother 4 is black (no case
      2), has a red child (no case 3), the parent is black (no case 4), and 4
      has no right child. */
  lemma Case5NullExample()
    ensures var t := Node(0, 2, Black, Node(1, 1, Black, Leaf, Leaf),
                                      Node(2, 4, Black, Node(3, 3, Red, Leaf, Leaf), Leaf));
      IsRB(t, NIL) && Ordered(t) && Distinct(t) && DeleteInv(t, [L], 1) &&
      ColorOf(At(t, Sibling([L])), 1) == Black && !NephewsBlack(t, [L], 1) && ColorOf(t, 1) == Black &&
      Case5ReadsNull(t, [L])
  {
    var t := Node(0, 2, Black, Node(1, 1, Black, Leaf, Leaf),
                              Node(2, 4, Black, Node(3, 3, Red, Leaf, Leaf), Leaf));
    assert Keys(t) == [1, 2, 3, 4];
    DeleteStart(t, [L]);
  }
}
