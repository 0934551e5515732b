/** Red-black invariants over ghost trees, and the facts that the insertion
    cases 1-5 and the deletion cases 1-6 of the three red-black trees rely on.

    The deletion fixup of the source runs while the black node that is about
    to be unlinked is still attached (Erase calls DeleteCase1 on it and only
    then deletes it).  Every predicate here therefore takes a `phantom` id:
    the node with that id is read as an absent child.  With `phantom == NIL`
    (no node has a negative id) the predicates are the usual ones. */
module RedBlack {
  import opened BinaryTrees

  datatype Color = Red | Black

  type RBTree = Tree<Color>

  /** Colour of a child as the fixup code reads it: absent (and the phantom) is black. */
  function ColorOf(t: RBTree, ph: int): Color
  {
    if t.Leaf? || t.id == ph then Black else t.info
  }

  predicate Absent(t: RBTree, ph: int) { t.Leaf? || t.id == ph }

  /** Black height, counted down the left spine (the invariant makes all paths agree). */
  function BH(t: RBTree, ph: int): nat
  {
    if Absent(t, ph) then 0 else (if t.info == Black then 1 else 0) + BH(t.left, ph)
  }

  /** Every path from a node down to an absent child crosses the same number of black nodes. */
  ghost predicate Balanced(t: RBTree, ph: int)
  {
    Absent(t, ph) ||
    (Balanced(t.left, ph) && Balanced(t.right, ph) && BH(t.left, ph) == BH(t.right, ph))
  }

  /** No red node has a red child. */
  ghost predicate NoRedRed(t: RBTree, ph: int)
  {
    Absent(t, ph) ||
    (NoRedRed(t.left, ph) && NoRedRed(t.right, ph) &&
     (t.info == Red ==> ColorOf(t.left, ph) == Black && ColorOf(t.right, ph) == Black))
  }

  /** The three colouring invariants: equal black heights, no red-red edge, black root. */
  ghost predicate IsRB(t: RBTree, ph: int)
  {
    Balanced(t, ph) && NoRedRed(t, ph) && ColorOf(t, ph) == Black
  }

  /** The path runs through present nodes only (its end may be the phantom or absent). */
  ghost predicate Avoids(t: RBTree, p: Path, ph: int)
    decreases |p|
  {
    p == [] || (!Absent(t, ph) && Avoids(Child(t, p[0]), p[1..], ph))
  }

  /** Black height of the whole tree once a subtree of black height `h` sits at `p`. */
  function HeightPut(t: RBTree, p: Path, h: nat, ph: int): nat
    decreases |p|
  {
    if p == [] then h
    else if Absent(t, ph) then 0
    else (if t.info == Black then 1 else 0) + HeightPut(Child(t, p[0]), p[1..], h, ph)
  }

  /** Everything off the path to `p` is balanced, assuming the subtree at `p` has black height `h`. */
  ghost predicate CtxBal(t: RBTree, p: Path, h: nat, ph: int)
    decreases |p|
  {
    p == [] ||
    (!Absent(t, ph) &&
     Balanced(Child(t, Other(p[0])), ph) &&
     BH(Child(t, Other(p[0])), ph) == HeightPut(Child(t, p[0]), p[1..], h, ph) &&
     CtxBal(Child(t, p[0]), p[1..], h, ph))
  }

  /** No red-red edge outside the subtree at `p`, assuming that subtree's root has colour `c`. */
  ghost predicate CtxNRR(t: RBTree, p: Path, c: Color, ph: int)
    decreases |p|
  {
    p == [] ||
    (!Absent(t, ph) &&
     NoRedRed(Child(t, Other(p[0])), ph) &&
     (t.info == Red ==>
        ColorOf(Child(t, Other(p[0])), ph) == Black &&
        (if |p| == 1 then c else ColorOf(Child(t, p[0]), ph)) == Black) &&
     CtxNRR(Child(t, p[0]), p[1..], c, ph))
  }

  /** Recolour the node at `p`. */
  function Paint(t: RBTree, p: Path, c: Color): RBTree
    requires At(t, p).Node?
  {
    Put(t, p, At(t, p).(info := c))
  }



  // ---------------------------------------------------------------------
  // Plugging a subtree into a context

  lemma AvoidsReaches(t: RBTree, p: Path, ph: int)
    requires Avoids(t, p, ph)
    ensures Reaches(t, p)
    decreases |p|
  {
    if p != [] { AvoidsReaches(Child(t, p[0]), p[1..], ph); }
  }

  lemma ReachesAvoidsNil(t: RBTree, p: Path)
    requires Reaches(t, p)
    ensures Avoids(t, p, NIL)
    decreases |p|
  {
    if p != [] { ReachesAvoidsNil(Child(t, p[0]), p[1..]); }
  }

  lemma PlugBalanced(t: RBTree, p: Path, u: RBTree, ph: int)
    requires Avoids(t, p, ph) && CtxBal(t, p, BH(u, ph), ph) && Balanced(u, ph)
    ensures Balanced(Put(t, p, u), ph)
    ensures BH(Put(t, p, u), ph) == HeightPut(t, p, BH(u, ph), ph)
    decreases |p|
  {
    if p != [] {
      PlugBalanced(Child(t, p[0]), p[1..], u, ph);
      if p[0] == L { } else { }
    }
  }

  lemma SplitBalanced(t: RBTree, p: Path, ph: int)
    requires Avoids(t, p, ph) && Balanced(t, ph)
    ensures Balanced(At(t, p), ph)
    ensures CtxBal(t, p, BH(At(t, p), ph), ph)
    ensures BH(t, ph) == HeightPut(t, p, BH(At(t, p), ph), ph)
    decreases |p|
  {
    if p != [] {
      SplitBalanced(Child(t, p[0]), p[1..], ph);
      if p[0] == L { } else { }
    }
  }

  lemma PlugNoRedRed(t: RBTree, p: Path, u: RBTree, ph: int)
    requires Avoids(t, p, ph) && CtxNRR(t, p, ColorOf(u, ph), ph) && NoRedRed(u, ph)
    ensures NoRedRed(Put(t, p, u), ph)
    ensures p != [] ==> ColorOf(Put(t, p, u), ph) == ColorOf(t, ph)
    decreases |p|
  {
    if p != [] {
      var c := Child(t, p[0]);
      PlugNoRedRed(c, p[1..], u, ph);
      if |p| > 1 { PutKeepsRoot(c, p[1..], u); }
      if p[0] == L { } else { }
    }
  }

  lemma SplitNoRedRed(t: RBTree, p: Path, ph: int)
    requires Avoids(t, p, ph) && NoRedRed(t, ph)
    ensures NoRedRed(At(t, p), ph)
    ensures CtxNRR(t, p, ColorOf(At(t, p), ph), ph)
    decreases |p|
  {
    if p != [] {
      SplitNoRedRed(Child(t, p[0]), p[1..], ph);
      if p[0] == L { } else { }
    }
  }

  /** The context predicates only look at what lies outside the subtree at `p`. */
  lemma CtxPut(t: RBTree, p: Path, u: RBTree, h: nat, c: Color, ph: int)
    requires Reaches(t, p)
    ensures Avoids(Put(t, p, u), p, ph) == Avoids(t, p, ph)
    ensures CtxBal(Put(t, p, u), p, h, ph) == CtxBal(t, p, h, ph)
    ensures HeightPut(Put(t, p, u), p, h, ph) == HeightPut(t, p, h, ph)
    ensures CtxNRR(Put(t, p, u), p, c, ph) == CtxNRR(t, p, c, ph)
    ensures p != [] ==> ColorOf(Put(t, p, u), ph) == ColorOf(t, ph)
    decreases |p|
  {
    if p != [] {
      var ch := Child(t, p[0]);
      CtxPut(ch, p[1..], u, h, c, ph);
      if |p| > 1 { PutKeepsRoot(ch, p[1..], u); }
      if p[0] == L { } else { }
    }
  }

  /** Cutting a context path in two at an intermediate node. */
  lemma CtxSplit(t: RBTree, p: Path, q: Path, h: nat, c: Color, ph: int)
    requires Avoids(t, p, ph) && q != []
    ensures Avoids(t, p + q, ph) == Avoids(At(t, p), q, ph)
    ensures HeightPut(t, p + q, h, ph) == HeightPut(t, p, HeightPut(At(t, p), q, h, ph), ph)
    ensures CtxBal(t, p + q, h, ph) ==
            (CtxBal(t, p, HeightPut(At(t, p), q, h, ph), ph) && CtxBal(At(t, p), q, h, ph))
    ensures CtxNRR(t, p + q, c, ph) ==
            (CtxNRR(t, p, ColorOf(At(t, p), ph), ph) && CtxNRR(At(t, p), q, c, ph))
    decreases |p|
  {
    if p == [] {
      assert p + q == q;
    } else {
      assert (p + q)[0] == p[0] && (p + q)[1..] == p[1..] + q;
      var ch := Child(t, p[0]);
      CtxSplit(ch, p[1..], q, h, c, ph);
      if |p| == 1 {
        assert p[1..] == [];
        assert At(t, p) == ch;
        assert p[1..] + q == q;
      }
    }
  }

  /** A red subtree at `p` is acceptable wherever a black one is, provided its parent is black. */
  lemma CtxNRRUnderBlack(t: RBTree, p: Path, ph: int)
    requires Avoids(t, p, ph) && p != [] && CtxNRR(t, p, Black, ph)
    requires ColorOf(At(t, Parent(p)), ph) == Black
    ensures CtxNRR(t, p, Red, ph)
  {
    var P := Parent(p);
    assert p == P + [Last(p)];
    AvoidsPrefix(t, p, ph);
    CtxSplit(t, P, [Last(p)], 0, Black, ph);
    CtxSplit(t, P, [Last(p)], 0, Red, ph);
  }

  /** Any colour is allowed where red is. */
  lemma CtxNRRRedBlack(t: RBTree, p: Path, ph: int)
    requires CtxNRR(t, p, Red, ph)
    ensures CtxNRR(t, p, Black, ph)
    decreases |p|
  {
    if p != [] { CtxNRRRedBlack(Child(t, p[0]), p[1..], ph); }
  }

  lemma AvoidsPrefix(t: RBTree, p: Path, ph: int)
    requires Avoids(t, p, ph) && p != []
    ensures Avoids(t, Parent(p), ph)
    ensures !Absent(At(t, Parent(p)), ph)
    ensures At(t, p) == Child(At(t, Parent(p)), Last(p))
    decreases |p|
  {
    if |p| == 1 {
      assert Parent(p) == [];
    } else {
      AvoidsPrefix(Child(t, p[0]), p[1..], ph);
      assert Parent(p[1..]) == Parent(p)[1..];
      assert Last(p[1..]) == Last(p);
    }
  }

  lemma AvoidsChild(t: RBTree, p: Path, d: Dir, ph: int)
    requires Avoids(t, p, ph) && !Absent(At(t, p), ph)
    ensures Avoids(t, p + [d], ph)
    ensures At(t, p + [d]) == Child(At(t, p), d)
    ensures Parent(p + [d]) == p && Last(p + [d]) == d
    decreases |p|
  {
    if p != [] {
      assert (p + [d])[0] == p[0] && (p + [d])[1..] == p[1..] + [d];
      AvoidsChild(Child(t, p[0]), p[1..], d, ph);
    }
  }

  // ---------------------------------------------------------------------
  // The phantom only matters where it is

  lemma NoPhantom(t: RBTree, ph: int)
    requires ph !in Ids(t)
    ensures BH(t, ph) == BH(t, NIL) && ColorOf(t, ph) == ColorOf(t, NIL)
    ensures Balanced(t, ph) == Balanced(t, NIL) && NoRedRed(t, ph) == NoRedRed(t, NIL)
  {
    if t.Node? { NoPhantom(t.left, ph); NoPhantom(t.right, ph); }
  }

  lemma CtxNoPhantom(t: RBTree, p: Path, h: nat, c: Color, ph: int)
    requires Reaches(t, p) && Distinct(t) && ph !in Ids(t) - Ids(At(t, p))
    ensures Avoids(t, p, ph) == Avoids(t, p, NIL)
    ensures HeightPut(t, p, h, ph) == HeightPut(t, p, h, NIL)
    ensures CtxBal(t, p, h, ph) == CtxBal(t, p, h, NIL)
    ensures CtxNRR(t, p, c, ph) == CtxNRR(t, p, c, NIL)
    decreases |p|
  {
    if p != [] {
      var ch := Child(t, p[0]);
      var o := Child(t, Other(p[0]));
      IdsAt(ch, p[1..]);
      assert At(t, p) == At(ch, p[1..]);
      assert Ids(o) !! Ids(ch) && t.id !in Ids(ch) by { if p[0] == L { } else { } }
      assert ph != t.id && ph !in Ids(o) by { if p[0] == L { } else { } }
      NoPhantom(o, ph);
      CtxNoPhantom(ch, p[1..], h, c, ph);
    }
  }

  // ---------------------------------------------------------------------
  // Repainting and rotating below a fixed point

  lemma PaintInside(t: RBTree, a: Path, u: RBTree, q: Path, c: Color)
    requires Reaches(t, a) && At(u, q).Node?
    ensures At(Put(t, a, u), a + q) == At(u, q)
    ensures Paint(Put(t, a, u), a + q, c) == Put(t, a, Paint(u, q, c))
  {
    AtPut(t, a, u);
    AtAppend(Put(t, a, u), a, q);
    PutAppend(Put(t, a, u), a, q, At(u, q).(info := c));
    PutPut(t, a, u, Paint(u, q, c));
  }

  lemma RotInside(t: RBTree, a: Path, u: RBTree, q: Path, d: Dir)
    requires Reaches(t, a) && At(u, q).Node? && Child(At(u, q), Other(d)).Node?
    ensures At(Put(t, a, u), a + q) == At(u, q)
    ensures RotAt(Put(t, a, u), a + q, d) == Put(t, a, RotAt(u, q, d))
  {
    AtPut(t, a, u);
    AtAppend(Put(t, a, u), a, q);
    PutAppend(Put(t, a, u), a, q, Rot(At(u, q), d));
    PutPut(t, a, u, RotAt(u, q, d));
  }

  /** Repainting and rotating keep the keys, the ids and the node count. */
  lemma PaintElems(t: RBTree, p: Path, c: Color)
    requires Reaches(t, p) && At(t, p).Node?
    ensures Elems(Paint(t, p, c)) == Elems(t) && Count(Paint(t, p, c)) == Count(t)
    ensures Distinct(t) ==> Distinct(Paint(t, p, c)) && Ids(Paint(t, p, c)) == Ids(t)
    ensures Reaches(Paint(t, p, c), p) && At(Paint(t, p, c), p) == At(t, p).(info := c)
  {
    var u := At(t, p).(info := c);
    ElemsPut(t, p, u);
    CountPut(t, p, u);
    AtPut(t, p, u);
    if Distinct(t) { DistinctAt(t, p); DistinctPut(t, p, u); }
  }



  // ---------------------------------------------------------------------
  // Insertion (InsertCase1-5)

  /** Between the insertion steps: the subtree at `p` is sound and has a red root,
      and the only edge that may be red-red is the one above it. */
  ghost predicate InsertInv(t: RBTree, p: Path)
  {
    Reaches(t, p) && At(t, p).Node? && At(t, p).info == Red &&
    Balanced(t, NIL) && NoRedRed(At(t, p), NIL) && CtxNRR(t, p, Black, NIL) &&
    (p == [] || ColorOf(t, NIL) == Black)
  }

  /** InsertNode hangs a red leaf where the search ended. */
  lemma InsertStart(t: RBTree, p: Path, n: RBTree)
    requires IsRB(t, NIL) && Reaches(t, p) && At(t, p).Leaf?
    requires n.Node? && n.info == Red && n.left.Leaf? && n.right.Leaf?
    ensures InsertInv(Put(t, p, n), p)
  {
    ReachesAvoidsNil(t, p);
    SplitBalanced(t, p, NIL);
    SplitNoRedRed(t, p, NIL);
    PlugBalanced(t, p, n, NIL);
    AtPut(t, p, n);
    CtxPut(t, p, n, 0, Black, NIL);
  }

  /** InsertCase1 at the root: blackening it restores every invariant. */
  lemma InsertCase1Done(t: RBTree)
    requires InsertInv(t, [])
    ensures IsRB(Paint(t, [], Black), NIL)
  {
  }

  /** InsertCase2: a black parent means nothing is left to repair. */
  lemma InsertCase2Done(t: RBTree, p: Path)
    requires InsertInv(t, p) && p != []
    requires ColorOf(At(t, Parent(p)), NIL) == Black
    ensures IsRB(t, NIL)
  {
    ReachesAvoidsNil(t, p);
    CtxNRRUnderBlack(t, p, NIL);
    PlugNoRedRed(t, p, At(t, p), NIL);
    PutAt(t, p);
  }

  /** A red parent is never the root, so the grandparent exists, and it is black. */
  lemma InsertGrand(t: RBTree, p: Path)
    requires InsertInv(t, p) && p != []
    requires ColorOf(At(t, Parent(p)), NIL) == Red
    ensures |p| >= 2
    ensures At(t, Parent(p)).Node? && At(t, Parent(Parent(p))).Node?
    ensures At(t, Parent(Parent(p))).info == Black
  {
    ReachesAvoidsNil(t, p);
    AvoidsPrefix(t, p, NIL);
    if |p| >= 2 {
      var P := Parent(p);
      var G := Parent(P);
      AvoidsPrefix(t, P, NIL);
      assert p == G + [Last(P), Last(p)];
      CtxSplit(t, G, [Last(P), Last(p)], 0, Black, NIL);
    }
  }

  /** The local picture around the grandparent during insertion. */
  lemma InsertLocal(t: RBTree, p: Path)
    requires InsertInv(t, p) && |p| >= 2
    ensures p == Parent(Parent(p)) + [Last(Parent(p)), Last(p)]
    ensures Parent(p) == Parent(Parent(p)) + [Last(Parent(p))]
    ensures Sibling(Parent(p)) == Parent(Parent(p)) + [Other(Last(Parent(p)))]
    ensures Reaches(t, Parent(Parent(p))) && At(t, Parent(Parent(p))).Node?
    ensures Child(At(t, Parent(Parent(p))), Last(Parent(p))).Node?
    ensures At(t, Parent(p)) == Child(At(t, Parent(Parent(p))), Last(Parent(p)))
    ensures At(t, p) == Child(At(t, Parent(p)), Last(p))
    ensures At(t, Sibling(Parent(p))) == Child(At(t, Parent(Parent(p))), Other(Last(Parent(p))))
    ensures Balanced(At(t, Parent(Parent(p))), NIL)
    ensures CtxBal(t, Parent(Parent(p)), BH(At(t, Parent(Parent(p))), NIL), NIL)
    ensures CtxNRR(t, Parent(Parent(p)), ColorOf(At(t, Parent(Parent(p))), NIL), NIL)
    ensures CtxNRR(At(t, Parent(Parent(p))), [Last(Parent(p)), Last(p)], Black, NIL)
    ensures Parent(Parent(p)) == [] || ColorOf(t, NIL) == Black
  {
    var P := Parent(p);
    var G := Parent(P);
    var dP := Last(P);
    var dN := Last(p);
    assert p == G + [dP, dN] && P == G + [dP];
    ReachesAvoidsNil(t, p);
    AvoidsPrefix(t, p, NIL);
    AvoidsPrefix(t, P, NIL);
    AvoidsReaches(t, G, NIL);
    AtAppend(t, G, [dP]);
    AtAppend(t, G, [Other(dP)]);
    SplitBalanced(t, G, NIL);
    CtxSplit(t, G, [dP, dN], 0, Black, NIL);
  }

  lemma PaintOne(u: RBTree, d: Dir, c: Color)
    requires u.Node? && Child(u, d).Node?
    ensures Paint(u, [d], c) == WithChild(u, d, Child(u, d).(info := c))
    ensures Paint(u, [], c) == u.(info := c)
  {
    assert [d][0] == d && [d][1..] == [];
    assert At(u, [d]) == Child(u, d);
    var v := Child(u, d).(info := c);
    assert Put(u, [d], v) == WithChild(u, d, Put(Child(u, d), [], v));
  }

  /** What the context predicate says about the two levels below the grandparent. */
  lemma CtxNRRTwo(g: RBTree, d: Dir, e: Dir, c: Color, ph: int)
    requires CtxNRR(g, [d, e], c, ph)
    ensures !Absent(g, ph) && !Absent(Child(g, d), ph)
    ensures NoRedRed(Child(g, Other(d)), ph)
    ensures NoRedRed(Child(Child(g, d), Other(e)), ph)
    ensures g.info == Red ==> ColorOf(Child(g, Other(d)), ph) == Black && ColorOf(Child(g, d), ph) == Black
    ensures Child(g, d).info == Red ==> ColorOf(Child(Child(g, d), Other(e)), ph) == Black && c == Black
  {
    assert [d, e][0] == d && [d, e][1..] == [e];
    assert [e][0] == e && [e][1..] == [];
  }

  lemma PaintFrom(t: RBTree, a: Path, q: Path, c: Color)
    requires Reaches(t, a) && At(At(t, a), q).Node?
    ensures At(t, a + q) == At(At(t, a), q)
    ensures Paint(t, a + q, c) == Put(t, a, Paint(At(t, a), q, c))
  {
    PutAt(t, a);
    PaintInside(t, a, At(t, a), q, c);
  }

  lemma RotFrom(t: RBTree, a: Path, q: Path, d: Dir)
    requires Reaches(t, a) && At(At(t, a), q).Node? && Child(At(At(t, a), q), Other(d)).Node?
    ensures At(t, a + q) == At(At(t, a), q)
    ensures RotAt(t, a + q, d) == Put(t, a, RotAt(At(t, a), q, d))
  {
    PutAt(t, a);
    RotInside(t, a, At(t, a), q, d);
  }

  /** Replacing the subtree at `a` by `u` restores the invariants when `u` is sound,
      keeps the black height and fits the colour demanded there. */
  lemma PlugRB(t: RBTree, a: Path, u: RBTree, ph: int)
    requires Avoids(t, a, ph) && Balanced(u, ph)
    requires CtxBal(t, a, BH(u, ph), ph)
    requires NoRedRed(u, ph) && CtxNRR(t, a, ColorOf(u, ph), ph)
    requires if a == [] then ColorOf(u, ph) == Black else ColorOf(t, ph) == Black
    ensures IsRB(Put(t, a, u), ph)
  {
    PlugBalanced(t, a, u, ph);
    PlugNoRedRed(t, a, u, ph);
  }

  /** InsertCase3 around the grandparent `g`: with a red parent and a red uncle,
      blackening both and reddening `g` keeps the black height and removes the red pair. */
  lemma InsertCase3Local(g: RBTree, dP: Dir, dN: Dir)
    requires g.Node? && Balanced(g, NIL) && CtxNRR(g, [dP, dN], Black, NIL)
    requires Child(g, dP).Node? && Child(g, dP).info == Red
    requires Child(g, Other(dP)).Node? && Child(g, Other(dP)).info == Red
    requires NoRedRed(Child(Child(g, dP), dN), NIL)
    ensures var g3 := Node(g.id, g.key, Red, g.left.(info := Black), g.right.(info := Black));
      Balanced(g3, NIL) && BH(g3, NIL) == BH(g, NIL) && NoRedRed(g3, NIL)
  {
    CtxNRRTwo(g, dP, dN, Black, NIL);
    var par, u := Child(g, dP), Child(g, Other(dP));
    assert NoRedRed(par.(info := Black), NIL) && NoRedRed(u.(info := Black), NIL);
    assert Balanced(par, NIL) && Balanced(u, NIL) && BH(par, NIL) == BH(u, NIL) by {
      if dP == L { } else { }
    }
    assert Balanced(par.(info := Black), NIL) && Balanced(u.(info := Black), NIL);
    assert BH(par.(info := Black), NIL) == BH(par, NIL) + 1 == BH(u.(info := Black), NIL);
    if dP == L { } else { }
  }

  /** InsertCase3: a red uncle.  Parent and uncle turn black and the grandparent red;
      the repair continues at the grandparent. */
  lemma InsertCase3Step(t: RBTree, p: Path)
    requires InsertInv(t, p) && |p| >= 2
    requires ColorOf(At(t, Parent(p)), NIL) == Red
    requires ColorOf(At(t, Sibling(Parent(p))), NIL) == Red
    ensures At(Paint(t, Parent(p), Black), Sibling(Parent(p))) == At(t, Sibling(Parent(p)))
    ensures At(Paint(Paint(t, Parent(p), Black), Sibling(Parent(p)), Black), Parent(Parent(p))).Node?
    ensures At(t, Parent(Parent(p))).Node?
    ensures At(Paint(Paint(t, Parent(p), Black), Sibling(Parent(p)), Black), Parent(Parent(p))).id
            == At(t, Parent(Parent(p))).id
    ensures var t3 := Paint(Paint(Paint(t, Parent(p), Black), Sibling(Parent(p)), Black), Parent(Parent(p)), Red);
      InsertInv(t3, Parent(Parent(p))) && Elems(t3) == Elems(t) && Count(t3) == Count(t) &&
      (Distinct(t) ==> Distinct(t3) && Ids(t3) == Ids(t))
  {
    InsertLocal(t, p);
    var P, G := Parent(p), Parent(Parent(p));
    var dP, dN := Last(P), Last(p);
    var g := At(t, G);
    var g1 := Paint(g, [dP], Black);
    var g2 := Paint(g1, [Other(dP)], Black);
    var g3 := Paint(g2, [], Red);
    PaintFrom(t, G, [dP], Black);
    var t1 := Put(t, G, g1);
    PaintInside(t, G, g1, [Other(dP)], Black);
    var t2 := Put(t, G, g2);
    PaintInside(t, G, g2, [], Red);
    assert G + [] == G;
    var t3 := Put(t, G, g3);
    assert Paint(t2, G, Red) == t3;
    AtPut(t, G, g1);
    AtPut(t, G, g2);
    AtPut(t, G, g3);
    assert At(t1, Sibling(P)) == At(t, Sibling(P)) by { AtAppend(t1, G, [Other(dP)]); }
    // the local picture
    PaintOne(g, dP, Black);
    PaintOne(g1, Other(dP), Black);
    PaintOne(g2, dP, Red);
    if dP == L {
      assert g3 == Node(g.id, g.key, Red, g.left.(info := Black), g.right.(info := Black));
    } else {
      assert g3 == Node(g.id, g.key, Red, g.left.(info := Black), g.right.(info := Black));
    }
    InsertCase3Local(g, dP, dN);
    ReachesAvoidsNil(t, G);
    CtxPut(t, G, g3, BH(g, NIL), Black, NIL);
    PlugBalanced(t, G, g3, NIL);
    AtNodeReaches(t, P);
    PaintElems(t, P, Black);
    AtNodeReaches(t1, Sibling(P));
    PaintElems(Paint(t, P, Black), Sibling(P), Black);
    PaintElems(t2, G, Red);
  }

  /** InsertCase5's precondition: red parent, black (or absent) uncle, and the new
      node on the same side of its parent as the parent is of the grandparent. */
  ghost predicate InsertCase5Pre(t: RBTree, p: Path)
  {
    InsertInv(t, p) && |p| >= 2 &&
    ColorOf(At(t, Parent(p)), NIL) == Red &&
    ColorOf(At(t, Sibling(Parent(p))), NIL) == Black &&
    Last(p) == Last(Parent(p))
  }

  lemma RotOne(u: RBTree, d: Dir, e: Dir)
    requires u.Node? && Child(u, d).Node? && Child(Child(u, d), Other(e)).Node?
    ensures RotAt(u, [d], e) == WithChild(u, d, Rot(Child(u, d), e))
  {
    assert [d][0] == d && [d][1..] == [];
    assert At(u, [d]) == Child(u, d);
    var v := Rot(Child(u, d), e);
    assert Put(u, [d], v) == WithChild(u, d, Put(Child(u, d), [], v));
  }

  /** InsertCase4 around the grandparent `g`, with the parent on side `d`. */
  lemma InsertCase4Local(g: RBTree, d: Dir)
    requires g.Node? && g.info == Black && Balanced(g, NIL)
    requires CtxNRR(g, [d, Other(d)], Black, NIL)
    requires Child(g, d).Node? && Child(g, d).info == Red
    requires Child(Child(g, d), Other(d)).Node? && Child(Child(g, d), Other(d)).info == Red
    requires NoRedRed(Child(Child(g, d), Other(d)), NIL)
    ensures var g4 := WithChild(g, d, Rot(Child(g, d), d));
      Balanced(g4, NIL) && BH(g4, NIL) == BH(g, NIL) &&
      CtxNRR(g4, [d, d], Black, NIL) &&
      At(g4, [d, d]).Node? && At(g4, [d, d]).info == Red && At(g4, [d, d]).id == Child(g, d).id &&
      NoRedRed(At(g4, [d, d]), NIL) && ColorOf(Child(g4, d), NIL) == Red
  {
    var dN := Other(d);
    CtxNRRTwo(g, d, dN, Black, NIL);
    var par, u := Child(g, d), Child(g, Other(d));
    var n := Child(par, dN);
    var g4 := WithChild(g, d, Rot(par, d));
    var a, b, c := Child(par, d), Child(n, d), Child(n, dN);
    var pr := WithChild(par, dN, b);
    assert Rot(par, d) == WithChild(n, d, pr) by { if d == L { } else { } }
    assert ColorOf(a, NIL) == Black && NoRedRed(a, NIL);
    assert ColorOf(b, NIL) == Black && NoRedRed(b, NIL) && ColorOf(c, NIL) == Black && NoRedRed(c, NIL) by {
      if d == L { } else { }
    }
    assert NoRedRed(pr, NIL) by { if d == L { } else { } }
    assert Balanced(par, NIL) && Balanced(u, NIL) && BH(par, NIL) == BH(u, NIL) by { if d == L { } else { } }
    assert Balanced(a, NIL) && Balanced(n, NIL) && BH(a, NIL) == BH(n, NIL) by { if d == L { } else { } }
    assert Balanced(b, NIL) && Balanced(c, NIL) && BH(b, NIL) == BH(c, NIL) == BH(n, NIL) by { if d == L { } else { } }
    assert Balanced(pr, NIL) && BH(pr, NIL) == BH(par, NIL) by { if d == L { } else { } }
    assert Balanced(Rot(par, d), NIL) && BH(Rot(par, d), NIL) == BH(par, NIL) by { if d == L { } else { } }
    assert Balanced(g4, NIL) && BH(g4, NIL) == BH(g, NIL) by { if d == L { } else { } }
    assert [d, d][0] == d && [d, d][1..] == [d];
    assert [d][0] == d && [d][1..] == [];
    assert CtxNRR(g4, [d, d], Black, NIL);
    assert At(g4, [d, d]) == At(Rot(par, d), [d]) == pr;
  }

  /** InsertCase4: the new node is an inner grandchild; rotating the parent toward
      the grandparent's side makes the old parent an outer grandchild. */
  lemma InsertCase4Step(t: RBTree, p: Path)
    requires InsertInv(t, p) && |p| >= 2
    requires ColorOf(At(t, Parent(p)), NIL) == Red
    requires ColorOf(At(t, Sibling(Parent(p))), NIL) == Black
    requires Last(p) != Last(Parent(p))
    ensures At(t, Parent(p)).Node? && Child(At(t, Parent(p)), Other(Last(Parent(p)))).Node?
    ensures var t4 := RotAt(t, Parent(p), Last(Parent(p)));
      var q := Parent(Parent(p)) + [Last(Parent(p)), Last(Parent(p))];
      InsertCase5Pre(t4, q) && At(t4, q).id == At(t, Parent(p)).id &&
      Elems(t4) == Elems(t) && Count(t4) == Count(t) &&
      (Distinct(t) ==> Distinct(t4) && Ids(t4) == Ids(t))
  {
    InsertLocal(t, p);
    var P, G := Parent(p), Parent(Parent(p));
    var dP, dN := Last(P), Last(p);
    assert dN == Other(dP) by { if dP == L { } else { } }
    var g := At(t, G);
    var par, u := Child(g, dP), Child(g, Other(dP));
    assert Child(par, dN) == At(t, p);
    InsertCase4Local(g, dP);
    var g4 := WithChild(g, dP, Rot(par, dP));
    RotOne(g, dP, dP);
    RotFrom(t, G, [dP], dP);
    var t4 := Put(t, G, g4);
    assert RotAt(t, P, dP) == t4;
    var q := G + [dP, dP];
    ReachesAvoidsNil(t, G);
    CtxPut(t, G, g4, BH(g, NIL), Black, NIL);
    PlugBalanced(t, G, g4, NIL);
    AtPut(t, G, g4);
    assert At(t4, q) == At(g4, [dP, dP]) && At(t4, G + [dP]) == Child(g4, dP) && At(t4, G + [Other(dP)]) == u by {
      AtAppend(t4, G, [dP, dP]);
      AtAppend(t4, G, [dP]);
      AtAppend(t4, G, [Other(dP)]);
    }
    assert Parent(q) == G + [dP] && Last(q) == dP && Parent(Parent(q)) == G && Last(Parent(q)) == dP;
    AvoidsReaches(t4, G, NIL);
    ReachesAvoidsNil(t4, G);
    CtxSplit(t4, G, [dP, dP], 0, Black, NIL);
    AtNodeReaches(t4, q);
    AtNodeReaches(t, P);
    RotAtElemsOf(t, P, dP);
  }

  /** InsertCase5 around the grandparent `g`: the parent, painted black, rotated
      above the reddened grandparent, gives a sound subtree of the same black height. */
  lemma InsertCase5Local(g: RBTree, d: Dir)
    requires g.Node? && Balanced(g, NIL) && CtxNRR(g, [d, d], Black, NIL)
    requires Child(g, d).Node? && Child(g, d).info == Red
    requires ColorOf(Child(g, Other(d)), NIL) == Black
    requires Child(Child(g, d), d).Node? && Child(Child(g, d), d).info == Red
    requires NoRedRed(Child(Child(g, d), d), NIL)
    ensures var par := Child(g, d);
      var g5 := WithChild(par.(info := Black), Other(d), WithChild(g.(info := Red), d, Child(par, Other(d))));
      Balanced(g5, NIL) && BH(g5, NIL) == BH(g, NIL) && NoRedRed(g5, NIL) && g5.info == Black
  {
    CtxNRRTwo(g, d, d, Black, NIL);
    var par, u := Child(g, d), Child(g, Other(d));
    var n, s := Child(par, d), Child(par, Other(d));
    var gr := WithChild(g.(info := Red), d, s);
    assert Balanced(par, NIL) && Balanced(u, NIL) && BH(par, NIL) == BH(u, NIL) by { if d == L { } else { } }
    assert Balanced(n, NIL) && Balanced(s, NIL) && BH(n, NIL) == BH(s, NIL) == BH(par, NIL) by { if d == L { } else { } }
    assert Balanced(gr, NIL) && BH(gr, NIL) == BH(par, NIL) && NoRedRed(gr, NIL) by { if d == L { } else { } }
    if d == L { } else { }
  }

  /** The tree after InsertCase5: the parent turns black, the grandparent red,
      and the grandparent rotates away from `p`. */
  ghost function Case5Turned(t: RBTree, p: Path): RBTree
    requires InsertCase5Pre(t, p)
  {
    InsertCase5Done(t, p);
    var P, G := Parent(p), Parent(Parent(p));
    RotAt(Paint(Paint(t, P, Black), G, Red), G, Other(Last(p)))
  }

  /** InsertCase5: an outer grandchild under a red parent and a black uncle.  The
      parent turns black, the grandparent red, and the grandparent rotates away
      from the new node: every invariant holds again. */
  lemma InsertCase5Done(t: RBTree, p: Path)
    requires InsertCase5Pre(t, p)
    ensures At(t, Parent(p)).Node? && At(t, Parent(Parent(p))).Node? && At(Paint(t, Parent(p), Black), Parent(Parent(p))).Node?
    ensures At(Paint(t, Parent(p), Black), Parent(Parent(p))).id == At(t, Parent(Parent(p))).id
    ensures var t2 := Paint(Paint(t, Parent(p), Black), Parent(Parent(p)), Red);
      At(t2, Parent(Parent(p))).Node? && Child(At(t2, Parent(Parent(p))), Last(p)).Node? &&
      var t5 := RotAt(t2, Parent(Parent(p)), Other(Last(p)));
      IsRB(t5, NIL) && Elems(t5) == Elems(t) && Count(t5) == Count(t) &&
      (Distinct(t) ==> Distinct(t5) && Ids(t5) == Ids(t))
  {
    InsertLocal(t, p);
    var P, G := Parent(p), Parent(Parent(p));
    var dP := Last(P);
    var g := At(t, G);
    CtxNRRTwo(g, dP, dP, Black, NIL);
    var par, u := Child(g, dP), Child(g, Other(dP));
    var n := Child(par, dP);
    var s := Child(par, Other(dP));
    var g1 := Paint(g, [dP], Black);
    var g2 := Paint(g1, [], Red);
    PaintOne(g, dP, Black);
    PaintOne(g1, dP, Red);
    PaintFrom(t, G, [dP], Black);
    PaintInside(t, G, g1, [], Red);
    assert G + [] == G;
    var t2 := Put(t, G, g2);
    AtPut(t, G, g1);
    AtPut(t, G, g2);
    RotFrom(t2, G, [], Other(dP));
    var g5 := Rot(g2, Other(dP));
    assert RotAt(g2, [], Other(dP)) == g5;
    PutPut(t, G, g2, g5);
    var t5 := Put(t, G, g5);
    assert RotAt(t2, G, Other(dP)) == t5;
    // the local picture
    var gr := WithChild(g.(info := Red), dP, s);
    assert g5 == WithChild(par.(info := Black), Other(dP), gr) by { if dP == L { } else { } }
    assert n == At(t, p) && n.info == Red && NoRedRed(n, NIL);
    InsertCase5Local(g, dP);
    ReachesAvoidsNil(t, G);
    PlugRB(t, G, g5, NIL);
    AtNodeReaches(t, P);
    PaintElems(t, P, Black);
    PaintElems(Paint(t, P, Black), G, Red);
    RotAtElemsOf(t2, G, Other(dP));
  }

  // ---------------------------------------------------------------------
  // Changes that leave the colouring alone

  /** Repainting one node keeps ids, keys and shape. */
  lemma PaintShape(t: RBTree, p: Path, c: Color)
    requires At(t, p).Node?
    ensures SameShape(Paint(t, p, c), t)
  {
    ShapeRelabel(t, p, c);
  }

  /** A new key (MoveTo) changes none of the colour invariants. */
  lemma RekeyRB(t: RBTree, p: Path, k: int, ph: int)
    requires At(t, p).Node?
    ensures var t' := Put(t, p, At(t, p).(key := k));
      Balanced(t', ph) == Balanced(t, ph) && NoRedRed(t', ph) == NoRedRed(t, ph) &&
      BH(t', ph) == BH(t, ph) && ColorOf(t', ph) == ColorOf(t, ph)
    decreases |p|
  {
    if p != [] {
      RekeyRB(Child(t, p[0]), p[1..], k, ph);
    }
  }
}
