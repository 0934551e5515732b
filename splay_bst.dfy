/** The SplayBST class: nodes in an arena, the pointer updates of Rotate,
    Splay, Find, Split, Merge, Insert and Erase performed in the source's
    order, each proved to realise the tree the Splay module describes. */
module SplayBSTs {
  import opened BinaryTrees
  import opened Arena
  import opened Splay

  /** A link that is null or names a cell of an arena of `n` cells. */
  predicate Ok(v: int, n: int) { v == NIL || 0 <= v < n }

  /** Cells outside `ids` are the same in `s'` as in `s`, and none were added. */
  ghost predicate Keeps<A>(s: seq<Slot<A>>, s': seq<Slot<A>>, ids: set<nat>)
  {
    |s'| == |s| && forall i :: 0 <= i < |s| && i !in ids ==> s'[i] == s[i]
  }

  // ---------------------------------------------------------------------
  // The cell updates

  /** SetParent(child, parent). */
  function SetParentCells<A>(s: seq<Slot<A>>, c: int, par: int): (r: seq<Slot<A>>)
    requires Ok(c, |s|)
    ensures |r| == |s|
  {
    if c == NIL then s else s[c := s[c].(parent := par)]
  }

  lemma SetParentAt<A>(s: seq<Slot<A>>, c: int, par: int, i: int)
    requires Ok(c, |s|) && 0 <= i < |s|
    ensures SetParentCells(s, c, par)[i] == if i == c then s[i].(parent := par) else s[i]
  {
  }

  /** KeepParent(node): both children of `n` point back to it. */
  function KeepParentCells<A>(s: seq<Slot<A>>, n: int): (r: seq<Slot<A>>)
    requires 0 <= n < |s| && Ok(s[n].left, |s|) && Ok(s[n].right, |s|)
    ensures |r| == |s|
  {
    var s1 := SetParentCells(s, s[n].left, n);
    SetParentCells(s1, s1[n].right, n)
  }

  lemma KeepParentAt<A>(s: seq<Slot<A>>, n: int, i: int)
    requires 0 <= n < |s| && Ok(s[n].left, |s|) && Ok(s[n].right, |s|) && 0 <= i < |s|
    ensures KeepParentCells(s, n)[i] ==
      if i == s[n].left || i == s[n].right then s[i].(parent := n) else s[i]
  {
    var s1 := SetParentCells(s, s[n].left, n);
    SetParentAt(s, s[n].left, n, i);
    SetParentAt(s, s[n].left, n, n);
    SetParentAt(s1, s1[n].right, n, i);
  }

  /** The grandparent's link to `x` now names `y`. */
  function RelinkCells<A>(s: seq<Slot<A>>, g: int, x: int, y: int): (r: seq<Slot<A>>)
    requires Ok(g, |s|)
    ensures |r| == |s|
    ensures 0 <= x < |s| && g != x ==> r[x] == s[x]
    ensures 0 <= y < |s| && g != y ==> r[y] == s[y]
  {
    if g == NIL then s
    else if s[g].left == x then s[g := s[g].(left := y)]
    else s[g := s[g].(right := y)]
  }

  lemma RelinkAt<A>(s: seq<Slot<A>>, g: int, x: int, y: int, i: int)
    requires Ok(g, |s|) && 0 <= i < |s|
    ensures RelinkCells(s, g, x, y)[i] ==
      if i == g then (if s[g].left == x then s[g].(left := y) else s[g].(right := y)) else s[i]
  {
  }

  /** The child's inner subtree moves over to the parent, the parent goes under
      the child. */
  function TurnCells<A>(s: seq<Slot<A>>, x: int, y: int): (r: seq<Slot<A>>)
    requires 0 <= x < |s| && 0 <= y < |s| && x != y
    requires Ok(s[x].left, |s|) && Ok(s[x].right, |s|) && Ok(s[y].left, |s|) && Ok(s[y].right, |s|)
    ensures |r| == |s|
    ensures Ok(r[x].left, |s|) && Ok(r[x].right, |s|) && Ok(r[y].left, |s|) && Ok(r[y].right, |s|)
  {
    if s[x].left == y then s[x := s[x].(left := s[y].right)][y := s[y].(right := x)]
    else s[x := s[x].(right := s[y].left)][y := s[y].(left := x)]
  }

  lemma TurnAt<A>(s: seq<Slot<A>>, x: int, y: int, e: Dir, i: int)
    requires 0 <= x < |s| && 0 <= y < |s| && x != y && Link(s[x], e) == y && Link(s[x], Other(e)) != y
    requires Ok(s[x].left, |s|) && Ok(s[x].right, |s|) && Ok(s[y].left, |s|) && Ok(s[y].right, |s|)
    requires 0 <= i < |s|
    ensures TurnCells(s, x, y)[i] ==
      if i == x then SetLink(s[x], e, Link(s[y], Other(e)))
      else if i == y then SetLink(s[y], Other(e), x)
      else s[i]
  {
    if e == L { } else { }
  }

  /** The links Rotate(x, y) follows are null or name cells, `y` is a child of `x`. */
  predicate RotatePre<A>(s: seq<Slot<A>>, x: int, y: int)
  {
    0 <= x < |s| && 0 <= y < |s| && x != y && (s[x].left == y || s[x].right == y) &&
    Ok(s[x].parent, |s|) && s[x].parent != x && s[x].parent != y &&
    Ok(s[x].left, |s|) && Ok(s[x].right, |s|) && Ok(s[y].left, |s|) && Ok(s[y].right, |s|)
  }

  /** Rotate(parent, child): the grandparent's link (or the root) moves to the
      child, the child's inner subtree moves over to the parent, the parent goes
      under the child, KeepParent on both, and the child takes the grandparent. */
  function RotateStep<A>(s: seq<Slot<A>>, x: int, y: int): (r: seq<Slot<A>>)
    requires RotatePre(s, x, y)
    ensures |r| == |s|
  {
    var g := s[x].parent;
    var s2 := TurnCells(RelinkCells(s, g, x, y), x, y);
    var s3 := KeepParentCells(s2, y);
    KeepParentAt(s2, y, x);
    var s4 := KeepParentCells(s3, x);
    s4[y := s4[y].(parent := g)]
  }

  /** What Rotate(x, y) needs of the arena when `y` hangs on side `e` of `x`:
      the child's outer child `a`, inner child `b`, the parent's other child `c`
      and the grandparent `g` are null or distinct cells, and `a`, `c` already
      point back to `y` and `x`. */
  ghost predicate StepReady<A>(s: seq<Slot<A>>, x: int, y: int, e: Dir)
  {
    0 <= x < |s| && 0 <= y < |s| && x != y && Link(s[x], e) == y && s[y].parent == x &&
    var a, b, c, g := Link(s[y], e), Link(s[y], Other(e)), Link(s[x], Other(e)), s[x].parent;
    Ok(a, |s|) && Ok(b, |s|) && Ok(c, |s|) && Ok(g, |s|) &&
    (g != NIL ==> g != x && g != y) &&
    (a != NIL ==> a != x && a != y && a != g && a != b && s[a].parent == y) &&
    (b != NIL ==> b != x && b != y && b != g) &&
    (c != NIL ==> c != x && c != y && c != g && c != b && s[c].parent == x)
  }

  /** The first half of Rotate(x, y): the grandparent and the turn of the two nodes. */
  lemma TurnStage<A>(s: seq<Slot<A>>, x: int, y: int, e: Dir)
    requires StepReady(s, x, y, e)
    ensures RotatePre(s, x, y)
    ensures var b, g := Link(s[y], Other(e)), s[x].parent;
      var s2 := TurnCells(RelinkCells(s, g, x, y), x, y);
      |s2| == |s| && s2[x] == SetLink(s[x], e, b) && s2[y] == SetLink(s[y], Other(e), x) &&
      (g != NIL ==> s2[g] == if s[g].left == x then s[g].(left := y) else s[g].(right := y)) &&
      forall i :: 0 <= i < |s| && i != x && i != y && i != g ==> s2[i] == s[i]
  {
    var g := s[x].parent;
    assert RotatePre(s, x, y) by { if e == L { } else { } }
    var s1 := RelinkCells(s, g, x, y);
    RelinkAt(s, g, x, y, x);
    RelinkAt(s, g, x, y, y);
    TurnAt(s1, x, y, e, x);
    TurnAt(s1, x, y, e, y);
    if g != NIL {
      RelinkAt(s, g, x, y, g);
      TurnAt(s1, x, y, e, g);
    }
    forall i | 0 <= i < |s| && i != x && i != y && i != g
      ensures TurnCells(s1, x, y)[i] == s[i]
    {
      RelinkAt(s, g, x, y, i);
      TurnAt(s1, x, y, e, i);
    }
  }

  /** What KeepParent(y), KeepParent(x) find after the turn: `y` holds `a` and
      `x`, `x` holds `b` and `c`, and `a`, `c` already point back. */
  ghost predicate KeepReady<A>(s: seq<Slot<A>>, x: int, y: int, e: Dir, a: int, b: int, c: int)
  {
    0 <= x < |s| && 0 <= y < |s| && x != y &&
    Link(s[y], e) == a && Link(s[y], Other(e)) == x && Link(s[x], e) == b && Link(s[x], Other(e)) == c &&
    Ok(a, |s|) && Ok(b, |s|) && Ok(c, |s|) &&
    (a != NIL ==> a != x && a != y && a != b && s[a].parent == y) &&
    (b != NIL ==> b != x && b != y) &&
    (c != NIL ==> c != x && c != y && c != b && s[c].parent == x)
  }

  /** The second half of Rotate(x, y): of all the parent writes only those to
      `x` and `b` change anything. */
  lemma KeepStage<A>(s: seq<Slot<A>>, x: int, y: int, e: Dir, a: int, b: int, c: int)
    requires KeepReady(s, x, y, e, a, b, c)
    ensures Ok(s[y].left, |s|) && Ok(s[y].right, |s|)
    ensures var s3 := KeepParentCells(s, y);
      Ok(s3[x].left, |s|) && Ok(s3[x].right, |s|) &&
      var s4 := KeepParentCells(s3, x);
      |s4| == |s| && s4[x] == s[x].(parent := y) && (b != NIL ==> s4[b] == s[b].(parent := x)) &&
      forall i :: 0 <= i < |s| && i != x && i != b ==> s4[i] == s[i]
  {
    assert Ok(s[y].left, |s|) && Ok(s[y].right, |s|) by { if e == L { } else { } }
    var s3 := KeepParentCells(s, y);
    KeepParentAt(s, y, x);
    assert Ok(s3[x].left, |s|) && Ok(s3[x].right, |s|) by { if e == L { } else { } }
    KeepParentAt(s3, x, x);
    if b != NIL {
      KeepParentAt(s, y, b);
      KeepParentAt(s3, x, b);
      assert s[y].left != b && s[y].right != b by { if e == L { } else { } }
      assert s3[x].left == b || s3[x].right == b by { if e == L { } else { } }
    }
    forall i | 0 <= i < |s| && i != x && i != b
      ensures KeepParentCells(s3, x)[i] == s[i]
    {
      KeepParentAt(s, y, i);
      KeepParentAt(s3, x, i);
      assert s3[x].left == b || s3[x].right == b by { if e == L { } else { } }
    }
  }

  /** The cells Rotate changes: the child, the parent, the child's inner child
      and the grandparent; every other cell is unchanged. */
  lemma RotateStepCells<A>(s: seq<Slot<A>>, x: int, y: int, e: Dir)
    requires StepReady(s, x, y, e)
    ensures RotatePre(s, x, y)
    ensures var b, g, s' := Link(s[y], Other(e)), s[x].parent, RotateStep(s, x, y);
      |s'| == |s| &&
      s'[y] == SetLink(s[y].(parent := g), Other(e), x) &&
      s'[x] == SetLink(s[x].(parent := y), e, b) &&
      (b != NIL ==> s'[b] == s[b].(parent := x)) &&
      (g != NIL ==> s'[g] == if s[g].left == x then s[g].(left := y) else s[g].(right := y)) &&
      forall i :: 0 <= i < |s| && i != x && i != y && i != b && i != g ==> s'[i] == s[i]
  {
    var a, b, c, g := Link(s[y], e), Link(s[y], Other(e)), Link(s[x], Other(e)), s[x].parent;
    TurnStage(s, x, y, e);
    var s2 := TurnCells(RelinkCells(s, g, x, y), x, y);
    assert KeepReady(s2, x, y, e, a, b, c);
    KeepStage(s2, x, y, e, a, b, c);
  }

  /** In a linked distinct tree, a node and its child on side `e` are ready to rotate. */
  lemma TreeStepReady<A>(t: Tree<A>, s: seq<Slot<A>>, p: Path, e: Dir)
    requires Linked(t, NIL, s) && Distinct(t) && Reaches(t, p)
    requires At(t, p).Node? && Child(At(t, p), e).Node?
    ensures StepReady(s, At(t, p).id, Child(At(t, p), e).id, e)
    ensures p == [] ==> s[At(t, p).id].parent == NIL
    ensures p != [] ==> At(t, Parent(p)).Node? && s[At(t, p).id].parent == At(t, Parent(p)).id
  {
    var x := At(t, p);
    var y := Child(x, e);
    assert Other(Other(e)) == e by { if e == L { } else { } }
    RotateShape(t, s, p, Other(e));
    LinkedAt(t, NIL, s, p);
    DistinctAt(t, p);
    var a, c := Child(y, e), Child(x, Other(e));
    var g := if p == [] then NIL else At(t, Parent(p)).id;
    if p != [] { ParentDistinct(t, p); }
    IdIn(x);
    IdIn(y);
    assert Ids(y) <= Ids(x) && Ids(c) <= Ids(x) by { if e == L { } else { } }
    assert Ids(a) <= Ids(y) && Ids(a) !! Ids(Child(y, Other(e))) by { if e == L { } else { } }
    assert Ids(c) !! Ids(y) by { if e == L { } else { } }
    assert Linked(y, x.id, s) && Linked(c, x.id, s) by { if e == L { } else { } }
    assert Linked(a, y.id, s) by { if e == L { } else { } }
    if a.Node? { IdIn(a); }
    if c.Node? { IdIn(c); }
    assert Link(s[y.id], e) == Id(a) && Link(s[x.id], Other(e)) == Id(c) by { if e == L { } else { } }
  }

  /** Rotate(x, y) changes only cells of the tree. */
  lemma RotateStepKeeps<A>(t: Tree<A>, s: seq<Slot<A>>, p: Path, e: Dir)
    requires Linked(t, NIL, s) && Distinct(t) && Reaches(t, p)
    requires At(t, p).Node? && Child(At(t, p), e).Node?
    ensures RotatePre(s, At(t, p).id, Child(At(t, p), e).id)
    ensures Keeps(s, RotateStep(s, At(t, p).id, Child(At(t, p), e).id), Ids(t))
  {
    var x, y := At(t, p), Child(At(t, p), e);
    TreeStepReady(t, s, p, e);
    RotateStepCells(s, x.id, y.id, e);
    IdsAt(t, p);
    IdIn(x);
    IdIn(y);
    assert Ids(y) <= Ids(x) by { if e == L { } else { } }
    LinkedAt(t, NIL, s, p);
    if p != [] { IdsAt(t, Parent(p)); }
  }

  /** Rotate(x, y) on the arena of a tree turns the node at `p` over its child on
      side `e`: the arena realises the rotated tree and only cells of the tree change. */
  lemma LinkedRotateStep<A>(t: Tree<A>, s: seq<Slot<A>>, p: Path, e: Dir)
    requires Linked(t, NIL, s) && Distinct(t) && Reaches(t, p)
    requires At(t, p).Node? && Child(At(t, p), e).Node?
    ensures RotatePre(s, At(t, p).id, Child(At(t, p), e).id)
    ensures Linked(RotAt(t, p, Other(e)), NIL, RotateStep(s, At(t, p).id, Child(At(t, p), e).id))
    ensures Keeps(s, RotateStep(s, At(t, p).id, Child(At(t, p), e).id), Ids(t))
    ensures s[At(t, p).id].parent == NIL <==> p == []
  {
    var x, y := At(t, p), Child(At(t, p), e);
    var d := Other(e);
    assert Other(d) == e by { if e == L { } else { } }
    TreeStepReady(t, s, p, e);
    RotateShape(t, s, p, d);
    RotateStepCells(s, x.id, y.id, e);
    var s' := RotateStep(s, x.id, y.id);
    RotateStepKeeps(t, s, p, e);
    if p != [] {
      var g := At(t, Parent(p));
      assert s'[g.id] == SetLink(s[g.id], Last(p), y.id) by { if Last(p) == L { } else { } }
    }
    LinkedRotate(t, s, p, d, s');
    assert s[x.id].parent == NIL <==> p == [];
  }

  /** Where Splay(node) stands: the node has no parent at the root, its parent
      has none one level down, and further down the grandparent's and the
      parent's links tell a zig-zig (`a == b`) from a zig-zag. */
  lemma SplayCase<A>(t: Tree<A>, s: seq<Slot<A>>, p: Path)
    requires Linked(t, NIL, s) && Distinct(t) && At(t, p).Node?
    ensures Reaches(t, p) && At(t, p).id < |s|
    ensures s[At(t, p).id].parent == NIL <==> p == []
    ensures p != [] ==> var par := s[At(t, p).id].parent;
      At(t, Parent(p)).Node? && par == At(t, Parent(p)).id && 0 <= par < |s| &&
      (s[par].parent == NIL <==> |p| == 1)
    ensures |p| >= 2 ==> var par := s[At(t, p).id].parent; var g := s[par].parent;
      var gp, a, b := p[..|p| - 2], p[|p| - 2], p[|p| - 1];
      At(t, gp).Node? && g == At(t, gp).id && 0 <= g < |s| &&
      ((s[g].left == par) == (s[par].left == At(t, p).id) <==> a == b)
  {
    NodeInArena(t, s, p);
    if p != [] {
      NodeInArena(t, s, Parent(p));
      if |p| >= 2 {
        Ancestry(t, p);
        assert Parent(p) == p[..|p| - 2] + [p[|p| - 2]];
        assert Parent(Parent(p)) == p[..|p| - 2];
      }
    }
  }

  /** The zig: one rotation at the root lifts its child `node` to the top. */
  lemma ZigCells<A>(t: Tree<A>, s: seq<Slot<A>>, p: Path)
    requires Linked(t, NIL, s) && Distinct(t) && At(t, p).Node? && |p| == 1
    ensures t.Node? && RotatePre(s, t.id, At(t, p).id)
    ensures var s' := RotateStep(s, t.id, At(t, p).id);
      Linked(Splayed(t, p), NIL, s') && Keeps(s, s', Ids(t)) && s[t.id].parent == NIL
  {
    OtherOther(p[0]);
    assert At(t, p) == Child(At(t, []), p[0]);
    LinkedRotateStep(t, s, [], p[0]);
  }

  /** The nodes of a step: the grandparent, the parent and the node at `p`. */
  ghost predicate Trio<A>(t: Tree<A>, p: Path, g: int, par: int, node: int)
  {
    |p| >= 2 && At(t, p).Node? &&
    var gp, a := p[..|p| - 2], p[|p| - 2];
    At(t, gp).Node? && At(t, gp + [a]).Node? &&
    g == At(t, gp).id && par == At(t, gp + [a]).id && node == At(t, p).id
  }

  /** The zig-zig (`a == b`): Rotate(g, par) and then Rotate(par, node); the arena
      then realises the stepped tree, and each rotation reaches the root exactly
      when the grandparent was it. */
  lemma ZigZigCells<A>(t: Tree<A>, s: seq<Slot<A>>, p: Path, g: int, par: int, node: int)
    requires Linked(t, NIL, s) && Distinct(t) && Trio(t, p, g, par, node) && p[|p| - 2] == p[|p| - 1]
    ensures RotatePre(s, g, par)
    ensures var s1 := RotateStep(s, g, par);
      RotatePre(s1, par, node) &&
      var s2 := RotateStep(s1, par, node);
      Linked(SplayStep(t, p), NIL, s2) && Keeps(s, s2, Ids(t)) &&
      (s[g].parent == NIL <==> p[..|p| - 2] == []) &&
      (s1[par].parent == NIL <==> p[..|p| - 2] == [])
  {
    var gp, a := p[..|p| - 2], p[|p| - 2];
    Ancestry(t, p);
    StepFacts(t, p);
    OtherOther(a);
    LinkedRotateStep(t, s, gp, a);
    var t1 := RotAt(t, gp, Other(a));
    RotAtElemsOf(t, gp, Other(a));
    LinkedRotateStep(t1, RotateStep(s, g, par), gp, a);
  }

  /** The zig-zag (`a != b`): Rotate(par, node) and then Rotate(g, node). */
  lemma ZigZagCells<A>(t: Tree<A>, s: seq<Slot<A>>, p: Path, g: int, par: int, node: int)
    requires Linked(t, NIL, s) && Distinct(t) && Trio(t, p, g, par, node) && p[|p| - 2] != p[|p| - 1]
    ensures RotatePre(s, par, node)
    ensures var s1 := RotateStep(s, par, node);
      RotatePre(s1, g, node) &&
      var s2 := RotateStep(s1, g, node);
      Linked(SplayStep(t, p), NIL, s2) && Keeps(s, s2, Ids(t)) &&
      s[par].parent != NIL && (s1[g].parent == NIL <==> p[..|p| - 2] == [])
  {
    var gp, a, b := p[..|p| - 2], p[|p| - 2], p[|p| - 1];
    Ancestry(t, p);
    StepFacts(t, p);
    OtherOther(a);
    OtherOther(b);
    LinkedRotateStep(t, s, gp + [a], b);
    var t1 := RotAt(t, gp + [a], Other(b));
    RotAtElemsOf(t, gp + [a], Other(b));
    LinkedRotateStep(t1, RotateStep(s, par, node), gp, a);
  }

  /** SetParent(c, nullptr) on the top of a linked subtree makes it a tree of its own. */
  lemma LinkedOrphan<A>(c: Tree<A>, par: int, sl: seq<Slot<A>>)
    requires Linked(c, par, sl) && Distinct(c)
    ensures Ok(Id(c), |sl|)
    ensures var sl' := SetParentCells(sl, Id(c), NIL);
      Linked(c, NIL, sl') && forall i :: 0 <= i < |sl| && i != Id(c) ==> sl'[i] == sl[i]
  {
    var sl' := SetParentCells(sl, Id(c), NIL);
    forall i | 0 <= i < |sl| ensures sl'[i] == if i == Id(c) then sl[i].(parent := NIL) else sl[i] {
      SetParentAt(sl, Id(c), NIL, i);
    }
    if c.Node? { IdIn(c); LinkedReparent(c, par, sl, NIL, sl'); }
  }

  /** Two SetParent calls change only the two cells they name. */
  lemma OrphansKeep<A>(sl: seq<Slot<A>>, a: int, b: int, ids: set<nat>)
    requires Ok(a, |sl|) && Ok(b, |sl|) && (a != NIL ==> a in ids) && (b != NIL ==> b in ids)
    ensures Keeps(sl, SetParentCells(SetParentCells(sl, a, NIL), b, NIL), ids)
  {
    var s1 := SetParentCells(sl, a, NIL);
    forall i | 0 <= i < |sl| && i !in ids ensures SetParentCells(s1, b, NIL)[i] == sl[i] {
      SetParentAt(sl, a, NIL, i);
      SetParentAt(s1, b, NIL, i);
    }
  }

  /** Split's cut when the root holds the key: both subtrees lose their parent. */
  lemma CutBothCells<A>(s: Tree<A>, sl: seq<Slot<A>>)
    requires Linked(s, NIL, sl) && Distinct(s) && s.Node?
    ensures Ok(Id(s.left), |sl|) && Ok(Id(s.right), |sl|)
    ensures var sl' := SetParentCells(SetParentCells(sl, Id(s.left), NIL), Id(s.right), NIL);
      Linked(s.left, NIL, sl') && Linked(s.right, NIL, sl')
  {
    IdIn(s);
    LinkedOrphan(s.left, s.id, sl);
    var s1 := SetParentCells(sl, Id(s.left), NIL);
    if s.right.Node? { IdIn(s.right); }
    if s.left.Node? { IdIn(s.left); }
    LinkedKeep(s.right, s.id, sl, s1);
    LinkedOrphan(s.right, s.id, s1);
    LinkedKeep(s.left, NIL, s1, SetParentCells(s1, Id(s.right), NIL));
  }

  lemma CutBothKeeps<A>(s: Tree<A>, sl: seq<Slot<A>>)
    requires Linked(s, NIL, sl) && s.Node?
    ensures Ok(Id(s.left), |sl|) && Ok(Id(s.right), |sl|)
    ensures Keeps(sl, SetParentCells(SetParentCells(sl, Id(s.left), NIL), Id(s.right), NIL), Ids(s))
  {
    IdIn(s);
    if s.left.Node? { IdIn(s.left); }
    if s.right.Node? { IdIn(s.right); }
    OrphansKeep(sl, Id(s.left), Id(s.right), Ids(s));
  }

  /** Split's cut on side `d` of the root `x`: the link goes and the subtree
      there loses its parent; the root keeps the rest. */
  lemma CutSideCells<A>(s: Tree<A>, sl: seq<Slot<A>>, d: Dir)
    requires Linked(s, NIL, sl) && Distinct(s) && s.Node?
    ensures s.id < |sl| && Ok(Id(Child(s, d)), |sl|)
    ensures var sl' := SetParentCells(sl[s.id := SetLink(sl[s.id], d, NIL)], Id(Child(s, d)), NIL);
      Linked(WithChild(s, d, Leaf), NIL, sl') && Linked(Child(s, d), NIL, sl') && Keeps(sl, sl', Ids(s))
  {
    IdIn(s);
    var c := Child(s, d);
    var s1 := sl[s.id := SetLink(sl[s.id], d, NIL)];
    var sl' := SetParentCells(s1, Id(c), NIL);
    assert Ids(c) <= Ids(s) && s.id !in Ids(c) && Linked(c, s.id, sl) by { if d == L { } else { } }
    forall i | 0 <= i < |sl|
      ensures sl'[i] == if i == s.id then SetLink(sl[i], d, NIL) else if i == Id(c) then sl[i].(parent := NIL) else sl[i]
    {
      SetParentAt(s1, Id(c), NIL, i);
    }
    if c.Node? { IdIn(c); LinkedReparent(c, s.id, sl, NIL, sl'); }
    var o := Child(s, Other(d));
    assert Ids(o) !! Ids(c) && s.id !in Ids(o) && Linked(o, s.id, sl) by { if d == L { } else { } }
    LinkedKeep(o, s.id, sl, sl');
    assert sl'[s.id] == Slot(s.key, s.info, NIL, Id(WithChild(s, d, Leaf).left), Id(WithChild(s, d, Leaf).right))
      by { if d == L { } else { } }
  }

  /** What Split(root, key) does as written: the left subtree's parent is cleared
      twice and the right subtree's never. */
  function DetachAsWritten<A>(sl: seq<Slot<A>>, x: int): (r: seq<Slot<A>>)
    requires 0 <= x < |sl| && Ok(sl[x].left, |sl|)
    ensures |r| == |sl|
  {
    SetParentCells(SetParentCells(sl, sl[x].left, NIL), sl[x].left, NIL)
  }

  /** After it the right piece is not a tree of its own: its top cell still
      names the old root as parent. */
  lemma DetachAsWrittenStale<A>(s: Tree<A>, sl: seq<Slot<A>>)
    requires Linked(s, NIL, sl) && Distinct(s) && s.Node? && s.right.Node?
    ensures s.id < |sl| && Ok(sl[s.id].left, |sl|) && s.right.id < |sl|
    ensures !Linked(s.right, NIL, DetachAsWritten(sl, s.id))
    ensures DetachAsWritten(sl, s.id)[s.right.id].parent == s.id
  {
    IdIn(s);
    var sl1 := SetParentCells(sl, sl[s.id].left, NIL);
    SetParentAt(sl, sl[s.id].left, NIL, s.right.id);
    SetParentAt(sl1, sl[s.id].left, NIL, s.right.id);
  }

  /** For instance: root 0 (key 5) with right child 1 (key 7), splitting at 5. */
  lemma DetachAsWrittenExample()
    ensures var sl := [Slot(5, (), NIL, NIL, 1), Slot(7, (), 0, NIL, NIL)];
      Linked(Node(0, 5, (), Leaf, Node(1, 7, (), Leaf, Leaf)), NIL, sl) &&
      !Linked(Node(1, 7, (), Leaf, Leaf), NIL, DetachAsWritten(sl, 0))
  {
    var sl := [Slot(5, (), NIL, NIL, 1), Slot(7, (), 0, NIL, NIL)];
    assert Linked(Node(1, 7, (), Leaf, Leaf), 0, sl);
    DetachAsWrittenStale(Node(0, 5, (), Leaf, Node(1, 7, (), Leaf, Leaf)), sl);
  }

  /** Find(node, key) from the node at `q` of `t` ended on node `r`, splayed
      to the top: the arena went from `s0` to `s` and the root from `root0` to `root`. */
  ghost predicate Walked(t: Shape, q: Path, key: int, s0: seq<Slot<()>>, s: seq<Slot<()>>,
                         root0: int, root: int, r: int)
  {
    At(t, q).Node? &&
    var p := q + SearchPath(At(t, q), key);
    At(t, p).Node? && r == At(t, p).id &&
    Linked(Splayed(t, p), NIL, s) && Keeps(s0, s, Ids(t)) &&
    root == if p == [] then root0 else r
  }

  /** A walk that went on to the child on side `d` is a walk from here. */
  lemma WalkDown(t: Shape, q: Path, key: int, d: Dir, s0: seq<Slot<()>>, s: seq<Slot<()>>,
                 root0: int, root: int, r: int)
    requires Reaches(t, q) && At(t, q).Node?
    requires d == L ==> key < At(t, q).key && At(t, q).left.Node?
    requires d == R ==> key > At(t, q).key && At(t, q).right.Node?
    requires Walked(t, q + [d], key, s0, s, root0, root, r)
    ensures Walked(t, q, key, s0, s, root0, root, r)
  {
    var x := At(t, q);
    AtChild(t, q, d);
    var rest := SearchPath(Child(x, d), key);
    assert SearchPath(x, key) == [d] + rest;
    assert q + SearchPath(x, key) == q + [d] + rest;
  }

  /** A walk that stops here splays this node. */
  lemma WalkStop(t: Shape, q: Path, key: int, s0: seq<Slot<()>>, s: seq<Slot<()>>,
                 root0: int, root: int, r: int)
    requires At(t, q).Node? && SearchPath(At(t, q), key) == []
    requires r == At(t, q).id && Linked(Splayed(t, q), NIL, s) && Keeps(s0, s, Ids(t))
    requires root == if q == [] then root0 else r
    ensures Walked(t, q, key, s0, s, root0, root, r)
  {
    assert q + SearchPath(At(t, q), key) == q;
  }

  /** Merge's last step: the splayed right tree `s`, with nothing on its left,
      takes the left tree `l` there. */
  lemma HangCells<A>(l: Tree<A>, s: Tree<A>, sl: seq<Slot<A>>)
    requires Linked(l, NIL, sl) && Linked(s, NIL, sl) && Distinct(l) && Distinct(s)
    requires l.Node? && s.Node? && s.left.Leaf? && Ids(l) !! Ids(s)
    ensures l.id < |sl| && s.id < |sl|
    ensures var s1 := sl[s.id := sl[s.id].(left := l.id)];
      Linked(s.(left := l), NIL, s1[l.id := s1[l.id].(parent := s.id)])
  {
    IdIn(l);
    IdIn(s);
    var s1 := sl[s.id := sl[s.id].(left := l.id)];
    var sl' := s1[l.id := s1[l.id].(parent := s.id)];
    LinkedIds(l, NIL, sl);
    LinkedReparent(l, NIL, sl, s.id, sl');
    LinkedKeep(s.right, s.id, sl, sl');
  }

  /** Merge after its Find: the least node of the right tree, now on top, takes
      the left tree on its left, which realises the merged tree. */
  lemma MergeCells(lt: Shape, rt: Shape, s0: seq<Slot<()>>, sl: seq<Slot<()>>)
    requires lt.Node? && rt.Node? && SearchTree(lt) && SearchTree(rt)
    requires Ids(lt) !! Ids(rt) && Increasing(Keys(lt) + Keys(rt))
    requires At(rt, SearchPath(rt, lt.key)).Node?
    requires Linked(lt, NIL, s0) && Keeps(s0, sl, Ids(rt))
    requires Linked(Splayed(rt, SearchPath(rt, lt.key)), NIL, sl)
    ensures var m := At(rt, SearchPath(rt, lt.key)).id;
      m in Ids(rt) && m < |sl| && lt.id < |sl| && m == Id(Merged(lt, rt)) &&
      var s1 := sl[m := sl[m].(left := lt.id)];
      Linked(Merged(lt, rt), NIL, s1[lt.id := s1[lt.id].(parent := m)])
  {
    var p := SearchPath(rt, lt.key);
    var s := Splayed(rt, p);
    SplayedSpec(rt, p);
    MinSplayed(lt, rt, p, s);
    LinkedIds(lt, NIL, s0);
    LinkedKeep(lt, NIL, s0, sl);
    HangCells(lt, s, sl);
    IdIn(s);
  }

  /** The subtrees of a search tree's root are search trees apart from it, and
      their keys stay in order side by side. */
  lemma RootHalves<A>(s: Tree<A>)
    requires SearchTree(s) && s.Node?
    ensures SearchTree(s.left) && SearchTree(s.right) && Ids(s.left) !! Ids(s.right)
    ensures s.id !in Ids(s.left) + Ids(s.right)
    ensures Increasing(Keys(s.left) + Keys(s.right))
  {
    CutRoot(s, s.key);
    NodeKeys(s);
    IncreasingSkip(Keys(s.left), s.key, Keys(s.right));
  }

  /** Clearing both links of a cell outside a tree leaves the tree in place. */
  lemma ClearLinks<A>(m: Tree<A>, sl: seq<Slot<A>>, x: int)
    requires Linked(m, NIL, sl) && 0 <= x < |sl| && x !in Ids(m)
    ensures var s1 := sl[x := sl[x].(left := NIL)];
      Linked(m, NIL, s1[x := s1[x].(right := NIL)])
  {
    var s1 := sl[x := sl[x].(left := NIL)];
    LinkedKeep(m, NIL, sl, s1[x := s1[x].(right := NIL)]);
  }

  /** Two steps that keep the cells outside `a` and `b` keep those outside `ids`. */
  lemma KeepsTrans<A>(s0: seq<Slot<A>>, s1: seq<Slot<A>>, s2: seq<Slot<A>>, a: set<nat>, b: set<nat>, ids: set<nat>)
    requires Keeps(s0, s1, a) && Keeps(s1, s2, b) && a <= ids && b <= ids
    ensures Keeps(s0, s2, ids)
  {
  }

  /** Merge's last step changes only the two cells it names. */
  lemma HangKeeps<A>(sl: seq<Slot<A>>, a: int, b: int, ids: set<nat>)
    requires 0 <= a < |sl| && 0 <= b < |sl| && a in ids && b in ids
    ensures var s1 := sl[a := sl[a].(left := b)];
      Keeps(sl, s1[b := s1[b].(parent := a)], ids)
  {
  }

  /** Insert's new node `n`, appended over the two pieces of Split, adopts them. */
  lemma JoinCells<A>(lo: Tree<A>, hi: Tree<A>, sl: seq<Slot<A>>, k: int, a: A)
    requires Linked(lo, NIL, sl) && Linked(hi, NIL, sl)
    requires Distinct(Node(|sl|, k, a, lo, hi))
    ensures var n, s1 := |sl|, sl + [Slot(k, a, NIL, Id(lo), Id(hi))];
      Ok(Id(lo), |s1|) && Ok(Id(hi), |s1|) &&
      Linked(Node(n, k, a, lo, hi), NIL, KeepParentCells(s1, n))
  {
    var n, s1 := |sl|, sl + [Slot(k, a, NIL, Id(lo), Id(hi))];
    LinkedIds(lo, NIL, sl);
    LinkedIds(hi, NIL, sl);
    if lo.Node? { IdIn(lo); }
    if hi.Node? { IdIn(hi); }
    LinkedKeep(lo, NIL, sl, s1);
    LinkedKeep(hi, NIL, sl, s1);
    var s2 := SetParentCells(s1, Id(lo), n);
    var s3 := KeepParentCells(s1, n);
    forall i | 0 <= i < |s1|
      ensures s3[i] == if i == Id(lo) || i == Id(hi) then s1[i].(parent := n) else s1[i]
    {
      KeepParentAt(s1, n, i);
    }
    if lo.Node? { LinkedReparent(lo, NIL, s1, n, s3); }
    if hi.Node? { LinkedReparent(hi, NIL, s1, n, s3); }
  }

  // ---------------------------------------------------------------------
  // The class

  /** A splay tree of int keys with payloads of type T. Node `i` of the arena
      holds its links in `slots[i]` and its payload in `data[i]`; `tree` is the
      ghost shape the links realise. */
  class SplayBST<T> {
    var slots: seq<Slot<()>>
    var data: seq<T>
    var root: int
    ghost var tree: Shape

    /** The links realise `tree`, a search tree with `root` at its top. */
    ghost predicate Valid()
      reads this
    {
      Linked(tree, NIL, slots) && SearchTree(tree) && root == Id(tree) && |data| == |slots|
    }

    /** The map from keys to payloads the tree holds. */
    ghost function Contents(): map<int, T>
      reads this
      requires Valid()
    {
      LinkedIds(tree, NIL, slots);
      TreeMap(tree, data)
    }

    constructor ()
      ensures Valid() && Contents() == map[]
      ensures root == NIL && slots == [] && data == []
    {
      slots, data, root, tree := [], [], NIL, Leaf;
    }

    /** Root(): the top node, or NIL when the tree is empty. */
    method Root() returns (r: int)
      requires Valid()
      ensures r == Id(tree)
      ensures r == NIL <==> Contents() == map[]
    {
      LinkedIds(tree, NIL, slots);
      StoredIdsIn(tree, |data|);
      MapOfKeys(Elems(tree), data);
      if tree.Node? {
        assert tree.key in Keys(tree) by { NodeKeys(tree); }
      }
      r := root;
    }

    method SetParent(c: int, par: int)
      requires Ok(c, |slots|)
      modifies this
      ensures slots == SetParentCells(old(slots), c, par)
      ensures data == old(data) && root == old(root) && tree == old(tree)
    {
      if c != NIL {
        slots := slots[c := slots[c].(parent := par)];
      }
    }

    method KeepParent(n: int)
      requires 0 <= n < |slots| && Ok(slots[n].left, |slots|) && Ok(slots[n].right, |slots|)
      modifies this
      ensures slots == KeepParentCells(old(slots), n)
      ensures data == old(data) && root == old(root) && tree == old(tree)
    {
      SetParent(slots[n].left, n);
      SetParent(slots[n].right, n);
    }

    /** Rotate(parent, child); the child becomes the root when the parent was. */
    method Rotate(x: int, y: int)
      requires RotatePre(slots, x, y)
      modifies this
      ensures slots == RotateStep(old(slots), x, y)
      ensures root == if old(slots)[x].parent == NIL then y else old(root)
      ensures data == old(data) && tree == old(tree)
    {
      var g := slots[x].parent;
      Relink(g, x, y);
      Turn(x, y);
      KeepParentAt(slots, y, x);
      KeepParent(y);
      KeepParent(x);
      slots := slots[y := slots[y].(parent := g)];
    }

    /** The first part of Rotate: the grandparent `g` (or the root, when
        there is none) takes the child `y` in place of the parent `x`. */
    method Relink(g: int, x: int, y: int)
      requires Ok(g, |slots|)
      modifies this
      ensures slots == RelinkCells(old(slots), g, x, y)
      ensures root == if g == NIL then y else old(root)
      ensures data == old(data) && tree == old(tree)
    {
      if g != NIL {
        if slots[g].left == x {
          slots := slots[g := slots[g].(left := y)];
        } else {
          slots := slots[g := slots[g].(right := y)];
        }
      } else {
        root := y;
      }
    }

    /** The middle of Rotate: the child's inner subtree goes over to the
        parent `x`, which goes under the child `y`. */
    method Turn(x: int, y: int)
      requires 0 <= x < |slots| && 0 <= y < |slots| && x != y
      requires Ok(slots[x].left, |slots|) && Ok(slots[x].right, |slots|)
      requires Ok(slots[y].left, |slots|) && Ok(slots[y].right, |slots|)
      modifies this
      ensures slots == TurnCells(old(slots), x, y)
      ensures data == old(data) && root == old(root) && tree == old(tree)
    {
      if slots[x].left == y {
        slots := slots[x := slots[x].(left := slots[y].right)][y := slots[y].(right := x)];
      } else {
        slots := slots[x := slots[x].(right := slots[y].left)][y := slots[y].(left := x)];
      }
    }

    /** Splay(node) on the tree `t` the arena realises, `node` sitting at `p`:
        afterwards the arena realises the splayed tree, only cells of `t` have
        changed, and the node is the root when it moved. */
    method Splay(node: int, ghost t: Shape, ghost p: Path) returns (r: int)
      requires Linked(t, NIL, slots) && Distinct(t) && At(t, p).Node? && At(t, p).id == node
      modifies this
      ensures r == node
      ensures Linked(Splayed(t, p), NIL, slots) && Keeps(old(slots), slots, Ids(t))
      ensures root == if p == [] then old(root) else node
      ensures data == old(data) && tree == old(tree)
      decreases |p|
    {
      SplayCase(t, slots, p);
      if slots[node].parent == NIL {
        return node;
      }
      var par := slots[node].parent;
      var g := slots[par].parent;
      if g == NIL {
        ZigCells(t, slots, p);
        Rotate(par, node);
        return node;
      }
      ghost var gp, a, b := p[..|p| - 2], p[|p| - 2], p[|p| - 1];
      Ancestry(t, p);
      assert Parent(p) == gp + [a];
      var zigzig := (slots[g].left == par) == (slots[par].left == node);
      if zigzig {
        ZigZigCells(t, slots, p, g, par, node);
        Rotate(g, par);
        Rotate(par, node);
      } else {
        ZigZagCells(t, slots, p, g, par, node);
        Rotate(par, node);
        Rotate(g, node);
      }
      ghost var t2 := SplayStep(t, p);
      StepSpec(t, p);
      r := Splay(node, t2, gp);
    }

    /** Find(node, key): walk down from `node` (at `q` in `t`) toward `key` while
        the child on its side exists, then splay the last node reached. */
    method FindAt(node: int, key: int, ghost t: Shape, ghost q: Path) returns (r: int)
      requires Linked(t, NIL, slots) && Distinct(t) && Reaches(t, q) && node == Id(At(t, q))
      modifies this
      ensures node == NIL ==> r == NIL && slots == old(slots) && root == old(root)
      ensures node != NIL ==> Walked(t, q, key, old(slots), slots, old(root), root, r)
      ensures data == old(data) && tree == old(tree)
      decreases Count(At(t, q))
    {
      if node == NIL {
        return NIL;
      }
      var x := At(t, q);
      NodeInArena(t, slots, q);
      if key == slots[node].key {
        r := Splay(node, t, q);
        WalkStop(t, q, key, old(slots), slots, old(root), root, r);
        return;
      }
      if key < slots[node].key && slots[node].left != NIL {
        AtChild(t, q, L);
        r := FindAt(slots[node].left, key, t, q + [L]);
        WalkDown(t, q, key, L, old(slots), slots, old(root), root, r);
        return;
      }
      if key > slots[node].key && slots[node].right != NIL {
        AtChild(t, q, R);
        r := FindAt(slots[node].right, key, t, q + [R]);
        WalkDown(t, q, key, R, old(slots), slots, old(root), root, r);
        return;
      }
      r := Splay(node, t, q);
      WalkStop(t, q, key, old(slots), slots, old(root), root, r);
    }
      /** Split(root, key): Find splays the node the walk for `key` stops on, and
        the cut at it leaves the keys below `key` under `l` and those above under
        `r`, both parentless; a node holding `key` is in neither. */
    method Split(top: int, key: int, ghost t: Shape) returns (l: int, r: int)
      requires Linked(t, NIL, slots) && SearchTree(t) && top == Id(t)
      modifies this
      ensures Linked(SplitOf(t, key).0, NIL, slots) && Linked(SplitOf(t, key).1, NIL, slots)
      ensures l == Id(SplitOf(t, key).0) && r == Id(SplitOf(t, key).1)
      ensures Keeps(old(slots), slots, Ids(t))
      ensures root == if t.Node? && SearchPath(t, key) != [] then Found(t, key) else old(root)
      ensures data == old(data) && tree == old(tree)
    {
      if top == NIL {
        return NIL, NIL;
      }
      var x := FindAt(top, key, t, []);
      ghost var p := SearchPath(t, key);
      assert [] + p == p;
      ghost var s := Searched(t, key);
      SplayedSpec(t, p);
      ghost var s0 := slots;
      if slots[x].key == key {
        l, r := slots[x].left, slots[x].right;
        CutBothCells(s, slots);
        CutBothKeeps(s, slots);
        SetParent(l, NIL);
        SetParent(r, NIL);
      } else if slots[x].key < key {
        r := slots[x].right;
        CutSideCells(s, slots, R);
        slots := slots[x := slots[x].(right := NIL)];
        SetParent(r, NIL);
        l := x;
      } else {
        l := slots[x].left;
        CutSideCells(s, slots, L);
        slots := slots[x := slots[x].(left := NIL)];
        SetParent(l, NIL);
        r := x;
      }
    }

    /** Merge(left, right) of two parentless trees whose keys are all below /
        above each other: Find splays the least node of the right tree to its
        top, and the left tree hangs on its left. */
    method Merge(left: int, right: int, ghost lt: Shape, ghost rt: Shape) returns (res: int)
      requires Linked(lt, NIL, slots) && Linked(rt, NIL, slots) && SearchTree(lt) && SearchTree(rt)
      requires Ids(lt) !! Ids(rt) && Increasing(Keys(lt) + Keys(rt))
      requires left == Id(lt) && right == Id(rt)
      modifies this
      ensures Linked(Merged(lt, rt), NIL, slots) && res == Id(Merged(lt, rt))
      ensures Keeps(old(slots), slots, Ids(lt) + Ids(rt))
      ensures root == if lt.Node? && rt.Node? && SearchPath(rt, lt.key) != [] then res else old(root)
      ensures data == old(data) && tree == old(tree)
    {
      if right == NIL {
        return left;
      }
      if left == NIL {
        return right;
      }
      LinkedIds(lt, NIL, slots);
      IdIn(lt);
      var m := FindAt(right, slots[left].key, rt, []);
      assert [] + SearchPath(rt, lt.key) == SearchPath(rt, lt.key);
      MergeCells(lt, rt, old(slots), slots);
      ghost var s1 := slots;
      HangKeeps(slots, m, left, Ids(lt) + Ids(rt));
      slots := slots[m := slots[m].(left := left)];
      slots := slots[left := slots[left].(parent := m)];
      KeepsTrans(old(slots), s1, slots, Ids(rt), Ids(lt) + Ids(rt), Ids(lt) + Ids(rt));
      res := m;
    }

    /** Insert(key, data): Split at `key`, then a new node over the two pieces
        becomes the root; `key` now maps to `value` and every other key keeps
        its payload. */
    method Insert(key: int, value: T)
      requires Valid()
      modifies this
      ensures Valid() && Contents() == old(Contents())[key := value]
      ensures tree == Inserted(old(tree), old(|slots|), key)
      ensures |slots| == old(|slots|) + 1
    {
      ghost var t := tree;
      ghost var h := SplitOf(t, key);
      LinkedIds(t, NIL, slots);
      InsertedTree(t, |slots|, key);
      InsertedMap(t, key, data, value);
      var l, r := Split(root, key, t);
      var n := |slots|;
      JoinCells(h.0, h.1, slots, key, ());
      slots := slots + [Slot(key, (), NIL, l, r)];
      data := data + [value];
      KeepParent(n);
      if slots[n].parent == NIL {
        root := n;
      }
      tree := Node(n, key, (), h.0, h.1);
    }

    /** Erase(key): Find; when the splayed root holds `key`, its subtrees lose
        their parent, are merged, and the merge becomes the root.  `thrown`
        reports the source's "key does not exist" exception, after which the
        tree stays as the search left it. */
    method Erase(key: int) returns (thrown: bool)
      requires Valid()
      modifies this
      ensures Valid() && Contents() == old(Contents()) - {key}
      ensures thrown <==> key !in old(Contents())
      ensures tree == Erased(old(tree), key) && data == old(data)
    {
      ghost var t := tree;
      LinkedIds(t, NIL, slots);
      ErasedSpec(t, key, data);
      var x := FindAt(root, key, t, []);
      if x == NIL {
        StoredIdsIn(t, |data|);
        MapOfKeys(Elems(t), data);
        return true;
      }
      ghost var p := SearchPath(t, key);
      assert [] + p == p;
      ghost var s := Splayed(t, p);
      SplayedSpec(t, p);
      FoundSpec(t, key, data);
      if slots[x].key != key {
        tree := s;
        return true;
      }
      RemoveRoot(x, s);
      tree := Merged(s.left, s.right);
      thrown := false;
    }

    /** Erase's work once the splayed root `x` holds the key: its subtrees lose
        their parent and are merged, the merge becomes the root, and `x` loses
        its links. */
    method RemoveRoot(x: int, ghost s: Shape)
      requires Linked(s, NIL, slots) && SearchTree(s) && s.Node? && x == s.id && root == x
      modifies this
      ensures Linked(Merged(s.left, s.right), NIL, slots) && root == Id(Merged(s.left, s.right))
      ensures |slots| == old(|slots|) && data == old(data) && tree == old(tree)
    {
      var lft, rgt := slots[x].left, slots[x].right;
      CutBothCells(s, slots);
      SetParent(lft, NIL);
      SetParent(rgt, NIL);
      RootHalves(s);
      var res := Merge(lft, rgt, s.left, s.right);
      if x == root {
        root := res;
      }
      MergedSpec(s.left, s.right);
      ClearLinks(Merged(s.left, s.right), slots, x);
      slots := slots[x := slots[x].(left := NIL)];
      slots := slots[x := slots[x].(right := NIL)];
    }

    /** Find(key): the walk for `key` splays the node it stops on to the root;
        the result is that node when it holds `key`, and NIL otherwise. */
    method Find(key: int) returns (r: int)
      requires Valid()
      modifies this
      ensures Valid() && Contents() == old(Contents())
      ensures tree == Searched(old(tree), key) && data == old(data)
      ensures r != NIL <==> key in Contents()
      ensures r != NIL ==> 0 <= r < |data| && data[r] == Contents()[key]
    {
      ghost var t := tree;
      LinkedIds(t, NIL, slots);
      r := FindAt(root, key, t, []);
      if r == NIL {
        StoredIdsIn(t, |data|);
        MapOfKeys(Elems(t), data);
        return;
      }
      ghost var p := SearchPath(t, key);
      assert [] + p == p;
      SplayedSpec(t, p);
      FoundSpec(t, key, data);
      tree := Searched(t, key);
      if slots[r].key != key {
        r := NIL;
      }
    }

    /** InOrder: hands every node below `x` to the callback, in key order; the
        model returns the nodes in the order they are handed over. */
    method InOrder(x: int, ghost p: Path) returns (visited: seq<int>)
      requires Valid() && Reaches(tree, p) && x == Id(At(tree, p))
      ensures |visited| == |Elems(At(tree, p))|
      ensures forall i :: 0 <= i < |visited| ==> visited[i] == Elems(At(tree, p))[i].0
      decreases Count(At(tree, p))
    {
      visited := [];
      if x != NIL {
        NodeInArena(tree, slots, p);
        AtChild(tree, p, L);
        AtChild(tree, p, R);
        var a := InOrder(slots[x].left, p + [L]);
        var b := InOrder(slots[x].right, p + [R]);
        visited := a + [x] + b;
        ghost var u := At(tree, p);
        assert Elems(u) == Elems(u.left) + [(x, u.key)] + Elems(u.right);
      }
    }
  }
}
