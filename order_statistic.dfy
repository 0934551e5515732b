/** The order-statistic red-black tree (OrderStatisticBST).

    The nodes live in an arena: `slots[i]` holds key, colour and the parent,
    left and right links of node `i` (NIL for a null pointer), `size[i]` its
    subtree size and `data[i]` its payload.  The ghost field `tree` is the
    tree the links describe; every operation is specified on it. */
module OrderStatistic {
  import opened BinaryTrees
  import opened Arena
  import opened RedBlack
  import opened RedBlackDeletion
  import opened SizedTrees
  import opened RedBlackArena

  /** Stepping down to a child: a right step passes the left subtree and the node itself. */
  lemma BeforeCount(t: RBTree, p: Path, d: Dir)
    requires Reaches(t, p) && At(t, p).Node?
    ensures |Before(t, p + [d])| == |Before(t, p)| + (if d == L then 0 else Count(At(t, p).left) + 1)
  {
    BeforeChild(t, p, d);
    CountElems(At(t, p).left);
  }

  /** The sizes `size'` a rotation at `p` leaves behind are those of the rotated tree. */
  lemma RotateSized(t: RBTree, p: Path, d: Dir, size: seq<int>, size': seq<int>)
    requires Reaches(t, p) && Distinct(t) && Sized(t, size, {})
    requires At(t, p).Node? && Child(At(t, p), Other(d)).Node?
    requires var x := At(t, p); var y := Child(x, Other(d));
      x.id < |size| && y.id < |size| &&
      size' == size[y.id := size[x.id]][x.id := Count(Child(x, d)) + Count(Child(y, d)) + 1]
    ensures Sized(RotAt(t, p, d), size', {})
  {
    SizedRotAt(t, p, d, size);
  }

  /** InsertNode at a null link: node `n`, the last cell, hangs at the empty
      position `q` under `par`, on side `side`. */
  lemma AttachState(t: RBTree, s: seq<Slot<Color>>, size: seq<int>, q: Path, n: int, par: int, side: Dir)
    requires Linked(t, NIL, s) && Distinct(t) && 0 <= n == |s| - 1 && n < |size|
    requires s[n] == Slot(s[n].key, Red, NIL, NIL, NIL) && size[n] == 1
    requires forall i :: i in Ids(t) ==> i < n
    requires Reaches(t, q) && At(t, q).Leaf?
    requires par == (if q == [] then NIL else Id(At(t, Parent(q))))
    requires q != [] ==> side == Last(q)
    requires Sized(t, size, Anc(t, q))
    ensures par != NIL ==> 0 <= par < |s| && par != n
    ensures var u := Node(n, s[n].key, Red, Leaf, Leaf); var t' := Put(t, q, u);
      var s1 := if par == NIL then s else s[par := SetLink(s[par], side, n)];
      Linked(t', NIL, s1[n := s[n].(parent := par)]) && Distinct(t') && Sized(t', size, {}) &&
      Id(t') == (if par == NIL then n else Id(t)) && At(t', q) == u
  {
    var s0 := s[..n];
    LinkedFrame(t, NIL, s, s0);
    var u := Node(n, s[n].key, Red, Leaf, Leaf);
    if q != [] {
      ParentLink(t, s0, q);
    }
    var s1 := if par == NIL then s else s[par := SetLink(s[par], side, n)];
    var s2 := s1[n := s[n].(parent := par)];
    LinkedAttach(t, s0, q, s[n].key, Red, s2);
    AncIds(t, q);
    SizedGrow(t, q, u, size);
    if q != [] { PutKeepsRoot(t, q, u); }
    AtPut(t, q, u);
  }

  /** One step of InsertNode's descent from the node at `q`: its size counts the
      new node, and the search goes on toward the side of the new key. */
  lemma DescendState(t: RBTree, s: seq<Slot<Color>>, size: seq<int>, q: Path, n: int)
    requires Linked(t, NIL, s) && Distinct(t) && Ordered(t) && 0 <= n < |s|
    requires forall i :: i in Ids(t) ==> i < n
    requires Reaches(t, q) && At(t, q).Node?
    requires Sized(t, size, Anc(t, q)) && Between(t, q, s[n].key)
    ensures At(t, q).id < |s| && At(t, q).id < |size| && At(t, q).id != n
    ensures var x := At(t, q); var d := if s[n].key > s[x.id].key then R else L;
      s[x.id].key == x.key &&
      Reaches(t, q + [d]) && Link(s[x.id], d) == Id(At(t, q + [d])) &&
      Parent(q + [d]) == q && Last(q + [d]) == d &&
      Sized(t, size[x.id := size[x.id] + 1], Anc(t, q + [d])) &&
      Between(t, q + [d], s[n].key) && Count(At(t, q + [d])) < Count(At(t, q))
  {
    var x := At(t, q);
    NodeInArena(t, s, q);
    AncIds(t, q);
    IdIn(x);
    IdsAt(t, q);
    SizedAt(t, q, size, Anc(t, q));
    SizedInc(t, size, Anc(t, q), x.id);
    var d := if s[n].key > s[x.id].key then R else L;
    AtChild(t, q, d);
    AncChild(t, q, d);
    BetweenChild(t, q, s[n].key);
    assert Link(s[x.id], d) == Id(Child(x, d)) by { if d == L { } else { } }
    assert Count(Child(x, d)) < Count(x) by { if d == L { } else { } }
  }

  /** Node::MoveTo on the ghost tree: the node at `q` takes key `k`; its
      links, colour and size stay, and only its in-order element changes. */
  lemma MoveToState(t: RBTree, s: seq<Slot<Color>>, size: seq<int>, q: Path, k: int)
    requires Linked(t, NIL, s) && Distinct(t) && Sized(t, size, {}) && At(t, q).Node?
    ensures var x := At(t, q); var t' := Put(t, q, x.(key := k)); var i := |Before(t, q)| + Count(x.left);
      Reaches(t, q) && x.id < |s| &&
      Linked(t', NIL, s[x.id := s[x.id].(key := k)]) && Distinct(t') && Sized(t', size, {}) &&
      Id(t') == Id(t) && Reaches(t', q) && At(t', q) == x.(key := k) &&
      i < |Elems(t)| && Elems(t)[i] == (x.id, x.key) && Elems(t') == Elems(t)[i := (x.id, k)] &&
      (IsRB(t, NIL) ==> IsRB(t', NIL))
  {
    var x := At(t, q);
    var u := x.(key := k);
    NodeInArena(t, s, q);
    LinkedRelabel(t, s, q, k, x.info);
    assert x.(key := k, info := x.info) == u;
    assert s[x.id].(key := k, info := x.info) == s[x.id].(key := k);
    DistinctAt(t, q);
    DistinctPut(t, q, u);
    SizedAt(t, q, size, {});
    SizedSwap(t, q, u, size, size);
    if q != [] { PutKeepsRoot(t, q, u); }
    AtPut(t, q, u);
    ElemsIndex(t, q);
    RekeyElems(t, q, k);
    RekeyRB(t, q, k, NIL);
  }

  /** Node::ReplaceIfNotNull on the ghost tree: the only child `c` of the node
      at `q` takes the node's place; the node's ancestors are left one ahead. */
  lemma SpliceState(t: RBTree, s: seq<Slot<Color>>, size: seq<int>, q: Path)
    requires Linked(t, NIL, s) && Distinct(t) && Sized(t, size, {}) && q != []
    requires At(t, q).Node? && (At(t, q).left.Leaf? || At(t, q).right.Leaf?) && OnlyChild(At(t, q)).Node?
    ensures var x, c, g := At(t, q), OnlyChild(At(t, q)), At(t, Parent(q));
      Reaches(t, q) && g.Node? && x.id < |s| && c.id < |s| && g.id < |s| &&
      c.id != x.id && c.id != g.id && x.id != g.id &&
      s[x.id].parent == g.id && (s[g.id].left == x.id <==> Last(q) == L)
    ensures var x, c, g := At(t, q), OnlyChild(At(t, q)), At(t, Parent(q));
      var s' := s[g.id := SetLink(s[g.id], Last(q), c.id)][c.id := s[c.id].(parent := g.id)];
      var t' := Put(t, q, c);
      Linked(t', NIL, s'[x.id := s'[x.id].(left := NIL, right := NIL)]) && Distinct(t') &&
      Ids(t') == Ids(t) - {x.id} && Id(t') == Id(t) &&
      Sized(t', size, Anc(t', q)) && Reaches(t', q) && At(t', q) == c &&
      At(t', Parent(q)).Node? && At(t', Parent(q)).id == g.id
  {
    var x, c, g := At(t, q), OnlyChild(At(t, q)), At(t, Parent(q));
    NodeInArena(t, s, q);
    AtChild(t, q, L);
    AtChild(t, q, R);
    var dc := if x.left.Node? then L else R;
    NodeInArena(t, s, q + [dc]);
    DistinctAt(t, q);
    IdIn(x);
    IdIn(c);
    assert c.id != x.id && c.id != g.id;
    var s' := s[g.id := SetLink(s[g.id], Last(q), c.id)][c.id := s[c.id].(parent := g.id)];
    var s'' := s'[x.id := s'[x.id].(left := NIL, right := NIL)];
    LinkedSplice(t, s, q, s'');
    SizedAt(t, q, size, {});
    SizedAt(t, q + [dc], size, {});
    AncIds(t, q);
    IdsAt(t, q + [dc]);
    IdsAt(t, q);
    assert Ids(c) <= Ids(x);
    SizedShrink(t, q, c, size);
    AncPut(t, q, c);
    PutAbove(t, q, c);
    AtPut(t, q, c);
    PutKeepsRoot(t, q, c);
  }

  /** The destructor's first step, `parent->left = nullptr` or `parent->right =
      nullptr`, on the ghost tree: the childless node at `q` goes, and its
      ancestors are left one ahead. */
  lemma UnlinkState(t: RBTree, s: seq<Slot<Color>>, size: seq<int>, q: Path)
    requires Linked(t, NIL, s) && Distinct(t) && Sized(t, size, {}) && q != []
    requires At(t, q).Node? && At(t, q).left.Leaf? && At(t, q).right.Leaf?
    ensures var n, g := At(t, q).id, At(t, Parent(q)); var t' := Put(t, q, Leaf);
      Reaches(t, q) && g.Node? && g.id < |s| && n < |s| && s[n].parent == g.id &&
      (s[g.id].left == n <==> Last(q) == L) && (s[g.id].right == n <==> Last(q) == R) &&
      Linked(t', NIL, s[g.id := SetLink(s[g.id], Last(q), NIL)]) && Distinct(t') && Id(t') == Id(t) &&
      Ids(t') == Ids(t) - {n} && Sized(t', size, Anc(t', q)) && Reaches(t', q) &&
      At(t', Parent(q)).Node? && At(t', Parent(q)).id == g.id
  {
    var g := At(t, Parent(q));
    NodeInArena(t, s, q);
    LinkedUnlink(t, s, q, s[g.id := SetLink(s[g.id], Last(q), NIL)]);
    SizedShrink(t, q, Leaf, size);
    AncPut(t, q, Leaf);
    PutAbove(t, q, Leaf);
    PutKeepsRoot(t, q, Leaf);
  }

  /** One turn of the destructor's walk up: `parent->size--` on the parent of
      `r`, which catches up with the tree, then on to the parent's parent. */
  lemma SizeWalkStep(t: RBTree, s: seq<Slot<Color>>, size: seq<int>, r: Path)
    requires Linked(t, NIL, s) && Distinct(t) && Reaches(t, r) && r != [] && |size| == |s|
    requires Sized(t, size, Anc(t, r))
    ensures var g := At(t, Parent(r));
      g.Node? && g.id < |s| && Reaches(t, Parent(r)) &&
      s[g.id].parent == (if Parent(r) == [] then NIL else Id(At(t, Parent(Parent(r))))) &&
      Sized(t, size[g.id := size[g.id] - 1], Anc(t, Parent(r)))
  {
    ReachesPrefix(t, r, |r| - 1);
    var g := At(t, Parent(r));
    NodeInArena(t, s, Parent(r));
    AncParent(t, r);
    SizedDec(t, size, Anc(t, r), g.id);
  }

  class OrderStatisticBST<T> {
    var slots: seq<Slot<Color>>
    var size: seq<int>
    var data: seq<T>
    var root: int
    ghost var tree: RBTree

    /** The links realise `tree`, whose ids are distinct; `root` is its root. */
    ghost predicate LinkInv()
      reads this
    {
      Linked(tree, NIL, slots) && Distinct(tree) && root == Id(tree) &&
      |size| == |slots| && |data| == |slots|
    }

    /** ... and every node stores the size of its subtree. */
    ghost predicate Inv()
      reads this
    {
      LinkInv() && Sized(tree, size, {})
    }

    /** ... and the tree is a red-black search tree. */
    ghost predicate Valid()
      reads this
    {
      Inv() && IsRB(tree, NIL) && Ordered(tree)
    }

    /** The node with index `x` sits at path `p`. */
    ghost predicate IsAt(x: int, p: Path)
      reads this
    {
      At(tree, p).Node? && At(tree, p).id == x
    }

    /** The (key, payload) pairs in order. */
    ghost function Contents(): seq<(int, T)>
      reads this
      requires LinkInv()
    {
      LinkedIds(tree, NIL, slots);
      ElemIds(tree);
      Entries(Elems(tree), data)
    }

    constructor ()
      ensures Valid() && Contents() == []
    {
      slots, size, data, root := [], [], [], NIL;
      tree := Leaf;
    }

    // -------------------------------------------------------------------
    // Node helpers

    /** LeftSize / RightSize: the size of a child, 0 for an absent one. */
    function LeftSize(x: int, ghost p: Path): (r: int)
      reads this
      requires Inv() && IsAt(x, p)
      ensures r == Count(At(tree, p).left)
    {
      NodeInArena(tree, slots, p);
      SizedAt(tree, p, size, {});
      if slots[x].left != NIL then size[slots[x].left] else 0
    }

    function RightSize(x: int, ghost p: Path): (r: int)
      reads this
      requires Inv() && IsAt(x, p)
      ensures r == Count(At(tree, p).right)
    {
      NodeInArena(tree, slots, p);
      SizedAt(tree, p, size, {});
      if slots[x].right != NIL then size[slots[x].right] else 0
    }

    /** The grandparent, or NIL when there is none. */
    function GrandFather(n: int, ghost p: Path): (g: int)
      reads this
      requires LinkInv() && (n == NIL || IsAt(n, p))
      ensures g == (if n == NIL || |p| < 2 then NIL else Id(At(tree, Parent(Parent(p)))))
      ensures g == NIL <==> n == NIL || |p| < 2
    {
      if n == NIL then NIL
      else
        NodeInArena(tree, slots, p);
        if slots[n].parent == NIL then NIL
        else
          NodeInArena(tree, slots, Parent(p));
          assert Parent(p) != [] ==> Parent(Parent(p)) == p[..|p| - 2];
          slots[slots[n].parent].parent
    }

    /** The parent's brother, or NIL. */
    function Uncle(n: int, ghost p: Path): (u: int)
      reads this
      requires LinkInv() && (n == NIL || IsAt(n, p))
      ensures u == (if n == NIL || |p| < 2 then NIL else Id(At(tree, Sibling(Parent(p)))))
    {
      var g := GrandFather(n, p);
      if g == NIL then NIL
      else
        NodeInArena(tree, slots, p);
        NodeInArena(tree, slots, Parent(p));
        SiblingInArena(tree, slots, Parent(p));
        if slots[n].parent == slots[g].left then slots[g].right else slots[g].left
    }

    /** The brother, or NIL. */
    function Brother(n: int, ghost p: Path): (b: int)
      reads this
      requires LinkInv() && (n == NIL || IsAt(n, p))
      ensures b == (if n == NIL || p == [] then NIL else Id(At(tree, Sibling(p))))
    {
      if n == NIL then NIL
      else
        NodeInArena(tree, slots, p);
        if slots[n].parent == NIL then NIL
        else
          SiblingInArena(tree, slots, p);
          if n == slots[slots[n].parent].left then slots[slots[n].parent].right
          else slots[slots[n].parent].left
    }

    // -------------------------------------------------------------------
    // Recolouring and rotations

    /** toRed / toBlack. */
    method SetColor(x: int, c: Color, ghost p: Path)
      requires LinkInv() && IsAt(x, p)
      modifies this
      ensures LinkInv() && tree == Paint(old(tree), p, c)
      ensures 0 <= x < |old(slots)| && slots == old(slots)[x := old(slots)[x].(info := c)]
      ensures size == old(size) && data == old(data) && root == old(root)
      ensures old(Sized(tree, size, {})) ==> Sized(tree, size, {})
      ensures Reaches(tree, p) && At(tree, p) == old(At(tree, p)).(info := c)
      ensures Elems(tree) == old(Elems(tree)) && Ids(tree) == old(Ids(tree))
      ensures old(Sized(tree, size, Anc(tree, p))) ==> Sized(tree, size, Anc(tree, p))
      ensures p != [] ==> Id(At(tree, Parent(p))) == old(Id(At(tree, Parent(p))))
    {
      NodeInArena(tree, slots, p);
      LinkedRelabel(tree, slots, p, slots[x].key, c);
      PaintShape(tree, p, c);
      ShapeElems(Paint(tree, p, c), tree);
      ShapeSym(Paint(tree, p, c), tree);
      if Sized(tree, size, {}) { SizedShape(tree, Paint(tree, p, c), size, {}); }
      PaintElems(tree, p, c);
      AncShape(Paint(tree, p, c), tree, p);
      if Sized(tree, size, Anc(tree, p)) { SizedShape(tree, Paint(tree, p, c), size, Anc(tree, p)); }
      if p != [] { ShapeAt(Paint(tree, p, c), tree, Parent(p)); }
      assert At(tree, p).(key := slots[x].key, info := c) == At(tree, p).(info := c);
      slots := slots[x := slots[x].(info := c)];
      tree := Paint(tree, p, c);
    }

    /** RotateLeft (`d == L`) and RotateRight (`d == R`): the child on the other
        side rises into the node's place, the sizes of the two are recomputed,
        and `root` changes only when the node was the root. */
    method Rotate(x: int, d: Dir, ghost p: Path)
      requires Inv() && IsAt(x, p) && Child(At(tree, p), Other(d)).Node?
      modifies this
      ensures Inv() && tree == RotAt(old(tree), p, d)
      ensures data == old(data) && |slots| == old(|slots|)
      ensures p != [] ==> root == old(root)
      ensures Elems(tree) == old(Elems(tree))
      ensures Reaches(tree, p) && At(tree, p) == Rot(old(At(tree, p)), d)
    {
      ghost var t, z0 := tree, size;
      RotateLinks(tree, slots, p, d);
      Resize(x, d, p);
      Relink(x, d);
      tree := RotAt(t, p, d);
      RotateSized(t, p, d, z0, size);
      RotAtElemsOf(t, p, d);
    }

    /** The size updates of a rotation: the pivot takes the node's size, and the
        node's is recomputed from its two new children. */
    method Resize(x: int, d: Dir, ghost p: Path)
      requires Inv() && IsAt(x, p) && Child(At(tree, p), Other(d)).Node?
      modifies this
      ensures slots == old(slots) && data == old(data) && tree == old(tree) && root == old(root)
      ensures var u := At(tree, p); var y := Child(u, Other(d));
        0 <= x < |old(size)| && 0 <= y.id < |old(size)| &&
        size == old(size)[y.id := old(size)[x]][x := Count(Child(u, d)) + Count(Child(y, d)) + 1]
    {
      RotateCellsIn(tree, slots, p, d);
      var y := Link(slots[x], Other(d));
      var sx := if d == L then LeftSize(x, p) else RightSize(x, p);
      var sy := if d == L then LeftSize(y, p + [Other(d)]) else RightSize(y, p + [Other(d)]);
      size := size[y := size[x]][x := sx + sy + 1];
    }

    /** The pointer updates of a rotation, in the source's order: the pivot takes
        the node's parent, the grandparent's link (or `root`) moves to the pivot,
        the pivot's inner child moves over to the node, and the node goes under
        the pivot. */
    method Relink(x: int, d: Dir)
      requires 0 <= x < |slots| && 0 <= Link(slots[x], Other(d)) < |slots|
      requires slots[x].parent != NIL ==> 0 <= slots[x].parent < |slots|
      requires var b := Link(slots[Link(slots[x], Other(d))], d); b != NIL ==> 0 <= b < |slots|
      modifies this
      ensures slots == RotateCells(old(slots), x, d)
      ensures root == if old(slots)[x].parent == NIL then Link(old(slots)[x], Other(d)) else old(root)
      ensures size == old(size) && data == old(data) && tree == old(tree)
    {
      var y := Link(slots[x], Other(d));
      var b := Link(slots[y], d);
      var par := slots[x].parent;
      slots := slots[y := slots[y].(parent := par)];
      if par != NIL {
        if slots[par].left == x {
          slots := slots[par := slots[par].(left := y)];
        } else {
          slots := slots[par := slots[par].(right := y)];
        }
      } else {
        root := y;
      }
      slots := slots[x := SetLink(slots[x], Other(d), b)];
      if b != NIL {
        slots := slots[b := slots[b].(parent := x)];
      }
      slots := slots[x := slots[x].(parent := y)];
      slots := slots[y := SetLink(slots[y], d, x)];
    }

    method RotateLeft(x: int, ghost p: Path)
      requires Inv() && IsAt(x, p) && At(tree, p).right.Node?
      modifies this
      ensures Inv() && tree == RotAt(old(tree), p, L)
      ensures data == old(data) && |slots| == old(|slots|)
      ensures p != [] ==> root == old(root)
      ensures Elems(tree) == old(Elems(tree))
      ensures Reaches(tree, p) && At(tree, p) == Rot(old(At(tree, p)), L)
    {
      Rotate(x, L, p);
    }

    method RotateRight(x: int, ghost p: Path)
      requires Inv() && IsAt(x, p) && At(tree, p).left.Node?
      modifies this
      ensures Inv() && tree == RotAt(old(tree), p, R)
      ensures data == old(data) && |slots| == old(|slots|)
      ensures p != [] ==> root == old(root)
      ensures Elems(tree) == old(Elems(tree))
      ensures Reaches(tree, p) && At(tree, p) == Rot(old(At(tree, p)), R)
    {
      Rotate(x, R, p);
    }
    // -------------------------------------------------------------------
    // Insertion

    /** Insert: a new red node holding `key` and `value` goes where the search for
        `key` falls off the tree, in front of the nodes with an equal key, and the
        fixup restores the red-black rules.  The entries stay in key order. */
    method Insert(key: int, value: T)
      requires Valid()
      modifies this
      ensures Valid()
      ensures exists i :: (0 <= i <= |old(Contents())| &&
        Contents() == old(Contents())[..i] + [(key, value)] + old(Contents())[i..] &&
        (forall j :: 0 <= j < i ==> old(Contents())[j].0 < key) &&
        (forall j :: i <= j < |old(Contents())| ==> key <= old(Contents())[j].0))
    {
      var n;
      ghost var p, i;
      n, p, i := PlaceNew(key, value);
      ghost var e, c := Elems(tree), Contents();
      InsertCase1(n, p);
      assert Elems(tree) == e && Contents() == c;
    }

    /** The first half of Insert: a new red cell `n` is appended to the arena and
        hung at the empty link `p` where the search for `key` ends; the entries
        gain `(key, value)` at in-order position `i`. */
    method PlaceNew(key: int, value: T) returns (n: int, ghost p: Path, ghost i: nat)
      requires Valid()
      modifies this
      ensures Inv() && Ordered(tree) && InsertInv(tree, p) && IsAt(n, p)
      ensures i <= |old(Contents())| &&
        Contents() == old(Contents())[..i] + [(key, value)] + old(Contents())[i..] &&
        (forall j :: 0 <= j < i ==> old(Contents())[j].0 < key) &&
        (forall j :: i <= j < |old(Contents())| ==> key <= old(Contents())[j].0)
    {
      ghost var t, d0 := tree, data;
      LinkedIds(tree, NIL, slots);
      n := |slots|;
      slots := slots + [Slot(key, Red, NIL, NIL, NIL)];
      size := size + [1];
      data := data + [value];
      LinkedFrame(tree, NIL, old(slots), slots);
      SizedFrame(tree, old(size), size, {});
      BetweenRoot(tree, key);
      p := InsertNode(n, root, NIL, L, []);
      ghost var u := Node(n, key, Red, Leaf, Leaf);
      InsertStart(t, p, u);
      AtPut(t, p, u);
      InsertEntries(t, p, n, key, d0, value);
      i := |Before(t, p)|;
      assert Elems(tree) == Elems(Put(t, p, u)) && data == d0 + [value];
    }

    /** InsertNode: walks down from the link `_root` (the root when `par` is NIL,
        otherwise `par`'s link on side `side`), counting the new node into the size
        of every node it passes, and hangs node `n` at the empty link it reaches:
        a key greater than a node's goes right, any other key (an equal one too) left. */
    method InsertNode(n: int, cur: int, par: int, side: Dir, ghost q: Path) returns (ghost p: Path)
      requires LinkInv() && 0 <= n == |slots| - 1 && slots[n] == Slot(slots[n].key, Red, NIL, NIL, NIL)
      requires forall i :: i in Ids(tree) ==> i < n
      requires size[n] == 1 && Ordered(tree)
      requires Reaches(tree, q) && cur == Id(At(tree, q))
      requires par == (if q == [] then NIL else Id(At(tree, Parent(q))))
      requires q != [] ==> side == Last(q)
      requires Sized(tree, size, Anc(tree, q)) && Between(tree, q, slots[n].key)
      modifies this
      ensures Reaches(old(tree), p) && At(old(tree), p).Leaf? && Between(old(tree), p, old(slots)[n].key)
      ensures tree == Put(old(tree), p, Node(n, old(slots)[n].key, Red, Leaf, Leaf))
      ensures Inv() && data == old(data) && |slots| == old(|slots|)
      decreases Count(At(tree, q))
    {
      if cur == NIL {
        Attach(n, par, side, q);
        p := q;
      } else {
        var d := Descend(n, cur, q);
        p := InsertNode(n, Link(slots[cur], d), cur, d, q + [d]);
      }
    }

    /** One step of InsertNode's descent: `root->size++`, and the side the new
        key goes to (right when it is greater than `cur`'s, left otherwise). */
    method Descend(n: int, cur: int, ghost q: Path) returns (d: Dir)
      requires LinkInv() && 0 <= n < |slots| && forall i :: i in Ids(tree) ==> i < n
      requires Ordered(tree) && Reaches(tree, q) && cur == Id(At(tree, q)) && cur != NIL
      requires Sized(tree, size, Anc(tree, q)) && Between(tree, q, slots[n].key)
      modifies this
      ensures tree == old(tree) && slots == old(slots) && data == old(data) && root == old(root)
      ensures 0 <= cur < |slots| == |old(size)| && d == (if slots[n].key > slots[cur].key then R else L)
      ensures size == old(size)[cur := old(size)[cur] + 1] && cur != n
      ensures Reaches(tree, q + [d]) && Link(slots[cur], d) == Id(At(tree, q + [d]))
      ensures Parent(q + [d]) == q && Last(q + [d]) == d
      ensures Sized(tree, size, Anc(tree, q + [d])) && Between(tree, q + [d], slots[n].key)
      ensures Count(At(tree, q + [d])) < Count(At(tree, q))
    {
      DescendState(tree, slots, size, q, n);
      size := size[cur := size[cur] + 1];
      d := if slots[n].key > slots[cur].key then R else L;
    }

    /** The end of InsertNode: `_root = node` and `node->parent = root_parent`. */
    method Attach(n: int, par: int, side: Dir, ghost q: Path)
      requires LinkInv() && 0 <= n == |slots| - 1 && slots[n] == Slot(slots[n].key, Red, NIL, NIL, NIL)
      requires forall i :: i in Ids(tree) ==> i < n
      requires size[n] == 1 && Reaches(tree, q) && At(tree, q).Leaf?
      requires par == (if q == [] then NIL else Id(At(tree, Parent(q))))
      requires q != [] ==> side == Last(q)
      requires Sized(tree, size, Anc(tree, q))
      modifies this
      ensures tree == Put(old(tree), q, Node(n, old(slots)[n].key, Red, Leaf, Leaf))
      ensures Inv() && data == old(data) && |slots| == old(|slots|)
    {
      AttachState(tree, slots, size, q, n, par, side);
      ghost var k := slots[n].key;
      if par == NIL {
        root := n;
      } else {
        slots := slots[par := SetLink(slots[par], side, n)];
      }
      slots := slots[n := slots[n].(parent := par)];
      tree := Put(tree, q, Node(n, k, Red, Leaf, Leaf));
    }

    /** InsertCase1: the root turns black; any other node goes on to case 2. */
    method InsertCase1(n: int, ghost p: Path)
      requires Inv() && InsertInv(tree, p) && IsAt(n, p)
      modifies this
      ensures Inv() && IsRB(tree, NIL) && Elems(tree) == old(Elems(tree))
      ensures data == old(data) && |slots| == old(|slots|)
      decreases |p|, 5
    {
      NodeInArena(tree, slots, p);
      if slots[n].parent == NIL {
        InsertCase1Done(tree);
        SetColor(n, Black, p);
      } else {
        InsertCase2(n, p);
      }
    }

    /** InsertCase2: under a black parent nothing is left to repair. */
    method InsertCase2(n: int, ghost p: Path)
      requires Inv() && InsertInv(tree, p) && IsAt(n, p) && p != []
      modifies this
      ensures Inv() && IsRB(tree, NIL) && Elems(tree) == old(Elems(tree))
      ensures data == old(data) && |slots| == old(|slots|)
      decreases |p|, 4
    {
      NodeInArena(tree, slots, p);
      NodeInArena(tree, slots, Parent(p));
      if slots[slots[n].parent].info != Black {
        InsertCase3(n, p);
      } else {
        InsertCase2Done(tree, p);
      }
    }

    /** InsertCase3: a red uncle; parent and uncle turn black, the grandparent red,
        and the repair starts over at the grandparent.  Otherwise case 4. */
    method InsertCase3(n: int, ghost p: Path)
      requires Inv() && InsertInv(tree, p) && IsAt(n, p) && p != []
      requires ColorOf(At(tree, Parent(p)), NIL) == Red
      modifies this
      ensures Inv() && IsRB(tree, NIL) && Elems(tree) == old(Elems(tree))
      ensures data == old(data) && |slots| == old(|slots|)
      decreases |p|, 3
    {
      InsertGrand(tree, p);
      var uncle := Uncle(n, p);
      var grandFather := GrandFather(n, p);
      NodeInArena(tree, slots, p);
      if At(tree, Sibling(Parent(p))).Node? { NodeInArena(tree, slots, Sibling(Parent(p))); }
      if uncle != NIL && slots[uncle].info == Red {
        InsertCase3Step(tree, p);
        SetColor(slots[n].parent, Black, Parent(p));
        SetColor(uncle, Black, Sibling(Parent(p)));
        SetColor(grandFather, Red, Parent(Parent(p)));
        InsertCase1(grandFather, Parent(Parent(p)));
      } else {
        InsertCase4(n, p);
      }
    }

    /** InsertCase4: an inner grandchild; rotating the parent toward the
        grandparent's side turns the old parent into an outer grandchild, which
        case 5 repairs. */
    method InsertCase4(n: int, ghost p: Path)
      requires Inv() && InsertInv(tree, p) && IsAt(n, p) && |p| >= 2
      requires ColorOf(At(tree, Parent(p)), NIL) == Red
      requires ColorOf(At(tree, Sibling(Parent(p))), NIL) == Black
      modifies this
      ensures Inv() && IsRB(tree, NIL) && Elems(tree) == old(Elems(tree))
      ensures data == old(data) && |slots| == old(|slots|)
      decreases |p|, 2
    {
      InsertLocal(tree, p);
      NodeInArena(tree, slots, p);
      NodeInArena(tree, slots, Parent(p));
      var node := n;
      var parent := slots[n].parent;
      ghost var P, G := Parent(p), Parent(Parent(p));
      if n == slots[parent].right && parent == slots[slots[parent].parent].left {
        InsertCase4Step(tree, p);
        RotateLeft(parent, P);
        NodeInArena(tree, slots, P);
        node := slots[node].left;
        InsertCase5(node, G + [L, L]);
      } else if n == slots[parent].left && parent == slots[slots[parent].parent].right {
        InsertCase4Step(tree, p);
        RotateRight(parent, P);
        NodeInArena(tree, slots, P);
        node := slots[node].right;
        InsertCase5(node, G + [R, R]);
      } else {
        InsertCase5(n, p);
      }
    }

    /** InsertCase5: an outer grandchild under a red parent and a black uncle.
        The parent turns black, the grandparent red, and the grandparent rotates
        away from the node. */
    method InsertCase5(n: int, ghost p: Path)
      requires Inv() && InsertCase5Pre(tree, p) && IsAt(n, p)
      modifies this
      ensures Inv() && IsRB(tree, NIL) && Elems(tree) == old(Elems(tree))
      ensures data == old(data) && |slots| == old(|slots|)
      decreases |p|, 1
    {
      InsertCase5Done(tree, p);
      TurnCase5(n, p);
    }

    /** The recolouring and the rotation of InsertCase5, as one change of the tree. */
    method TurnCase5(n: int, ghost p: Path)
      requires Inv() && InsertCase5Pre(tree, p) && IsAt(n, p)
      modifies this
      ensures Inv() && tree == Case5Turned(old(tree), p)
      ensures data == old(data) && |slots| == old(|slots|)
    {
      InsertLocal(tree, p);
      InsertCase5Done(tree, p);
      ghost var P, G := Parent(p), Parent(Parent(p));
      NodeInArena(tree, slots, p);
      NodeInArena(tree, slots, P);
      var grandFather := GrandFather(n, p);
      var parent := slots[n].parent;
      SetColor(parent, Black, P);
      SetColor(grandFather, Red, G);
      if n == slots[slots[n].parent].left {
        RotateRight(grandFather, G);
      } else {
        RotateLeft(grandFather, G);
      }
    }


    // -------------------------------------------------------------------
    // Queries

    /** MinNode: the leftmost node below `x` (NIL for NIL), which comes first
        in key order among the nodes below `x`. */
    method MinNode(x: int, ghost p: Path) returns (m: int, ghost q: Path)
      requires LinkInv() && Reaches(tree, p) && x == Id(At(tree, p))
      ensures m == NIL <==> x == NIL
      ensures m != NIL ==> (IsAt(m, q) && |q| >= |p| && q[..|p|] == p && At(tree, q).left.Leaf? &&
        |Elems(At(tree, p))| > 0 && Elems(At(tree, p))[0] == (m, At(tree, q).key))
    {
      m, q := x, p;
      if m != NIL {
        ghost var rest: seq<(nat, int)> := [];
        NodeInArena(tree, slots, q);
        while slots[m].left != NIL
          invariant IsAt(m, q) && |q| >= |p| && q[..|p|] == p && 0 <= m < |slots|
          invariant slots[m].left == Id(At(tree, q).left)
          invariant Elems(At(tree, p)) == Elems(At(tree, q)) + rest
          decreases Count(At(tree, q))
        {
          ghost var u := At(tree, q);
          NodeInArena(tree, slots, q);
          LeftStep(tree, q, Elems(At(tree, p)), rest);
          PrefixAppend(q, L, |p|);
          rest := [(m, u.key)] + Elems(u.right) + rest;
          m, q := slots[m].left, q + [L];
          NodeInArena(tree, slots, q);
        }
      }
    }

    /** MaxNode: the rightmost node below `x` (NIL for NIL), which comes last
        in key order among the nodes below `x`. */
    method MaxNode(x: int, ghost p: Path) returns (m: int, ghost q: Path)
      requires LinkInv() && Reaches(tree, p) && x == Id(At(tree, p))
      ensures m == NIL <==> x == NIL
      ensures m != NIL ==> (IsAt(m, q) && |q| >= |p| && q[..|p|] == p && At(tree, q).right.Leaf? &&
        |Elems(At(tree, p))| > 0 && Elems(At(tree, p))[|Elems(At(tree, p))| - 1] == (m, At(tree, q).key))
    {
      m, q := x, p;
      if m != NIL {
        ghost var rest: seq<(nat, int)> := [];
        NodeInArena(tree, slots, q);
        while slots[m].right != NIL
          invariant IsAt(m, q) && |q| >= |p| && q[..|p|] == p && 0 <= m < |slots|
          invariant slots[m].right == Id(At(tree, q).right)
          invariant Elems(At(tree, p)) == rest + Elems(At(tree, q))
          decreases Count(At(tree, q))
        {
          ghost var u := At(tree, q);
          NodeInArena(tree, slots, q);
          RightStep(tree, q, Elems(At(tree, p)), rest);
          PrefixAppend(q, R, |p|);
          rest := rest + Elems(u.left) + [(m, u.key)];
          m, q := slots[m].right, q + [R];
          NodeInArena(tree, slots, q);
        }
      }
    }

    /** Find(key, _root): walks down from `x`, right past smaller keys and left
        otherwise, and stops at the first node holding `key`; NIL exactly when no
        node below `x` holds it. */
    method FindIn(key: int, x: int, ghost p: Path) returns (r: int, ghost q: Path)
      requires LinkInv() && Ordered(tree) && Reaches(tree, p) && x == Id(At(tree, p))
      ensures r == NIL <==> key !in Keys(At(tree, p))
      ensures r != NIL ==> IsAt(r, q) && At(tree, q).key == key && |q| >= |p|
    {
      r, q := x, p;
      OrderedAt(tree, p);
      if r != NIL { NodeInArena(tree, slots, q); }
      while r != NIL && slots[r].key != key
        invariant Reaches(tree, q) && r == Id(At(tree, q)) && |q| >= |p| && Ordered(At(tree, q))
        invariant r != NIL ==> (0 <= r < |slots| && slots[r] == SlotAt(tree, q))
        invariant key in Keys(At(tree, p)) <==> key in Keys(At(tree, q))
        decreases Count(At(tree, q))
      {
        ghost var d := if At(tree, q).key < key then R else L;
        FindDescend(tree, slots, q, key);
        if slots[r].key < key {
          r := slots[r].right;
        } else {
          r := slots[r].left;
        }
        q := q + [d];
      }
      if r == NIL {
        assert Keys(At(tree, q)) == [];
      } else {
        KeysNode(At(tree, q));
        assert key in Keys(At(tree, q));
      }
    }

    /** Find: the node holding `key`, NIL exactly when no entry has that key. */
    method Find(key: int) returns (r: int)
      requires Valid()
      ensures r == NIL <==> forall j :: 0 <= j < |Contents()| ==> Contents()[j].0 != key
      ensures r != NIL ==> 0 <= r < |slots| && slots[r].key == key && (key, data[r]) in Contents()
    {
      ghost var q;
      r, q := FindIn(key, root, []);
      ContentsKeys();
      if r != NIL {
        NodeInArena(tree, slots, q);
        ElemsIndex(tree, q);
        ghost var i := |Before(tree, q)| + Count(At(tree, q).left);
        assert Contents()[i] == (key, data[r]);
      }
    }

    /** The keys of the entries are the keys of the tree, in order. */
    lemma ContentsKeys()
      requires LinkInv()
      ensures |Contents()| == |Keys(tree)|
      ensures forall j :: 0 <= j < |Contents()| ==> Contents()[j].0 == Keys(tree)[j]
    {
      ghost var e := Elems(tree);
      forall j | 0 <= j < |e| ensures Keys(tree)[j] == e[j].1 { KeysOfIndex(e, j); }
    }

    /** FindByRank: the node of 1-based rank `rank` among the nodes below `x`
        in key order, NIL when the rank is out of range. */
    function FindByRank(x: int, rank: int, ghost p: Path): (r: int)
      reads this
      requires Inv() && Reaches(tree, p) && x == Id(At(tree, p))
      ensures r == (if 1 <= rank <= |Elems(At(tree, p))| then Elems(At(tree, p))[rank - 1].0 else NIL)
      decreases Count(At(tree, p))
    {
      if x == NIL then NIL
      else
        NodeInArena(tree, slots, p);
        AtChild(tree, p, L);
        AtChild(tree, p, R);
        var u := At(tree, p);
        CountElems(u.left);
        CountElems(u.right);
        var cur := LeftSize(x, p) + 1;
        if cur == rank then x
        else if rank < cur then
          assert 1 <= rank ==> Elems(u)[rank - 1] == Elems(u.left)[rank - 1];
          FindByRank(slots[x].left, rank, p + [L])
        else
          assert rank <= Count(u) ==> Elems(u)[rank - 1] == Elems(u.right)[rank - cur - 1];
          FindByRank(slots[x].right, rank - cur, p + [R])
    }

    /** Node::Rank: the 1-based position of node `x` among all nodes in key
        order, summed up on the walk from `x` to the root. */
    method Rank(x: int, ghost p: Path) returns (r: int)
      requires Inv() && IsAt(x, p)
      ensures 1 <= r <= |Elems(tree)| && Elems(tree)[r - 1].0 == x
    {
      var cur := x;
      ghost var q := p;
      NodeInArena(tree, slots, p);
      r := LeftSize(x, p) + 1;
      while slots[cur].parent != NIL
        invariant IsAt(cur, q) && 0 <= cur < |slots|
        invariant slots[cur].parent == (if q == [] then NIL else Id(At(tree, Parent(q))))
        invariant r == |Before(tree, p)| - |Before(tree, q)| + Count(At(tree, p).left) + 1
        decreases |q|
      {
        ghost var P := Parent(q);
        NodeInArena(tree, slots, q);
        NodeInArena(tree, slots, P);
        assert P + [Last(q)] == q;
        BeforeCount(tree, P, Last(q));
        if cur == slots[slots[cur].parent].right {
          r := r + LeftSize(slots[cur].parent, P) + 1;
        }
        cur := slots[cur].parent;
        q := P;
        NodeInArena(tree, slots, q);
      }
      NodeInArena(tree, slots, q);
      ElemsIndex(tree, p);
      CountElems(tree);
    }

    /** InOrder: hands every node below `x` to the callback, in key order; the
        model returns the nodes in the order they are handed over. */
    method InOrder(x: int, ghost p: Path) returns (visited: seq<int>)
      requires LinkInv() && Reaches(tree, p) && x == Id(At(tree, p))
      ensures |visited| == |Elems(At(tree, p))|
      ensures forall i :: 0 <= i < |visited| ==> visited[i] == Elems(At(tree, p))[i].0
      decreases Count(At(tree, p))
    {
      visited := [];
      if x != NIL {
        NodeInArena(tree, slots, p);
        AtChild(tree, p, L);
        AtChild(tree, p, R);
        var a := InOrder(slots[x].left, p + [L]);
        var b := InOrder(slots[x].right, p + [R]);
        visited := a + [x] + b;
        ghost var u := At(tree, p);
        assert Elems(u) == Elems(u.left) + [(x, u.key)] + Elems(u.right);
      }
    }

    // -------------------------------------------------------------------
    // Deletion fixup.  The subject `n` at `p` is black and one black level
    // short; `ph` is the childless node about to be unlinked (NIL when the
    // node was already spliced out), and it stays below the subject.

    /** DeleteCase1: at the root nothing is left to repair; otherwise case 2. */
    method DeleteCase1(n: int, ghost p: Path, ghost ph: int, ghost phn: RBTree)
      requires Inv() && DeleteInv(tree, p, ph) && IsAt(n, p) && PhantomIn(At(tree, p), ph, phn)
      modifies this
      ensures Inv() && IsRB(tree, ph) && Elems(tree) == old(Elems(tree)) && PhantomIn(tree, ph, phn)
      ensures data == old(data) && |slots| == old(|slots|)
      decreases Count(tree) - Count(At(tree, p)), 6
    {
      NodeInArena(tree, slots, p);
      CountAtMost(tree, p);
      if slots[n].parent != NIL {
        DeleteCase2(n, p, ph, phn);
      } else {
        DeleteCase1Done(tree, ph);
      }
    }

    /** DeleteCase2: a red brother; parent red, brother black and a rotation at
        the parent toward the subject give the subject a black brother.  Then case 3. */
    method DeleteCase2(n: int, ghost p: Path, ghost ph: int, ghost phn: RBTree)
      requires Inv() && DeleteInv(tree, p, ph) && IsAt(n, p) && PhantomIn(At(tree, p), ph, phn) && p != []
      modifies this
      ensures Inv() && IsRB(tree, ph) && Elems(tree) == old(Elems(tree)) && PhantomIn(tree, ph, phn)
      ensures data == old(data) && |slots| == old(|slots|)
      decreases Count(tree) - Count(At(tree, p)), 5
    {
      DeleteView(tree, slots, p, ph, phn);
      ghost var P, dX := Parent(p), Last(p);
      var brother := Brother(n, p);
      if slots[brother].info == Red {
        TurnRedBrother(n, brother, p, ph, phn);
        ghost var q := P + [dX, dX];
        DeleteCase3(n, q, ph, phn);
      } else {
        DeleteCase3(n, p, ph, phn);
      }
    }

    /** The recolouring and rotation of DeleteCase2: afterwards the subject, two
        levels below its old parent's place, has a black brother. */
    method TurnRedBrother(n: int, brother: int, ghost p: Path, ghost ph: int, ghost phn: RBTree)
      requires Inv() && DeleteInv(tree, p, ph) && IsAt(n, p) && PhantomIn(At(tree, p), ph, phn) && p != []
      requires IsAt(brother, Sibling(p)) && ColorOf(At(tree, Sibling(p)), ph) == Red
      modifies this
      ensures Inv() && data == old(data) && |slots| == old(|slots|)
      ensures var q := Parent(p) + [Last(p), Last(p)];
        DeleteInv(tree, q, ph) && IsAt(n, q) && At(tree, q) == old(At(tree, p)) &&
        ColorOf(At(tree, Sibling(q)), ph) == Black &&
        Elems(tree) == old(Elems(tree)) && Count(tree) == old(Count(tree))
    {
      ghost var t0, P := tree, Parent(p);
      DeleteCase2Step(tree, p, ph);
      DeleteView(tree, slots, p, ph, phn);
      var parent := slots[n].parent;
      SetColor(parent, Red, P);
      SetColor(brother, Black, Sibling(p));
      PaintId(t0, P, Red, P);
      PaintId(Paint(t0, P, Red), Sibling(p), Black, P);
      if n == slots[parent].left {
        RotateLeft(parent, P);
      } else {
        RotateRight(parent, P);
      }
    }

    /** DeleteCase3: black parent, brother and nephews; the brother turns red and
        the shortage moves up to the parent (case 1 again).  Otherwise case 4. */
    method DeleteCase3(n: int, ghost p: Path, ghost ph: int, ghost phn: RBTree)
      requires Inv() && DeleteInv(tree, p, ph) && IsAt(n, p) && PhantomIn(At(tree, p), ph, phn) && p != []
      requires ColorOf(At(tree, Sibling(p)), ph) == Black
      modifies this
      ensures Inv() && IsRB(tree, ph) && Elems(tree) == old(Elems(tree)) && PhantomIn(tree, ph, phn)
      ensures data == old(data) && |slots| == old(|slots|)
      decreases Count(tree) - Count(At(tree, p)), 4
    {
      DeleteView(tree, slots, p, ph, phn);
      var brother := Brother(n, p);
      var parent := slots[n].parent;
      var repaint :=
        slots[parent].info == Black && slots[brother].info == Black &&
        CellColor(slots, slots[brother].left) == Black &&
        CellColor(slots, slots[brother].right) == Black;
      if repaint {
        DeleteCase3Step(tree, p, ph);
        SetColor(brother, Red, Sibling(p));
        PaintId(old(tree), Sibling(p), Red, Parent(p));
        if ph != NIL { ContainsUp(tree, Parent(p), [Last(p)], phn); }
        CountAtMost(tree, Parent(p));
        DeleteCase1(parent, Parent(p), ph, phn);
      } else {
        DeleteCase4(n, p, ph, phn);
      }
    }

    /** DeleteCase4: red parent, black brother and nephews; swapping the colours
        of parent and brother finishes the repair.  Otherwise case 5. */
    method DeleteCase4(n: int, ghost p: Path, ghost ph: int, ghost phn: RBTree)
      requires Inv() && DeleteInv(tree, p, ph) && IsAt(n, p) && PhantomIn(At(tree, p), ph, phn) && p != []
      requires ColorOf(At(tree, Sibling(p)), ph) == Black
      requires !(ColorOf(At(tree, Parent(p)), ph) == Black && NephewsBlack(tree, p, ph))
      modifies this
      ensures Inv() && IsRB(tree, ph) && Elems(tree) == old(Elems(tree)) && PhantomIn(tree, ph, phn)
      ensures data == old(data) && |slots| == old(|slots|)
      decreases Count(tree) - Count(At(tree, p)), 3
    {
      DeleteView(tree, slots, p, ph, phn);
      var brother := Brother(n, p);
      var parent := slots[n].parent;
      var repaint :=
        slots[parent].info == Red && slots[brother].info == Black &&
        CellColor(slots, slots[brother].left) == Black &&
        CellColor(slots, slots[brother].right) == Black;
      if repaint {
        DeleteCase4Done(tree, p, ph);
        SetColor(brother, Red, Sibling(p));
        PaintId(old(tree), Sibling(p), Red, Parent(p));
        SetColor(parent, Black, Parent(p));
        if ph != NIL { ContainsAt(tree, p, phn); }
      } else {
        DeleteCase5(n, p, ph, phn);
      }
    }

    /** DeleteCase5: black brother whose near child is red and far child black;
        the two swap colours and a rotation at the brother makes the far child
        red.  Then case 6. */
    method DeleteCase5(n: int, ghost p: Path, ghost ph: int, ghost phn: RBTree)
      requires Inv() && DeleteInv(tree, p, ph) && IsAt(n, p) && PhantomIn(At(tree, p), ph, phn) && p != []
      requires ColorOf(At(tree, Sibling(p)), ph) == Black && !NephewsBlack(tree, p, ph)
      modifies this
      ensures Inv() && IsRB(tree, ph) && Elems(tree) == old(Elems(tree)) && PhantomIn(tree, ph, phn)
      ensures data == old(data) && |slots| == old(|slots|)
      decreases Count(tree) - Count(At(tree, p)), 2
    {
      DeleteView(tree, slots, p, ph, phn);
      ghost var S, dX := Sibling(p), Last(p);
      var brother := Brother(n, p);
      var parent := slots[n].parent;
      if slots[brother].info == Black {
        var leftChild :=
          n == slots[parent].left &&
          CellColor(slots, slots[brother].right) == Black &&
          CellColor(slots, slots[brother].left) == Red;
        var rightChild :=
          n == slots[parent].right &&
          CellColor(slots, slots[brother].left) == Black &&
          CellColor(slots, slots[brother].right) == Red;
        if leftChild {
          DeleteCase5Step(tree, p, ph);
          var nephew := slots[brother].left;
          SetColor(brother, Red, S);
          SetColor(nephew, Black, Near(p));
          PaintId(old(tree), S, Red, S);
          PaintId(Paint(old(tree), S, Red), Near(p), Black, S);
          RotateRight(brother, S);
        } else if rightChild {
          DeleteCase5Step(tree, p, ph);
          var nephew := slots[brother].right;
          SetColor(brother, Red, S);
          SetColor(nephew, Black, Near(p));
          PaintId(old(tree), S, Red, S);
          PaintId(Paint(old(tree), S, Red), Near(p), Black, S);
          RotateLeft(brother, S);
        }
      }
      DeleteCase6(n, p, ph, phn);
    }

    /** DeleteCase6: black brother with a red far child; the brother takes the
        parent's colour, parent and far child turn black, and a rotation at the
        parent toward the subject makes up the missing black level. */
    method DeleteCase6(n: int, ghost p: Path, ghost ph: int, ghost phn: RBTree)
      requires Inv() && DeleteCase6Pre(tree, p, ph) && IsAt(n, p) && PhantomIn(At(tree, p), ph, phn)
      modifies this
      ensures Inv() && IsRB(tree, ph) && Elems(tree) == old(Elems(tree)) && PhantomIn(tree, ph, phn)
      ensures data == old(data) && |slots| == old(|slots|)
      decreases Count(tree) - Count(At(tree, p)), 1
    {
      DeleteView(tree, slots, p, ph, phn);
      DeleteCase6Done(tree, p, ph);
      ghost var P, S, dX := Parent(p), Sibling(p), Last(p);
      var brother := Brother(n, p);
      var parent := slots[n].parent;
      SetColor(brother, slots[parent].info, S);
      SetColor(parent, Black, P);
      var d := if n == slots[parent].left then L else R;
      SetColor(Link(slots[brother], Other(d)), Black, Far(p));
      PaintId(Paint(Paint(old(tree), S, old(At(tree, P)).info), P, Black), Far(p), Black, P);
      Rotate(parent, d, P);
      if ph != NIL { ContainsAt(tree, P + [dX, dX], phn); }
    }
  
    // -------------------------------------------------------------------
    // Erase

    /** Erase: removes one entry holding `key` (the node Find stops at) and
        keeps the red-black search tree; a missing key changes nothing. */
    method Erase(key: int)
      requires Valid()
      modifies this
      ensures Valid()
      ensures (forall j :: 0 <= j < |old(Contents())| ==> old(Contents())[j].0 != key) ==>
        Contents() == old(Contents())
      ensures (exists j :: 0 <= j < |old(Contents())| && old(Contents())[j].0 == key) ==>
        exists i :: 0 <= i < |old(Contents())| && old(Contents())[i].0 == key &&
          Contents() == old(Contents())[..i] + old(Contents())[i + 1..]
    {
      ghost var e, d0 := Elems(tree), data;
      LinkedIds(tree, NIL, slots);
      ElemIds(tree);
      forall j | 0 <= j < |e| ensures Keys(tree)[j] == e[j].1 { KeysOfIndex(e, j); }
      var target;
      ghost var q;
      target, q := FindIn(key, root, []);
      if target == NIL {
        return;
      }
      ghost var i := EraseAt(target, q);
      assert Contents() == old(Contents())[..i] + old(Contents())[i + 1..];
    }

    /** The part of Erase after the lookup: the node `x` found at `q` goes, either
        itself (no children) or by taking its in-order neighbour's key and data and
        letting the neighbour go.  Its entry `i` in the in-order sequence goes. */
    method EraseAt(x: int, ghost q: Path) returns (ghost i: nat)
      requires Valid() && IsAt(x, q)
      modifies this
      ensures Valid()
      ensures IdsBelow(old(Elems(tree)), |old(data)|) && IdsBelow(Elems(tree), |data|)
      ensures i < |old(Elems(tree))| && old(Elems(tree))[i] == (x, At(old(tree), q).key)
      ensures Entries(Elems(tree), data) == Entries(old(Elems(tree)), old(data))[..i] +
        Entries(old(Elems(tree)), old(data))[i + 1..]
    {
      NodeInArena(tree, slots, q);
      if slots[x].left == NIL && slots[x].right == NIL {
        i := EraseLeaf(x, q);
      } else {
        i := EraseInner(x, q);
      }
    }

    /** EraseAt for a node without children: it is cut out itself. */
    method EraseLeaf(x: int, ghost q: Path) returns (ghost i: nat)
      requires Valid() && IsAt(x, q) && At(tree, q).left.Leaf? && At(tree, q).right.Leaf?
      modifies this
      ensures Valid()
      ensures IdsBelow(old(Elems(tree)), |old(data)|) && IdsBelow(Elems(tree), |data|)
      ensures i < |old(Elems(tree))| && old(Elems(tree))[i] == (x, At(old(tree), q).key)
      ensures Entries(Elems(tree), data) == Entries(old(Elems(tree)), old(data))[..i] +
        Entries(old(Elems(tree)), old(data))[i + 1..]
    {
      ghost var t0, e, d0 := tree, Elems(tree), data;
      LinkedIds(tree, NIL, slots);
      ElemIds(tree);
      NodeInArena(tree, slots, q);
      ElemsIndex(tree, q);
      i := |Before(tree, q)| + Count(At(tree, q).left);
      assert i < |e| && e[i] == (x, At(t0, q).key);
      ghost var j := RemoveChildless(x, q);
      ElemsSameId(t0, i, j);
      CutView(e, d0, i, Elems(tree));
    }

    /** EraseAt for a node with a child: it takes its in-order neighbour's key
        and data, and the neighbour is cut out. */
    method EraseInner(x: int, ghost q: Path) returns (ghost i: nat)
      requires Valid() && IsAt(x, q) && !(At(tree, q).left.Leaf? && At(tree, q).right.Leaf?)
      modifies this
      ensures Valid()
      ensures IdsBelow(old(Elems(tree)), |old(data)|) && IdsBelow(Elems(tree), |data|)
      ensures i < |old(Elems(tree))| && old(Elems(tree))[i] == (x, At(old(tree), q).key)
      ensures Entries(Elems(tree), data) == Entries(old(Elems(tree)), old(data))[..i] +
        Entries(old(Elems(tree)), old(data))[i + 1..]
    {
      ghost var t0, e, d0 := tree, Elems(tree), data;
      LinkedIds(tree, NIL, slots);
      ElemIds(tree);
      NodeInArena(tree, slots, q);
      ElemsIndex(tree, q);
      i := |Before(tree, q)| + Count(At(tree, q).left);
      assert i < |e| && e[i] == (x, At(t0, q).key);
      ghost var i', j := RemoveInner(x, q);
      ElemsSameId(t0, i, i');
      forall k | 0 <= k < |e| && k != i ensures e[k].0 != e[i].0 {
        if e[k].0 == e[i].0 { ElemsSameId(t0, i, k); }
      }
      MoveView(e, d0, i, j, Elems(tree), data);
    }

    /** Erase of a node `x` at `q` without children (the target itself, or the
        node that gave its key to the target): a black one is repaired around
        first (DeleteCase1, with `x` still attached and read as absent), a red
        one needs nothing; a parentless one clears `root`, and the destructor
        cuts it off and walks up the sizes.  Its in-order entry `j` goes. */
    method RemoveChildless(x: int, ghost q: Path) returns (ghost j: nat)
      requires Inv() && IsRB(tree, NIL) && IsAt(x, q)
      requires At(tree, q).left.Leaf? && At(tree, q).right.Leaf?
      modifies this
      ensures Inv() && IsRB(tree, NIL) && data == old(data) && |slots| == old(|slots|)
      ensures j < |old(Elems(tree))| && old(Elems(tree))[j].0 == x
      ensures Elems(tree) == old(Elems(tree))[..j] + old(Elems(tree))[j + 1..]
    {
      ghost var phn := At(tree, q);
      RepairAround(x, q);
      ghost var q2 := CutPhantom(tree, phn);
      NodeInArena(tree, slots, q2);
      j := |Before(tree, q2)|;
      if slots[x].parent == NIL {
        root := NIL;
        tree := Leaf;
      } else {
        Release(x, q2);
      }
    }

    /** The fixup before a childless node `x` at `q` is cut out: a black one
        goes through DeleteCase1 with `x` read as absent, a red one needs none.
        After it, the tree without `x` is a red-black tree. */
    method RepairAround(x: int, ghost q: Path)
      requires Inv() && IsRB(tree, NIL) && IsAt(x, q)
      requires At(tree, q).left.Leaf? && At(tree, q).right.Leaf?
      modifies this
      ensures Inv() && IsRB(tree, x) && Elems(tree) == old(Elems(tree))
      ensures Contains(tree, old(At(tree, q))) && data == old(data) && |slots| == old(|slots|)
    {
      ghost var phn := At(tree, q);
      NodeInArena(tree, slots, q);
      if slots[x].info == Black {
        DeleteStart(tree, q);
        DeleteCase1(x, q, x, phn);
      } else {
        RedLeafPhantom(tree, q);
        ContainsAt(tree, q, phn);
      }
    }

    /** Node's destructor for a node `x` whose place was `q`: if it is still its
        parent's child it is cut off, then `while (parent) { parent->size--; ... }`
        takes it out of every ancestor's size.  `x` is either the childless
        node at `q`, or a node whose child already took its place there. */
    method Release(x: int, ghost q: Path)
      requires LinkInv() && Reaches(tree, q) && q != [] && 0 <= x < |slots|
      requires slots[x].parent == Id(At(tree, Parent(q)))
      requires (IsAt(x, q) && At(tree, q).left.Leaf? && At(tree, q).right.Leaf? && Sized(tree, size, {})) ||
               (x !in Ids(tree) && Sized(tree, size, Anc(tree, q)))
      modifies this
      ensures Inv() && data == old(data) && root == old(root) && |slots| == old(|slots|)
      ensures tree == if old(IsAt(x, q)) then Put(old(tree), q, Leaf) else old(tree)
    {
      PutAbove(tree, q, Leaf);
      var par := slots[x].parent;
      if par != NIL {
        if IsAt(x, q) {
          IdsAt(tree, q);
          UnlinkState(tree, slots, size, q);
        } else {
          LinkedNode(tree, slots, Parent(q));
          IdsAt(tree, Parent(q));
          IdIn(At(tree, Parent(q)));
          if At(tree, Parent(q)).left.Node? { IdIn(At(tree, Parent(q)).left); }
          if At(tree, Parent(q)).right.Node? { IdIn(At(tree, Parent(q)).right); }
        }
        if slots[par].left == x {
          slots := slots[par := slots[par].(left := NIL)];
          tree := Put(tree, q, Leaf);
        } else if slots[par].right == x {
          slots := slots[par := slots[par].(right := NIL)];
          tree := Put(tree, q, Leaf);
        }
        SizeWalk(par, q);
      }
    }

    /** The destructor's walk up: every node from `par`, the parent of the
        position `r`, to the root counts one node less. */
    method SizeWalk(par: int, ghost r: Path)
      requires LinkInv() && Reaches(tree, r) && r != [] && par == Id(At(tree, Parent(r)))
      requires Sized(tree, size, Anc(tree, r))
      modifies this
      ensures Inv() && tree == old(tree) && slots == old(slots) && data == old(data) && root == old(root)
    {
      PutAbove(tree, r, Leaf);
      var cur := par;
      ghost var w := r;
      while cur != NIL
        invariant LinkInv() && Reaches(tree, w) && |size| == |slots|
        invariant cur == NIL <==> w == []
        invariant w != [] ==> cur == Id(At(tree, Parent(w)))
        invariant Sized(tree, size, Anc(tree, w))
        invariant tree == old(tree) && slots == old(slots) && data == old(data) && root == old(root)
        decreases |w|
      {
        SizeWalkStep(tree, slots, size, w);
        if Parent(w) != [] { PutAbove(tree, Parent(w), Leaf); }
        size := size[cur := size[cur] - 1];
        cur := slots[cur].parent;
        w := Parent(w);
      }
    }

    /** Erase of a target `x` at `q` with a child: the next node in key order
        (MinNode of the right subtree) or, without a right child, the previous
        one (MaxNode of the left subtree) moves its key and payload into the
        target and is removed in its stead; that node has at most one child.
        Its entry `j` is next to the target's `i`. */
    method RemoveInner(x: int, ghost q: Path) returns (ghost i: nat, ghost j: nat)
      requires Inv() && IsRB(tree, NIL) && IsAt(x, q)
      requires At(tree, q).left.Node? || At(tree, q).right.Node?
      modifies this
      ensures Inv() && IsRB(tree, NIL) && |slots| == old(|slots|)
      ensures var e := old(Elems(tree));
        i == old(|Before(tree, q)| + Count(At(tree, q).left)) &&
        i < |e| && j < |e| && (j == i + 1 || j + 1 == i) && e[i].0 == x &&
        x < |old(data)| && e[j].0 < |old(data)| &&
        Elems(tree) == e[i := (x, e[j].1)][..j] + e[i := (x, e[j].1)][j + 1..] &&
        data == old(data)[x := old(data)[e[j].0]]
    {
      var node, child;
      ghost var nq;
      node, child, nq, i, j := TakeReplacement(x, q);
      ghost var t1 := tree;
      ghost var j' := Remove(node, child, nq);
      ElemsSameId(t1, j, j');
    }

    /** The first half of RemoveInner: the replacement `node` (at `nq`, with
        the one child `child` or none) hands its key and data over to `x`. */
    method TakeReplacement(x: int, ghost q: Path) returns (node: int, child: int, ghost nq: Path, ghost i: nat, ghost j: nat)
      requires Inv() && IsRB(tree, NIL) && IsAt(x, q)
      requires At(tree, q).left.Node? || At(tree, q).right.Node?
      modifies this
      ensures Inv() && IsRB(tree, NIL) && |slots| == old(|slots|)
      ensures IsAt(node, nq) && nq != [] && (At(tree, nq).left.Leaf? || At(tree, nq).right.Leaf?)
      ensures child == Id(OnlyChild(At(tree, nq)))
      ensures var e := old(Elems(tree));
        i == old(|Before(tree, q)| + Count(At(tree, q).left)) &&
        i < |e| && j < |e| && (j == i + 1 || j + 1 == i) && e[i].0 == x && e[j].0 == node &&
        x < |old(data)| && node < |old(data)| &&
        Elems(tree) == e[i := (x, e[j].1)] && data == old(data)[x := old(data)[node]]
    {
      AtNodeReaches(tree, q);
      ElemsIndex(tree, q);
      i := |Before(tree, q)| + Count(At(tree, q).left);
      node, nq, j := Replacement(x, q);
      child := HandOver(node, x, q, nq);
    }

    /** MoveTo for the replacement `y` at `nq`, below the target `x` at `q`:
        the node at `nq` stays as it was; `child` is its child, if any. */
    method HandOver(y: int, x: int, ghost q: Path, ghost nq: Path) returns (child: int)
      requires Inv() && IsRB(tree, NIL) && IsAt(x, q) && IsAt(y, nq) && |nq| > |q| && nq[..|q|] == q
      requires At(tree, nq).left.Leaf? || At(tree, nq).right.Leaf?
      modifies this
      ensures Inv() && IsRB(tree, NIL) && |slots| == old(|slots|) && At(tree, nq) == old(At(tree, nq))
      ensures child == Id(OnlyChild(At(tree, nq)))
      ensures x < |old(data)| && y < |old(data)| && data == old(data)[x := old(data)[y]]
      ensures var i := old(|Before(tree, q)| + Count(At(tree, q).left));
        i < |old(Elems(tree))| && Elems(tree) == old(Elems(tree))[i := (x, old(At(tree, nq)).key)]
    {
      ghost var t0 := tree;
      AtNodeReaches(tree, q);
      NodeInArena(tree, slots, nq);
      child := if slots[y].left != NIL then slots[y].left else slots[y].right;
      MoveTo(y, x, q);
      AtPutBelow(t0, q, At(t0, q).(key := At(t0, nq).key), nq);
    }

    /** The node that replaces the target `x` at `q`: MinNode of the right
        subtree, or MaxNode of the left one when there is no right child.  It
        lies below `x`, has at most one child, and its entry `j` is right after
        or right before the entry of `x`. */
    method Replacement(x: int, ghost q: Path) returns (node: int, ghost nq: Path, ghost j: nat)
      requires LinkInv() && IsAt(x, q) && (At(tree, q).left.Node? || At(tree, q).right.Node?)
      ensures IsAt(node, nq) && |nq| > |q| && nq[..|q|] == q
      ensures At(tree, nq).left.Leaf? || At(tree, nq).right.Leaf?
      ensures var i := |Before(tree, q)| + Count(At(tree, q).left);
        (j == i + 1 || j + 1 == i) && j < |Elems(tree)| && Elems(tree)[j] == (node, At(tree, nq).key)
    {
      ghost var i := |Before(tree, q)| + Count(At(tree, q).left);
      NodeInArena(tree, slots, q);
      AtChild(tree, q, L);
      AtChild(tree, q, R);
      if slots[x].right != NIL {
        node, nq := MinNode(slots[x].right, q + [R]);
        ElemsNext(tree, q);
        j := i + 1;
      } else {
        node, nq := MaxNode(slots[x].left, q + [L]);
        ElemsPrev(tree, q);
        j := i - 1;
      }
      assert nq[..|q|] == q by { assert nq[..|q| + 1][..|q|] == nq[..|q|]; }
    }

    /** The end of Erase for the node `x` at `q` that has at most one child
        `c`: a childless one goes as in RemoveChildless; otherwise the child
        takes its place (ReplaceIfNotNull), turns black, and the destructor
        walks up the sizes.  The entry `j` of `x` goes. */
    method Remove(x: int, c: int, ghost q: Path) returns (ghost j: nat)
      requires Inv() && IsRB(tree, NIL) && IsAt(x, q) && q != []
      requires (At(tree, q).left.Leaf? || At(tree, q).right.Leaf?) && c == Id(OnlyChild(At(tree, q)))
      modifies this
      ensures Inv() && IsRB(tree, NIL) && data == old(data) && |slots| == old(|slots|)
      ensures j < |old(Elems(tree))| && old(Elems(tree))[j].0 == x
      ensures Elems(tree) == old(Elems(tree))[..j] + old(Elems(tree))[j + 1..]
    {
      if c == NIL {
        j := RemoveChildless(x, q);
      } else {
        j := Splice(x, c, q);
      }
    }

    /** A node `x` at `q` with the one child `c`: by the red-black rules `x`
        is black and `c` red.  The child takes the place of `x`
        (ReplaceIfNotNull), turns black, and the destructor walks up the sizes. */
    method Splice(x: int, c: int, ghost q: Path) returns (ghost j: nat)
      requires Inv() && IsRB(tree, NIL) && IsAt(x, q) && q != []
      requires (At(tree, q).left.Leaf? || At(tree, q).right.Leaf?) && c == Id(OnlyChild(At(tree, q))) && c != NIL
      modifies this
      ensures Inv() && IsRB(tree, NIL) && data == old(data) && |slots| == old(|slots|)
      ensures j < |old(Elems(tree))| && old(Elems(tree))[j].0 == x
      ensures Elems(tree) == old(Elems(tree))[..j] + old(Elems(tree))[j + 1..]
    {
      j := SpliceLink(x, c, q);
      IdsAt(tree, q);
      Release(x, q);
    }

    /** The first half of Splice: `c` is hung in the place of `x` and painted
        black; `x` is left out of the tree with its parent link and out of its
        ancestors' sizes still to be taken. */
    method SpliceLink(x: int, c: int, ghost q: Path) returns (ghost j: nat)
      requires Inv() && IsRB(tree, NIL) && IsAt(x, q) && q != []
      requires (At(tree, q).left.Leaf? || At(tree, q).right.Leaf?) && c == Id(OnlyChild(At(tree, q))) && c != NIL
      modifies this
      ensures LinkInv() && IsRB(tree, NIL) && Sized(tree, size, Anc(tree, q))
      ensures data == old(data) && root == old(root) && |slots| == old(|slots|)
      ensures Reaches(tree, q) && 0 <= x < |slots| && x !in Ids(tree)
      ensures slots[x].parent == Id(At(tree, Parent(q)))
      ensures j < |old(Elems(tree))| && old(Elems(tree))[j].0 == x
      ensures Elems(tree) == old(Elems(tree))[..j] + old(Elems(tree))[j + 1..]
    {
      ghost var t1, u := tree, At(tree, q);
      NodeInArena(tree, slots, q);
      SpliceTree(t1, q);
      j := |Before(t1, q)| + Count(u.left);
      HangChild(x, c, q);
      IdsAt(tree, q);
      BlackenChild(x, c, q);
    }

    /** ReplaceIfNotNull when there is a child `c` to hang in the place of `x`. */
    method HangChild(x: int, c: int, ghost q: Path)
      requires Inv() && IsAt(x, q) && q != [] && (At(tree, q).left.Leaf? || At(tree, q).right.Leaf?)
      requires c == Id(OnlyChild(At(tree, q))) && c != NIL
      modifies this
      ensures size == old(size) && data == old(data) && root == old(root) && |slots| == old(|slots|)
      ensures LinkInv() && tree == Put(old(tree), q, OnlyChild(old(At(tree, q))))
      ensures Sized(tree, size, Anc(tree, q)) && x !in Ids(tree) && 0 <= x < |slots| && Reaches(tree, q)
      ensures slots[x] == old(slots)[x].(left := NIL, right := NIL)
      ensures slots[x].parent == Id(At(tree, Parent(q))) && At(tree, q) == OnlyChild(old(At(tree, q)))
    {
      ReplaceIfNotNull(x, c, q);
    }

    /** Erase's `if (node->isBlack())` after ReplaceIfNotNull with a child:
        the removed node `x` is black and the child `c` now at `q` red, so the
        child turns black (the other two branches cannot be taken). */
    method BlackenChild(x: int, c: int, ghost q: Path)
      requires LinkInv() && IsAt(c, q) && 0 <= x < |slots| && x !in Ids(tree)
      requires slots[x].info == Black && At(tree, q).info == Red
      requires IsRB(Paint(tree, q, Black), NIL)
      modifies this
      ensures LinkInv() && IsRB(tree, NIL) && tree == Paint(old(tree), q, Black)
      ensures |slots| == old(|slots|) && slots[x] == old(slots[x])
      ensures size == old(size) && data == old(data) && root == old(root)
      ensures Elems(tree) == old(Elems(tree)) && Ids(tree) == old(Ids(tree)) && Reaches(tree, q)
      ensures old(Sized(tree, size, Anc(tree, q))) ==> Sized(tree, size, Anc(tree, q))
      ensures q != [] ==> Id(At(tree, Parent(q))) == old(Id(At(tree, Parent(q))))
    {
      NodeInArena(tree, slots, q);
      IdsAt(tree, q);
      if slots[x].info == Black {
        if slots[c].info == Red {
          SetColor(c, Black, q);
        } else {
          assert false;
        }
      }
    }

    /** Node::MoveTo: node `y` hands its key and payload over to the node `x`
        at `q`; the links, colours and sizes stay, and only the in-order entry
        of `x` changes. */
    method MoveTo(y: int, x: int, ghost q: Path)
      requires Inv() && IsAt(x, q) && 0 <= y < |slots|
      modifies this
      ensures 0 <= x < |old(slots)| && Inv() && tree == Put(old(tree), q, old(At(tree, q)).(key := old(slots)[y].key))
      ensures slots == old(slots)[x := old(slots)[x].(key := old(slots)[y].key)]
      ensures data == old(data)[x := old(data)[y]] && size == old(size) && root == old(root)
      ensures var i := old(|Before(tree, q)| + Count(At(tree, q).left));
        i < |old(Elems(tree))| && Elems(tree) == old(Elems(tree))[i := (x, old(slots)[y].key)]
      ensures old(IsRB(tree, NIL)) ==> IsRB(tree, NIL)
      ensures Reaches(tree, q)
    {
      MoveToState(tree, slots, size, q, slots[y].key);
      tree := Put(tree, q, At(tree, q).(key := slots[y].key));
      slots := slots[x := slots[x].(key := slots[y].key)];
      data := data[x := data[y]];
    }

    /** Node::ReplaceIfNotNull with the node's own parent link kept, so that
        the destructor's walk up still finds the ancestors whose sizes count
        `x` (ReplaceIfNotNullAsWritten drops it): when the node `x` at `q` has
        a child `c`, `c` takes its place under the parent and `x` lets go of
        its children.  The ancestors of `q` still count `x` in their sizes. */
    method ReplaceIfNotNull(x: int, c: int, ghost q: Path)
      requires Inv() && IsAt(x, q) && q != [] && (At(tree, q).left.Leaf? || At(tree, q).right.Leaf?)
      requires c == Id(OnlyChild(At(tree, q)))
      modifies this
      ensures |slots| == old(|slots|)
      ensures c == NIL ==> tree == old(tree) && slots == old(slots) && Inv()
      ensures c != NIL ==> (LinkInv() && tree == Put(old(tree), q, OnlyChild(old(At(tree, q)))) &&
        Sized(tree, size, Anc(tree, q)) && x !in Ids(tree) && 0 <= x < |slots| && Reaches(tree, q) &&
        slots[x] == old(slots)[x].(left := NIL, right := NIL) &&
        slots[x].parent == Id(At(tree, Parent(q))) && At(tree, q) == OnlyChild(old(At(tree, q))))
      ensures size == old(size) && data == old(data) && root == old(root) && |slots| == old(|slots|)
    {
      if c == NIL {
        return;
      }
      SpliceState(tree, slots, size, q);
      ghost var g := At(tree, Parent(q)).id;
      ghost var s1 := slots[g := SetLink(slots[g], Last(q), c)][c := slots[c].(parent := g)];
      ghost var s2 := s1[x := s1[x].(left := NIL, right := NIL)];
      var par := slots[x].parent;
      if slots[par].left == x {
        slots := slots[par := slots[par].(left := c)];
      } else {
        slots := slots[par := slots[par].(right := c)];
      }
      slots := slots[c := slots[c].(parent := par)];
      slots := slots[x := slots[x].(left := NIL, right := NIL)];
      assert slots == s2;
      tree := Put(tree, q, OnlyChild(At(tree, q)));
    }

    /** Node::ReplaceIfNotNull as written: as ReplaceIfNotNull, and then the
        node `x` also drops its parent link (`this->parent = nullptr`). */
    method ReplaceIfNotNullAsWritten(x: int, c: int, ghost q: Path)
      requires Inv() && IsAt(x, q) && q != [] && (At(tree, q).left.Leaf? || At(tree, q).right.Leaf?)
      requires c == Id(OnlyChild(At(tree, q)))
      modifies this
      ensures c == NIL ==> tree == old(tree) && slots == old(slots) && Inv()
      ensures c != NIL ==> (LinkInv() && tree == Put(old(tree), q, OnlyChild(old(At(tree, q)))) &&
        Sized(tree, size, Anc(tree, q)) && x !in Ids(tree) && 0 <= x < |slots| && Reaches(tree, q) &&
        x < |old(slots)| && slots[x] == old(slots)[x].(parent := NIL, left := NIL, right := NIL) &&
        At(tree, q) == OnlyChild(old(At(tree, q))))
      ensures size == old(size) && data == old(data) && root == old(root) && |slots| == old(|slots|)
    {
      ReplaceIfNotNull(x, c, q);
      if c != NIL {
        LinkedIds(tree, NIL, slots);
        LinkedFrame(tree, NIL, slots, slots[x := slots[x].(parent := NIL)]);
        slots := slots[x := slots[x].(parent := NIL)];
      }
    }

    /** Splice with ReplaceIfNotNullAsWritten: the child takes the place of
        `x` and turns black as in Splice, but `delete node` then finds `x`
        without a parent and skips the walk that takes it out of its
        ancestors' sizes.  The links and colours are right, and every
        ancestor of `q` (the root among them) counts one node too many. */
    method SpliceAsWritten(x: int, c: int, ghost q: Path) returns (ghost j: nat)
      requires Inv() && IsRB(tree, NIL) && IsAt(x, q) && q != []
      requires (At(tree, q).left.Leaf? || At(tree, q).right.Leaf?) && c == Id(OnlyChild(At(tree, q))) && c != NIL
      modifies this
      ensures LinkInv() && IsRB(tree, NIL) && data == old(data) && |slots| == old(|slots|)
      ensures j < |old(Elems(tree))| && old(Elems(tree))[j].0 == x
      ensures Elems(tree) == old(Elems(tree))[..j] + old(Elems(tree))[j + 1..]
      ensures Reaches(tree, q) && Sized(tree, size, Anc(tree, q)) && !Inv()
    {
      ghost var t1, u := tree, At(tree, q);
      NodeInArena(tree, slots, q);
      SpliceTree(t1, q);
      j := |Before(t1, q)| + Count(u.left);
      ReplaceIfNotNullAsWritten(x, c, q);
      assert tree == Put(t1, q, OnlyChild(u)) && At(tree, q) == OnlyChild(u);
      IdsAt(tree, q);
      BlackenChild(x, c, q);
      SizedStale(tree, size, q);
    }
}

  /** Sizes that still count a node cut off below `q` are not the counts:
      the root, an ancestor of every non-empty path, is one too large. */
  lemma SizedStale<A>(t: Tree<A>, size: seq<int>, q: Path)
    requires Reaches(t, q) && q != [] && Sized(t, size, Anc(t, q))
    ensures !Sized(t, size, {})
  {
    assert t.Node? && t.id in Anc(t, q);
  }
}
