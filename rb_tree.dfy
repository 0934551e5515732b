/** The red-black set of keys (RB_Tree).

    The nodes live in an arena as in RedBlackBSTs, without payloads: `slots[i]`
    holds key, colour and the links of node `i`, and the ghost field `tree` is
    the tree the links describe.  Erase differs from RedBlackBST's: a childless
    replacement is first unhooked by ReplaceWith, hung back on the side the
    parent's right link selects, repaired around (DeleteCase1) and unhooked
    again on that same side. */
module RBTrees {
  import opened BinaryTrees
  import opened Arena
  import opened RedBlack
  import opened RedBlackDeletion
  import opened RedBlackArena

  /** Some node of `t` has `x` as its child on side `d`. */
  ghost predicate HangsOn(t: RBTree, x: RBTree, d: Dir)
  {
    t.Node? && (Child(t, d) == x || HangsOn(t.left, x, d) || HangsOn(t.right, x, d))
  }

  /** The node `x` hangs on side `d`: below the subtree at `p`, or as that
      subtree itself when `p` ends in `d`. */
  ghost predicate HangsAt(t: RBTree, p: Path, x: RBTree, d: Dir)
  {
    HangsOn(At(t, p), x, d) || (p != [] && At(t, p) == x && Last(p) == d)
  }

  /** Hanging below a position is hanging in the whole tree. */
  lemma {:induction false} HangsUp(t: RBTree, p: Path, x: RBTree, d: Dir)
    requires x.Node? && HangsAt(t, p, x, d)
    ensures HangsOn(t, x, d)
    decreases |p|
  {
    if p != [] {
      if t.Leaf? {
        AtOfLeaf<Color>(p);
      } else {
        var c := Child(t, p[0]);
        assert At(t, p) == At(c, p[1..]);
        if p[1..] == [] {
          assert At(c, []) == c;
          assert HangsOn(c, x, d) || (c == x && p[0] == d);
        } else {
          assert Last(p[1..]) == Last(p);
          HangsUp(c, p[1..], x, d);
        }
        assert HangsOn(c, x, d) || Child(t, d) == x;
      }
    }
  }

  /** The tree after DeleteCase6: the brother takes the parent's colour, the
      parent and the far nephew turn black, and the parent rotates toward `p`. */
  ghost function Case6Turned(t: RBTree, p: Path, ph: int): RBTree
    requires DeleteCase6Pre(t, p, ph)
  {
    DeleteCase6Done(t, p, ph);
    var P := Parent(p);
    RotAt(Paint(Paint(Paint(t, Sibling(p), At(t, P).info), P, Black), Far(p), Black), P, Last(p))
  }

  /** A subtree moved to another position of another tree keeps what hangs below it. */
  lemma HangsMoved(t: RBTree, p: Path, t': RBTree, p': Path, x: RBTree, d: Dir)
    requires x.Node? && p != [] && p' != [] && Last(p') == Last(p)
    requires HangsAt(t, p, x, d) && At(t', p') == At(t, p)
    ensures HangsOn(t', x, d)
  {
    assert HangsAt(t', p', x, d);
    HangsUp(t', p', x, d);
  }

  /** ... and below the parent position. */
  lemma HangsParent(t: RBTree, p: Path, x: RBTree, d: Dir)
    requires x.Node? && p != [] && HangsAt(t, p, x, d)
    ensures HangsAt(t, Parent(p), x, d)
  {
    assert p == Parent(p) + [Last(p)];
    AtAppend(t, Parent(p), [Last(p)]);
    HangsUp(At(t, Parent(p)), [Last(p)], x, d);
  }

  /** In the arena, the node a hanging one has on side `d` is its parent's link
      on that side. */
  lemma {:induction false} HangsLink(t: RBTree, parent: int, s: seq<Slot<Color>>, x: RBTree, d: Dir)
    requires Linked(t, parent, s) && HangsOn(t, x, d) && x.Node?
    ensures x.id < |s| && 0 <= s[x.id].parent < |s| && Link(s[s[x.id].parent], d) == x.id
  {
    if Child(t, d) == x {
      assert Linked(Child(t, d), t.id, s) by { if d == L { } else { } }
    } else if HangsOn(t.left, x, d) {
      HangsLink(t.left, t.id, s, x, d);
    } else {
      HangsLink(t.right, t.id, s, x, d);
    }
  }

  /** A childless node that hangs somewhere is not the root. */
  lemma HangsNotRoot(t: RBTree, x: RBTree, d: Dir)
    requires HangsOn(t, x, d) && x.Node? && x.left.Leaf? && x.right.Leaf?
    ensures t != x
  {
  }

  /** Where the links realise a tree, a node's parent link names the node
      above it. */
  lemma LinkedParent(t: RBTree, s: seq<Slot<Color>>, q: Path)
    requires Distinct(t) && q != [] && At(t, q).Node? && At(t, q).id < |s|
    ensures Linked(t, NIL, s) ==> s[At(t, q).id].parent == Id(At(t, Parent(q)))
  {
    if Linked(t, NIL, s) { NodeInArena(t, s, q); }
  }

  /** Insert on the keys: the new key lands where InsertNode hangs it, after
      the smaller keys and before the others, and the keys stay in order. */
  lemma InsertKeys(t: RBTree, p: Path, u: RBTree)
    requires Ordered(t) && Reaches(t, p) && At(t, p).Leaf?
    requires u.Node? && u.left.Leaf? && u.right.Leaf? && Between(t, p, u.key)
    ensures var b, a := KeysOf(Before(t, p)), KeysOf(After(t, p));
      Keys(t) == b + a && Keys(Put(t, p, u)) == b + [u.key] + a &&
      AllLt(b, u.key) && AllGe(a, u.key) && Ordered(Put(t, p, u))
  {
    var b, a, m := Before(t, p), After(t, p), [(u.id, u.key)];
    BetweenInsert(t, p, u);
    assert Elems(Put(t, p, u)) == (b + m) + a;
    KeysOfAppend(b, a);
    KeysOfAppend(b + m, a);
    KeysOfAppend(b, m);
    assert KeysOf(m) == [u.key];
    assert Keys(Put(t, p, u)) == KeysOf(b) + [u.key] + KeysOf(a);
  }

  /** ... and the new key lands at position `|Before(t, p)|` of the keys,
      after the smaller keys and before the others. */
  lemma InsertedKeys(t: RBTree, p: Path, u: RBTree)
    requires Ordered(t) && Reaches(t, p) && At(t, p).Leaf?
    requires u.Node? && u.left.Leaf? && u.right.Leaf? && Between(t, p, u.key)
    ensures var e, i := Keys(t), |Before(t, p)|;
      i <= |e| && Keys(Put(t, p, u)) == e[..i] + [u.key] + e[i..] && Ordered(Put(t, p, u)) &&
      (forall j :: 0 <= j < i ==> e[j] < u.key) &&
      (forall j :: i <= j < |e| ==> u.key <= e[j])
  {
    InsertKeys(t, p, u);
    var b, a := KeysOf(Before(t, p)), KeysOf(After(t, p));
    assert |b| == |Before(t, p)|;
    assert Keys(t)[..|b|] == b && Keys(t)[|b|..] == a;
  }

  /** Erase's inner case on the in-order sequence `e`: the target `i` takes
      the key of its neighbour `j` (giving `e1`), whose element then goes. */
  lemma InnerKeys(e: seq<(nat, int)>, i: nat, j: nat, e1: seq<(nat, int)>, r: seq<(nat, int)>)
    requires i < |e| && j < |e| && (j == i + 1 || j + 1 == i)
    requires e1 == e[i := (e[i].0, e[j].1)] && r == e1[..j] + e1[j + 1..]
    ensures KeysOf(r) == KeysOf(e)[..i] + KeysOf(e)[i + 1..]
    ensures i < |KeysOf(e)| && KeysOf(e)[i] == e[i].1
    ensures Sorted(KeysOf(e)) ==> Sorted(KeysOf(r))
  {
    KeysOfIndex(e, i);
    KeysPlaced(e, i, j, r);
  }

  /** A sequence that agrees with `s` with position `i` skipped is `s`
      without position `i`. */
  lemma SkipSeq<X>(s: seq<X>, i: nat, r: seq<X>)
    requires i < |s| && |r| + 1 == |s|
    requires forall k :: 0 <= k < |r| ==> r[k] == s[if k < i then k else k + 1]
    ensures r == s[..i] + s[i + 1..]
  {
    forall k | 0 <= k < |r| ensures r[k] == (s[..i] + s[i + 1..])[k] { SkipIndex(s, i, k); }
  }

  /** Removing the childless node at `q` drops its key, at its in-order place. */
  lemma LeafKeys(t: RBTree, q: Path)
    requires Reaches(t, q) && At(t, q).Node? && At(t, q).left.Leaf? && At(t, q).right.Leaf?
    ensures var j := |Before(t, q)|;
      j < |Keys(t)| && Keys(t)[j] == At(t, q).key &&
      Keys(Put(t, q, Leaf)) == Keys(t)[..j] + Keys(t)[j + 1..]
  {
    var j := |Before(t, q)|;
    RemoveElems(t, q, Leaf);
    KeysOfIndex(Elems(t), j);
    KeysRemoved(Elems(t), j, Elems(Put(t, q, Leaf)));
  }

  /** Erase on the keys when the target is cut out itself: the key at `i`
      is gone, and the rest keep their order. */
  lemma KeysRemoved(e: seq<(nat, int)>, i: nat, r: seq<(nat, int)>)
    requires i < |e| && r == e[..i] + e[i + 1..]
    ensures KeysOf(r) == KeysOf(e)[..i] + KeysOf(e)[i + 1..]
    ensures Sorted(KeysOf(e)) ==> Sorted(KeysOf(r))
  {
    KeysCut(e, i, r);
    KeysOfIndex(e, i);
    SkipSeq(KeysOf(e), i, KeysOf(r));
    if Sorted(KeysOf(e)) { SortedSkip(KeysOf(e), KeysOf(r), i); }
  }

  /** Erase on the keys when the target at `i` takes the key of its
      neighbour `j`, which goes: the key at `i` is gone, too. */
  lemma KeysPlaced(e: seq<(nat, int)>, i: nat, j: nat, r: seq<(nat, int)>)
    requires i < |e| && j < |e| && (j == i + 1 || j + 1 == i)
    requires var e1 := e[i := (e[i].0, e[j].1)]; r == e1[..j] + e1[j + 1..]
    ensures KeysOf(r) == KeysOf(e)[..i] + KeysOf(e)[i + 1..]
    ensures Sorted(KeysOf(e)) ==> Sorted(KeysOf(r))
  {
    KeysMove(e, i, j, r);
    KeysOfIndex(e, i);
    SkipSeq(KeysOf(e), i, KeysOf(r));
    if Sorted(KeysOf(e)) { SortedSkip(KeysOf(e), KeysOf(r), i); }
  }

  /** Around a black childless node `x` at `q` the parent holds `x` on the
      side `q` ends with and a node on the other side. */
  lemma RehangView(t: RBTree, s: seq<Slot<Color>>, q: Path, x: int)
    requires Linked(t, NIL, s) && Distinct(t) && IsRB(t, NIL) && q != []
    requires At(t, q).Node? && At(t, q).id == x && At(t, q).info == Black
    requires At(t, q).left.Leaf? && At(t, q).right.Leaf?
    ensures var g := Id(At(t, Parent(q)));
      0 <= x < |s| && 0 <= g < |s| && s[x].parent == g &&
      Link(s[g], Last(q)) == x && Link(s[g], Other(Last(q))) != NIL
  {
    DeleteStart(t, q);
    DeleteView(t, s, q, x, At(t, q));
  }

  class RedBlackTree {
    var slots: seq<Slot<Color>>
    var root: int
    ghost var tree: RBTree

    /** The links realise `tree`, whose ids are distinct; `root` is its root. */
    ghost predicate LinkInv()
      reads this
    {
      Linked(tree, NIL, slots) && Distinct(tree) && root == Id(tree)
    }

    /** ... and the tree is a red-black search tree. */
    ghost predicate Valid()
      reads this
    {
      LinkInv() && IsRB(tree, NIL) && Ordered(tree)
    }

    /** The node with index `x` sits at path `p`. */
    ghost predicate IsAt(x: int, p: Path)
      reads this
    {
      At(tree, p).Node? && At(tree, p).id == x
    }

    /** The keys in order (equal keys may repeat). */
    ghost function Contents(): seq<int>
      reads this
    {
      Keys(tree)
    }

    /** The model starts from an empty tree (the source leaves `root` unset). */
    constructor ()
      ensures Valid() && Contents() == []
    {
      slots, root := [], NIL;
      tree := Leaf;
    }

    // -------------------------------------------------------------------
    // Node helpers

    /** The grandparent, or NIL when there is none. */
    function GrandFather(n: int, ghost p: Path): (g: int)
      reads this
      requires LinkInv() && (n == NIL || IsAt(n, p))
      ensures g == (if n == NIL || |p| < 2 then NIL else Id(At(tree, Parent(Parent(p)))))
      ensures g == NIL <==> n == NIL || |p| < 2
    {
      if n == NIL then NIL
      else
        NodeInArena(tree, slots, p);
        if slots[n].parent == NIL then NIL
        else
          NodeInArena(tree, slots, Parent(p));
          assert Parent(p) != [] ==> Parent(Parent(p)) == p[..|p| - 2];
          slots[slots[n].parent].parent
    }

    /** The parent's brother, or NIL. */
    function Uncle(n: int, ghost p: Path): (u: int)
      reads this
      requires LinkInv() && (n == NIL || IsAt(n, p))
      ensures u == (if n == NIL || |p| < 2 then NIL else Id(At(tree, Sibling(Parent(p)))))
    {
      var g := GrandFather(n, p);
      if g == NIL then NIL
      else
        NodeInArena(tree, slots, p);
        NodeInArena(tree, slots, Parent(p));
        SiblingInArena(tree, slots, Parent(p));
        if slots[n].parent == slots[g].left then slots[g].right else slots[g].left
    }

    /** The brother, or NIL. */
    function Brother(n: int, ghost p: Path): (b: int)
      reads this
      requires LinkInv() && (n == NIL || IsAt(n, p))
      ensures b == (if n == NIL || p == [] then NIL else Id(At(tree, Sibling(p))))
    {
      if n == NIL then NIL
      else
        NodeInArena(tree, slots, p);
        if slots[n].parent == NIL then NIL
        else
          SiblingInArena(tree, slots, p);
          if n == slots[slots[n].parent].left then slots[slots[n].parent].right
          else slots[slots[n].parent].left
    }

    // -------------------------------------------------------------------
    // Recolouring and rotations

    /** `color = BLACK`, `toRed()` and the like. */
    method SetColor(x: int, c: Color, ghost p: Path)
      requires LinkInv() && IsAt(x, p)
      modifies this
      ensures LinkInv() && tree == Paint(old(tree), p, c)
      ensures 0 <= x < |old(slots)| && slots == old(slots)[x := old(slots)[x].(info := c)]
      ensures root == old(root)
      ensures Reaches(tree, p) && At(tree, p) == old(At(tree, p)).(info := c)
      ensures Elems(tree) == old(Elems(tree)) && Ids(tree) == old(Ids(tree))
      ensures p != [] ==> Id(At(tree, Parent(p))) == old(Id(At(tree, Parent(p))))
    {
      NodeInArena(tree, slots, p);
      LinkedRelabel(tree, slots, p, slots[x].key, c);
      PaintShape(tree, p, c);
      ShapeElems(Paint(tree, p, c), tree);
      ShapeSym(Paint(tree, p, c), tree);
      PaintElems(tree, p, c);
      if p != [] { ShapeAt(Paint(tree, p, c), tree, Parent(p)); }
      assert At(tree, p).(key := slots[x].key, info := c) == At(tree, p).(info := c);
      slots := slots[x := slots[x].(info := c)];
      tree := Paint(tree, p, c);
    }

    /** RotateLeft (`d == L`) and RotateRight (`d == R`) at the node `x`. */
    method Rotate(x: int, d: Dir, ghost p: Path)
      requires LinkInv() && IsAt(x, p) && Child(At(tree, p), Other(d)).Node?
      modifies this
      ensures LinkInv() && tree == RotAt(old(tree), p, d)
      ensures |slots| == old(|slots|)
      ensures p != [] ==> root == old(root)
      ensures Elems(tree) == old(Elems(tree))
      ensures Reaches(tree, p) && At(tree, p) == Rot(old(At(tree, p)), d)
    {
      ghost var t := tree;
      RotateLinks(tree, slots, p, d);
      Relink(x, d);
      tree := RotAt(t, p, d);
      RotAtElemsOf(t, p, d);
    }

    /** The pointer updates of a rotation, in the source's order. */
    method Relink(x: int, d: Dir)
      requires 0 <= x < |slots| && 0 <= Link(slots[x], Other(d)) < |slots|
      requires slots[x].parent != NIL ==> 0 <= slots[x].parent < |slots|
      requires var b := Link(slots[Link(slots[x], Other(d))], d); b != NIL ==> 0 <= b < |slots|
      modifies this
      ensures slots == RotateCells(old(slots), x, d)
      ensures root == if old(slots)[x].parent == NIL then Link(old(slots)[x], Other(d)) else old(root)
      ensures tree == old(tree)
    {
      var y := Link(slots[x], Other(d));
      var b := Link(slots[y], d);
      var par := slots[x].parent;
      slots := slots[y := slots[y].(parent := par)];
      if par != NIL {
        if slots[par].left == x {
          slots := slots[par := slots[par].(left := y)];
        } else {
          slots := slots[par := slots[par].(right := y)];
        }
      } else {
        root := y;
      }
      slots := slots[x := SetLink(slots[x], Other(d), b)];
      if b != NIL {
        slots := slots[b := slots[b].(parent := x)];
      }
      slots := slots[x := slots[x].(parent := y)];
      slots := slots[y := SetLink(slots[y], d, x)];
    }

    method RotateLeft(x: int, ghost p: Path)
      requires LinkInv() && IsAt(x, p) && At(tree, p).right.Node?
      modifies this
      ensures LinkInv() && tree == RotAt(old(tree), p, L)
      ensures |slots| == old(|slots|)
      ensures p != [] ==> root == old(root)
      ensures Elems(tree) == old(Elems(tree))
      ensures Reaches(tree, p) && At(tree, p) == Rot(old(At(tree, p)), L)
    {
      Rotate(x, L, p);
    }

    method RotateRight(x: int, ghost p: Path)
      requires LinkInv() && IsAt(x, p) && At(tree, p).left.Node?
      modifies this
      ensures LinkInv() && tree == RotAt(old(tree), p, R)
      ensures |slots| == old(|slots|)
      ensures p != [] ==> root == old(root)
      ensures Elems(tree) == old(Elems(tree))
      ensures Reaches(tree, p) && At(tree, p) == Rot(old(At(tree, p)), R)
    {
      Rotate(x, R, p);
    }

    // -------------------------------------------------------------------
    // Insertion

    /** Insert: a new red node holding `key` goes where the search for `key`
        falls off the tree, and the fixup restores the red-black rules.  The
        key joins the keys in order, after the smaller ones. */
    method Insert(key: int)
      requires Valid()
      modifies this
      ensures Valid()
      ensures exists i :: (0 <= i <= |old(Contents())| &&
        Contents() == old(Contents())[..i] + [key] + old(Contents())[i..] &&
        (forall j :: 0 <= j < i ==> old(Contents())[j] < key) &&
        (forall j :: i <= j < |old(Contents())| ==> key <= old(Contents())[j]))
    {
      var n;
      ghost var p, i;
      n, p, i := PlaceNew(key);
      ghost var e := Elems(tree);
      InsertCase1(n, p);
      assert Elems(tree) == e;
    }

    /** The first half of Insert: a new red cell `n` is appended to the arena
        and hung at the empty link `p` where the search for `key` ends. */
    method PlaceNew(key: int) returns (n: int, ghost p: Path, ghost i: nat)
      requires Valid()
      modifies this
      ensures LinkInv() && Ordered(tree) && InsertInv(tree, p) && IsAt(n, p)
      ensures i <= |old(Contents())| &&
        Contents() == old(Contents())[..i] + [key] + old(Contents())[i..] &&
        (forall j :: 0 <= j < i ==> old(Contents())[j] < key) &&
        (forall j :: i <= j < |old(Contents())| ==> key <= old(Contents())[j])
    {
      ghost var t := tree;
      LinkedIds(tree, NIL, slots);
      n := |slots|;
      slots := slots + [Slot(key, Red, NIL, NIL, NIL)];
      LinkedFrame(tree, NIL, old(slots), slots);
      BetweenRoot(tree, key);
      p := InsertNode(n, root, NIL, L, []);
      ghost var u := Node(n, key, Red, Leaf, Leaf);
      InsertStart(t, p, u);
      AtPut(t, p, u);
      InsertedKeys(t, p, u);
      i := |Before(t, p)|;
    }

    /** InsertNode: walks down from the link `_root` and hangs node `n` at the
        empty link it reaches: a key greater than a node's goes right, any
        other key (an equal one too) left. */
    method InsertNode(n: int, cur: int, par: int, side: Dir, ghost q: Path) returns (ghost p: Path)
      requires LinkInv() && 0 <= n == |slots| - 1 && slots[n] == Slot(slots[n].key, Red, NIL, NIL, NIL)
      requires forall i :: i in Ids(tree) ==> i < n
      requires Ordered(tree)
      requires Reaches(tree, q) && cur == Id(At(tree, q))
      requires par == (if q == [] then NIL else Id(At(tree, Parent(q))))
      requires q != [] ==> side == Last(q)
      requires Between(tree, q, slots[n].key)
      modifies this
      ensures Reaches(old(tree), p) && At(old(tree), p).Leaf? && Between(old(tree), p, old(slots)[n].key)
      ensures tree == Put(old(tree), p, Node(n, old(slots)[n].key, Red, Leaf, Leaf))
      ensures LinkInv() && |slots| == old(|slots|)
      decreases Count(At(tree, q))
    {
      if cur == NIL {
        Attach(n, par, side, q);
        p := q;
      } else {
        DescendLinks(tree, slots, q, n);
        var d := if slots[n].key > slots[cur].key then R else L;
        p := InsertNode(n, Link(slots[cur], d), cur, d, q + [d]);
      }
    }

    /** The end of InsertNode: `_root = node` and `node->parent = root_parent`. */
    method Attach(n: int, par: int, side: Dir, ghost q: Path)
      requires LinkInv() && 0 <= n == |slots| - 1 && slots[n] == Slot(slots[n].key, Red, NIL, NIL, NIL)
      requires forall i :: i in Ids(tree) ==> i < n
      requires Reaches(tree, q) && At(tree, q).Leaf?
      requires par == (if q == [] then NIL else Id(At(tree, Parent(q))))
      requires q != [] ==> side == Last(q)
      modifies this
      ensures tree == Put(old(tree), q, Node(n, old(slots)[n].key, Red, Leaf, Leaf))
      ensures LinkInv() && |slots| == old(|slots|)
    {
      AttachLinks(tree, slots, q, n, par, side);
      ghost var k := slots[n].key;
      if par == NIL {
        root := n;
      } else {
        slots := slots[par := SetLink(slots[par], side, n)];
      }
      slots := slots[n := slots[n].(parent := par)];
      tree := Put(tree, q, Node(n, k, Red, Leaf, Leaf));
    }

    /** InsertCase1: the root turns black; any other node goes on to case 2. */
    method InsertCase1(n: int, ghost p: Path)
      requires LinkInv() && InsertInv(tree, p) && IsAt(n, p)
      modifies this
      ensures LinkInv() && IsRB(tree, NIL) && Elems(tree) == old(Elems(tree))
      ensures |slots| == old(|slots|)
      decreases |p|, 5
    {
      NodeInArena(tree, slots, p);
      if slots[n].parent == NIL {
        InsertCase1Done(tree);
        SetColor(n, Black, p);
      } else {
        InsertCase2(n, p);
      }
    }

    /** InsertCase2: under a black parent nothing is left to repair. */
    method InsertCase2(n: int, ghost p: Path)
      requires LinkInv() && InsertInv(tree, p) && IsAt(n, p) && p != []
      modifies this
      ensures LinkInv() && IsRB(tree, NIL) && Elems(tree) == old(Elems(tree))
      ensures |slots| == old(|slots|)
      decreases |p|, 4
    {
      NodeInArena(tree, slots, p);
      NodeInArena(tree, slots, Parent(p));
      if slots[slots[n].parent].info != Black {
        InsertCase3(n, p);
      } else {
        InsertCase2Done(tree, p);
      }
    }

    /** InsertCase3: a red uncle; parent and uncle turn black, the grandparent
        red, and the repair starts over at the grandparent.  Otherwise case 4. */
    method InsertCase3(n: int, ghost p: Path)
      requires LinkInv() && InsertInv(tree, p) && IsAt(n, p) && p != []
      requires ColorOf(At(tree, Parent(p)), NIL) == Red
      modifies this
      ensures LinkInv() && IsRB(tree, NIL) && Elems(tree) == old(Elems(tree))
      ensures |slots| == old(|slots|)
      decreases |p|, 3
    {
      InsertGrand(tree, p);
      var uncle := Uncle(n, p);
      var grandFather := GrandFather(n, p);
      NodeInArena(tree, slots, p);
      if At(tree, Sibling(Parent(p))).Node? { NodeInArena(tree, slots, Sibling(Parent(p))); }
      if uncle != NIL && slots[uncle].info == Red {
        InsertCase3Step(tree, p);
        SetColor(slots[n].parent, Black, Parent(p));
        SetColor(uncle, Black, Sibling(Parent(p)));
        SetColor(grandFather, Red, Parent(Parent(p)));
        InsertCase1(grandFather, Parent(Parent(p)));
      } else {
        InsertCase4(n, p);
      }
    }

    /** InsertCase4: an inner grandchild; rotating the parent makes the old
        parent an outer grandchild, which case 5 repairs. */
    method InsertCase4(n: int, ghost p: Path)
      requires LinkInv() && InsertInv(tree, p) && IsAt(n, p) && |p| >= 2
      requires ColorOf(At(tree, Parent(p)), NIL) == Red
      requires ColorOf(At(tree, Sibling(Parent(p))), NIL) == Black
      modifies this
      ensures LinkInv() && IsRB(tree, NIL) && Elems(tree) == old(Elems(tree))
      ensures |slots| == old(|slots|)
      decreases |p|, 2
    {
      InsertLocal(tree, p);
      NodeInArena(tree, slots, p);
      NodeInArena(tree, slots, Parent(p));
      var node := n;
      var parent := slots[n].parent;
      ghost var P, G := Parent(p), Parent(Parent(p));
      if n == slots[parent].right && parent == slots[slots[parent].parent].left {
        InsertCase4Step(tree, p);
        RotateLeft(parent, P);
        NodeInArena(tree, slots, P);
        node := slots[node].left;
        InsertCase5(node, G + [L, L]);
      } else if n == slots[parent].left && parent == slots[slots[parent].parent].right {
        InsertCase4Step(tree, p);
        RotateRight(parent, P);
        NodeInArena(tree, slots, P);
        node := slots[node].right;
        InsertCase5(node, G + [R, R]);
      } else {
        InsertCase5(n, p);
      }
    }

    /** InsertCase5: an outer grandchild under a red parent and a black uncle;
        the parent turns black, the grandparent red and rotates away. */
    method InsertCase5(n: int, ghost p: Path)
      requires LinkInv() && InsertCase5Pre(tree, p) && IsAt(n, p)
      modifies this
      ensures LinkInv() && IsRB(tree, NIL) && Elems(tree) == old(Elems(tree))
      ensures |slots| == old(|slots|)
      decreases |p|, 1
    {
      InsertCase5Done(tree, p);
      TurnCase5(n, p);
    }

    /** The recolouring and the rotation of InsertCase5, as one change of the tree. */
    method TurnCase5(n: int, ghost p: Path)
      requires LinkInv() && InsertCase5Pre(tree, p) && IsAt(n, p)
      modifies this
      ensures LinkInv() && tree == Case5Turned(old(tree), p)
      ensures |slots| == old(|slots|)
    {
      InsertLocal(tree, p);
      InsertCase5Done(tree, p);
      ghost var P, G := Parent(p), Parent(Parent(p));
      NodeInArena(tree, slots, p);
      NodeInArena(tree, slots, P);
      var grandFather := GrandFather(n, p);
      var parent := slots[n].parent;
      SetColor(parent, Black, P);
      SetColor(grandFather, Red, G);
      if n == slots[slots[n].parent].left {
        RotateRight(grandFather, G);
      } else {
        RotateLeft(grandFather, G);
      }
    }

    // -------------------------------------------------------------------
    // Queries

    /** MinNode: the leftmost node below `x` (NIL for NIL), the first in key
        order among the nodes below `x`. */
    method MinNode(x: int, ghost p: Path) returns (m: int, ghost q: Path)
      requires LinkInv() && Reaches(tree, p) && x == Id(At(tree, p))
      ensures m == NIL <==> x == NIL
      ensures m != NIL ==> (IsAt(m, q) && |q| >= |p| && q[..|p|] == p && At(tree, q).left.Leaf? &&
        |Elems(At(tree, p))| > 0 && Elems(At(tree, p))[0] == (m, At(tree, q).key))
    {
      m, q := x, p;
      if m != NIL {
        ghost var rest: seq<(nat, int)> := [];
        NodeInArena(tree, slots, q);
        while slots[m].left != NIL
          invariant IsAt(m, q) && |q| >= |p| && q[..|p|] == p && 0 <= m < |slots|
          invariant slots[m].left == Id(At(tree, q).left)
          invariant Elems(At(tree, p)) == Elems(At(tree, q)) + rest
          decreases Count(At(tree, q))
        {
          ghost var u := At(tree, q);
          NodeInArena(tree, slots, q);
          LeftStep(tree, q, Elems(At(tree, p)), rest);
          PrefixAppend(q, L, |p|);
          rest := [(m, u.key)] + Elems(u.right) + rest;
          m, q := slots[m].left, q + [L];
          NodeInArena(tree, slots, q);
        }
      }
    }

    /** MaxNode: the rightmost node below `x` (NIL for NIL), the last in key
        order among the nodes below `x`. */
    method MaxNode(x: int, ghost p: Path) returns (m: int, ghost q: Path)
      requires LinkInv() && Reaches(tree, p) && x == Id(At(tree, p))
      ensures m == NIL <==> x == NIL
      ensures m != NIL ==> (IsAt(m, q) && |q| >= |p| && q[..|p|] == p && At(tree, q).right.Leaf? &&
        |Elems(At(tree, p))| > 0 && Elems(At(tree, p))[|Elems(At(tree, p))| - 1] == (m, At(tree, q).key))
    {
      m, q := x, p;
      if m != NIL {
        ghost var rest: seq<(nat, int)> := [];
        NodeInArena(tree, slots, q);
        while slots[m].right != NIL
          invariant IsAt(m, q) && |q| >= |p| && q[..|p|] == p && 0 <= m < |slots|
          invariant slots[m].right == Id(At(tree, q).right)
          invariant Elems(At(tree, p)) == rest + Elems(At(tree, q))
          decreases Count(At(tree, q))
        {
          ghost var u := At(tree, q);
          NodeInArena(tree, slots, q);
          RightStep(tree, q, Elems(At(tree, p)), rest);
          PrefixAppend(q, R, |p|);
          rest := rest + Elems(u.left) + [(m, u.key)];
          m, q := slots[m].right, q + [R];
          NodeInArena(tree, slots, q);
        }
      }
    }

    /** Find(key, _root): walks down from `x`, right past smaller keys and
        left otherwise, and stops at the first node holding `key`; NIL exactly
        when no node below `x` holds it. */
    method Find(key: int, x: int, ghost p: Path) returns (r: int, ghost q: Path)
      requires LinkInv() && Ordered(tree) && Reaches(tree, p) && x == Id(At(tree, p))
      ensures r == NIL <==> key !in Keys(At(tree, p))
      ensures r != NIL ==> IsAt(r, q) && At(tree, q).key == key && |q| >= |p|
    {
      r, q := x, p;
      OrderedAt(tree, p);
      if r != NIL { NodeInArena(tree, slots, q); }
      while r != NIL && slots[r].key != key
        invariant Reaches(tree, q) && r == Id(At(tree, q)) && |q| >= |p| && Ordered(At(tree, q))
        invariant r != NIL ==> (0 <= r < |slots| && slots[r] == SlotAt(tree, q))
        invariant key in Keys(At(tree, p)) <==> key in Keys(At(tree, q))
        decreases Count(At(tree, q))
      {
        ghost var d := if At(tree, q).key < key then R else L;
        FindDescend(tree, slots, q, key);
        if slots[r].key < key {
          r := slots[r].right;
        } else {
          r := slots[r].left;
        }
        q := q + [d];
      }
      if r == NIL {
        assert Keys(At(tree, q)) == [];
      } else {
        KeysNode(At(tree, q));
        assert key in Keys(At(tree, q));
      }
    }

    // -------------------------------------------------------------------
    // Deletion fixup.  The subject `n` at `p` is black and one black level
    // short; `ph` is the childless node about to be unhooked (NIL when the
    // node was already spliced out), and it stays below the subject.  A
    // phantom that hangs on side `d` before the fixup still hangs on side `d`
    // after it, which the unhooking after the fixup relies on.

    /** DeleteCase1: at the root nothing is left to repair; otherwise case 2. */
    method DeleteCase1(n: int, ghost p: Path, ghost ph: int, ghost phn: RBTree, ghost d: Dir)
      requires LinkInv() && DeleteInv(tree, p, ph) && IsAt(n, p) && PhantomIn(At(tree, p), ph, phn)
      modifies this
      ensures LinkInv() && IsRB(tree, ph) && Elems(tree) == old(Elems(tree)) && PhantomIn(tree, ph, phn)
      ensures |slots| == old(|slots|)
      ensures ph != NIL && old(HangsAt(tree, p, phn, d)) ==> HangsOn(tree, phn, d)
      decreases Count(tree) - Count(At(tree, p)), 6
    {
      NodeInArena(tree, slots, p);
      CountAtMost(tree, p);
      if slots[n].parent != NIL {
        DeleteCase2(n, p, ph, phn, d);
      } else {
        DeleteCase1Done(tree, ph);
      }
    }

    /** DeleteCase2: a red brother; parent red, brother black and a rotation
        at the parent toward the subject give it a black brother.  Then case 3. */
    method DeleteCase2(n: int, ghost p: Path, ghost ph: int, ghost phn: RBTree, ghost d: Dir)
      requires LinkInv() && DeleteInv(tree, p, ph) && IsAt(n, p) && PhantomIn(At(tree, p), ph, phn) && p != []
      modifies this
      ensures LinkInv() && IsRB(tree, ph) && Elems(tree) == old(Elems(tree)) && PhantomIn(tree, ph, phn)
      ensures |slots| == old(|slots|)
      ensures ph != NIL && old(HangsAt(tree, p, phn, d)) ==> HangsOn(tree, phn, d)
      decreases Count(tree) - Count(At(tree, p)), 5
    {
      DeleteView(tree, slots, p, ph, phn);
      ghost var P, dX := Parent(p), Last(p);
      var brother := Brother(n, p);
      if slots[brother].info == Red {
        TurnRedBrother(n, brother, p, ph, phn);
        ghost var q := P + [dX, dX];
        assert Last(q) == dX;
        DeleteCase3(n, q, ph, phn, d);
      } else {
        DeleteCase3(n, p, ph, phn, d);
      }
    }

    /** The recolouring and rotation of DeleteCase2. */
    method TurnRedBrother(n: int, brother: int, ghost p: Path, ghost ph: int, ghost phn: RBTree)
      requires LinkInv() && DeleteInv(tree, p, ph) && IsAt(n, p) && PhantomIn(At(tree, p), ph, phn) && p != []
      requires IsAt(brother, Sibling(p)) && ColorOf(At(tree, Sibling(p)), ph) == Red
      modifies this
      ensures LinkInv() && |slots| == old(|slots|)
      ensures var q := Parent(p) + [Last(p), Last(p)];
        DeleteInv(tree, q, ph) && IsAt(n, q) && At(tree, q) == old(At(tree, p)) &&
        ColorOf(At(tree, Sibling(q)), ph) == Black &&
        Elems(tree) == old(Elems(tree)) && Count(tree) == old(Count(tree))
    {
      ghost var t0, P := tree, Parent(p);
      DeleteCase2Step(tree, p, ph);
      DeleteView(tree, slots, p, ph, phn);
      var parent := slots[n].parent;
      SetColor(parent, Red, P);
      SetColor(brother, Black, Sibling(p));
      PaintId(t0, P, Red, P);
      PaintId(Paint(t0, P, Red), Sibling(p), Black, P);
      if n == slots[parent].left {
        RotateLeft(parent, P);
      } else {
        RotateRight(parent, P);
      }
    }

    /** DeleteCase3: black parent, brother and nephews; the brother turns red
        and the shortage moves up to the parent.  Otherwise case 4. */
    method DeleteCase3(n: int, ghost p: Path, ghost ph: int, ghost phn: RBTree, ghost d: Dir)
      requires LinkInv() && DeleteInv(tree, p, ph) && IsAt(n, p) && PhantomIn(At(tree, p), ph, phn) && p != []
      requires ColorOf(At(tree, Sibling(p)), ph) == Black
      modifies this
      ensures LinkInv() && IsRB(tree, ph) && Elems(tree) == old(Elems(tree)) && PhantomIn(tree, ph, phn)
      ensures |slots| == old(|slots|)
      ensures ph != NIL && old(HangsAt(tree, p, phn, d)) ==> HangsOn(tree, phn, d)
      decreases Count(tree) - Count(At(tree, p)), 4
    {
      DeleteView(tree, slots, p, ph, phn);
      var brother := Brother(n, p);
      var parent := slots[n].parent;
      var repaint :=
        slots[parent].info == Black && slots[brother].info == Black &&
        CellColor(slots, slots[brother].left) == Black &&
        CellColor(slots, slots[brother].right) == Black;
      if repaint {
        ghost var hangs := ph != NIL && HangsAt(tree, p, phn, d);
        DeleteCase3Step(tree, p, ph);
        SetColor(brother, Red, Sibling(p));
        PaintId(old(tree), Sibling(p), Red, Parent(p));
        if ph != NIL { ContainsUp(tree, Parent(p), [Last(p)], phn); }
        if hangs { HangsParent(tree, p, phn, d); }
        CountAtMost(tree, Parent(p));
        DeleteCase1(parent, Parent(p), ph, phn, d);
      } else {
        DeleteCase4(n, p, ph, phn, d);
      }
    }

    /** DeleteCase4: red parent, black brother and nephews; swapping the
        colours of parent and brother finishes the repair.  Otherwise case 5. */
    method DeleteCase4(n: int, ghost p: Path, ghost ph: int, ghost phn: RBTree, ghost d: Dir)
      requires LinkInv() && DeleteInv(tree, p, ph) && IsAt(n, p) && PhantomIn(At(tree, p), ph, phn) && p != []
      requires ColorOf(At(tree, Sibling(p)), ph) == Black
      requires !(ColorOf(At(tree, Parent(p)), ph) == Black && NephewsBlack(tree, p, ph))
      modifies this
      ensures LinkInv() && IsRB(tree, ph) && Elems(tree) == old(Elems(tree)) && PhantomIn(tree, ph, phn)
      ensures |slots| == old(|slots|)
      ensures ph != NIL && old(HangsAt(tree, p, phn, d)) ==> HangsOn(tree, phn, d)
      decreases Count(tree) - Count(At(tree, p)), 3
    {
      DeleteView(tree, slots, p, ph, phn);
      var brother := Brother(n, p);
      var parent := slots[n].parent;
      var repaint :=
        slots[parent].info == Red && slots[brother].info == Black &&
        CellColor(slots, slots[brother].left) == Black &&
        CellColor(slots, slots[brother].right) == Black;
      if repaint {
        ghost var hangs := ph != NIL && HangsAt(tree, p, phn, d);
        DeleteCase4Done(tree, p, ph);
        SetColor(brother, Red, Sibling(p));
        PaintId(old(tree), Sibling(p), Red, Parent(p));
        SetColor(parent, Black, Parent(p));
        if ph != NIL { ContainsAt(tree, p, phn); }
        if hangs { HangsUp(tree, p, phn, d); }
      } else {
        DeleteCase5(n, p, ph, phn, d);
      }
    }

    /** DeleteCase5: black brother whose near child is red and far child
        black; the two swap colours and a rotation at the brother makes the
        far child red.  Then case 6.  An absent nephew reads as black here
        (Case5ReadsNull: the source reads its colour through the null pointer). */
    method DeleteCase5(n: int, ghost p: Path, ghost ph: int, ghost phn: RBTree, ghost d: Dir)
      requires LinkInv() && DeleteInv(tree, p, ph) && IsAt(n, p) && PhantomIn(At(tree, p), ph, phn) && p != []
      requires ColorOf(At(tree, Sibling(p)), ph) == Black && !NephewsBlack(tree, p, ph)
      modifies this
      ensures LinkInv() && IsRB(tree, ph) && Elems(tree) == old(Elems(tree)) && PhantomIn(tree, ph, phn)
      ensures |slots| == old(|slots|)
      ensures ph != NIL && old(HangsAt(tree, p, phn, d)) ==> HangsOn(tree, phn, d)
      decreases Count(tree) - Count(At(tree, p)), 2
    {
      DeleteView(tree, slots, p, ph, phn);
      ghost var S := Sibling(p);
      var brother := Brother(n, p);
      var parent := slots[n].parent;
      if slots[brother].info == Black {
        var leftChild :=
          n == slots[parent].left &&
          CellColor(slots, slots[brother].right) == Black &&
          CellColor(slots, slots[brother].left) == Red;
        var rightChild :=
          n == slots[parent].right &&
          CellColor(slots, slots[brother].left) == Black &&
          CellColor(slots, slots[brother].right) == Red;
        if leftChild {
          DeleteCase5Step(tree, p, ph);
          var nephew := slots[brother].left;
          SetColor(brother, Red, S);
          SetColor(nephew, Black, Near(p));
          PaintId(old(tree), S, Red, S);
          PaintId(Paint(old(tree), S, Red), Near(p), Black, S);
          RotateRight(brother, S);
        } else if rightChild {
          DeleteCase5Step(tree, p, ph);
          var nephew := slots[brother].right;
          SetColor(brother, Red, S);
          SetColor(nephew, Black, Near(p));
          PaintId(old(tree), S, Red, S);
          PaintId(Paint(old(tree), S, Red), Near(p), Black, S);
          RotateLeft(brother, S);
        }
      }
      DeleteCase6(n, p, ph, phn, d);
    }

    /** DeleteCase6: black brother with a red far child; the brother takes the
        parent's colour, parent and far child turn black, and a rotation at
        the parent toward the subject makes up the missing black level. */
    method DeleteCase6(n: int, ghost p: Path, ghost ph: int, ghost phn: RBTree, ghost d: Dir)
      requires LinkInv() && DeleteCase6Pre(tree, p, ph) && IsAt(n, p) && PhantomIn(At(tree, p), ph, phn)
      modifies this
      ensures LinkInv() && IsRB(tree, ph) && Elems(tree) == old(Elems(tree)) && PhantomIn(tree, ph, phn)
      ensures |slots| == old(|slots|)
      ensures ph != NIL && old(HangsAt(tree, p, phn, d)) ==> HangsOn(tree, phn, d)
      decreases Count(tree) - Count(At(tree, p)), 1
    {
      ghost var hangs := ph != NIL && HangsAt(tree, p, phn, d);
      DeleteCase6Done(tree, p, ph);
      ghost var P, dX := Parent(p), Last(p);
      TurnCase6(n, p, ph, phn);
      if ph != NIL { ContainsAt(tree, P + [dX, dX], phn); }
      if hangs {
        HangsMoved(old(tree), p, tree, P + [dX, dX], phn, d);
      }
    }

    /** The recolouring and the rotation of DeleteCase6, as one change of the tree. */
    method TurnCase6(n: int, ghost p: Path, ghost ph: int, ghost phn: RBTree)
      requires LinkInv() && DeleteCase6Pre(tree, p, ph) && IsAt(n, p) && PhantomIn(At(tree, p), ph, phn)
      modifies this
      ensures LinkInv() && |slots| == old(|slots|) && tree == Case6Turned(old(tree), p, ph)
    {
      DeleteView(tree, slots, p, ph, phn);
      DeleteCase6Done(tree, p, ph);
      ghost var P, S := Parent(p), Sibling(p);
      var brother := Brother(n, p);
      var parent := slots[n].parent;
      SetColor(brother, slots[parent].info, S);
      SetColor(parent, Black, P);
      var side := if n == slots[parent].left then L else R;
      SetColor(Link(slots[brother], Other(side)), Black, Far(p));
      PaintId(Paint(Paint(old(tree), S, old(At(tree, P)).info), P, Black), Far(p), Black, P);
      Rotate(parent, side, P);
    }

    // -------------------------------------------------------------------
    // Erase

    /** Erase: removes one occurrence of `key` (the node Find stops at) and
        keeps the red-black search tree; a missing key changes nothing. */
    method Erase(key: int)
      requires Valid()
      modifies this
      ensures Valid()
      ensures key !in old(Contents()) ==> Contents() == old(Contents())
      ensures key in old(Contents()) ==>
        exists i :: 0 <= i < |old(Contents())| && old(Contents())[i] == key &&
          Contents() == old(Contents())[..i] + old(Contents())[i + 1..]
    {
      var target;
      ghost var q;
      target, q := Find(key, root, []);
      if target == NIL {
        return;
      }
      NodeInArena(tree, slots, q);
      ghost var i;
      if slots[target].left == NIL && slots[target].right == NIL {
        i := EraseTargetLeaf(target, q);
      } else {
        i := EraseTargetInner(target, q);
      }
    }

    /** Erase of a target `x` at `q` without children: its key, at position
        `i`, is gone. */
    method EraseTargetLeaf(x: int, ghost q: Path) returns (ghost i: nat)
      requires Valid() && IsAt(x, q) && At(tree, q).left.Leaf? && At(tree, q).right.Leaf?
      modifies this
      ensures Valid()
      ensures i < |old(Contents())| && old(Contents())[i] == old(At(tree, q)).key
      ensures Contents() == old(Contents())[..i] + old(Contents())[i + 1..]
    {
      ghost var t0, e := tree, Elems(tree);
      AtNodeReaches(tree, q);
      ElemsIndex(tree, q);
      i := |Before(tree, q)| + Count(At(tree, q).left);
      KeysOfIndex(e, i);
      ghost var j := RemoveLeaf(x, q);
      ElemsSameId(t0, i, j);
      KeysRemoved(e, i, Elems(tree));
    }

    /** The leaf branch of Erase for the childless node `x` at `q`: a black
        one is repaired around first (DeleteCase1, with `x` still attached
        and read as absent); then `root` is cleared if `x` is the root, and
        otherwise `x` is unhooked from its parent, from the right link if it
        is a right child and from the left one otherwise.  Its in-order
        element `j` is gone. */
    method RemoveLeaf(x: int, ghost q: Path) returns (ghost j: nat)
      requires LinkInv() && IsRB(tree, NIL) && IsAt(x, q)
      requires At(tree, q).left.Leaf? && At(tree, q).right.Leaf?
      modifies this
      ensures LinkInv() && IsRB(tree, NIL) && |slots| == old(|slots|)
      ensures j < |old(Elems(tree))| && old(Elems(tree))[j].0 == x
      ensures Elems(tree) == old(Elems(tree))[..j] + old(Elems(tree))[j + 1..]
    {
      ghost var phn := At(tree, q);
      RepairAround(x, q);
      ghost var q2 := CutPhantom(tree, phn);
      j := |Before(tree, q2)|;
      NodeInArena(tree, slots, q2);
      if slots[x].parent == NIL {
        root := NIL;
        tree := Leaf;
      } else {
        Unhook(x, q2);
      }
    }

    /** The fixup before the childless node `x` at `q` is cut out: a black
        one goes through DeleteCase1 with `x` read as absent, a red one needs
        none.  After it, the tree without `x` is a red-black tree. */
    method RepairAround(x: int, ghost q: Path)
      requires LinkInv() && IsRB(tree, NIL) && IsAt(x, q)
      requires At(tree, q).left.Leaf? && At(tree, q).right.Leaf?
      modifies this
      ensures LinkInv() && IsRB(tree, x) && Elems(tree) == old(Elems(tree))
      ensures Contains(tree, old(At(tree, q))) && |slots| == old(|slots|)
    {
      ghost var phn := At(tree, q);
      NodeInArena(tree, slots, q);
      if slots[x].info == Black {
        DeleteStart(tree, q);
        DeleteCase1(x, q, x, phn, L);
      } else {
        RedLeafPhantom(tree, q);
        ContainsAt(tree, q, phn);
      }
    }

    /** `target->parent->right = nullptr` for a right child, the left link
        otherwise: the childless node `x` at `q` leaves the tree. */
    method Unhook(x: int, ghost q: Path)
      requires LinkInv() && IsAt(x, q) && q != [] && At(tree, q).left.Leaf? && At(tree, q).right.Leaf?
      modifies this
      ensures LinkInv() && tree == Put(old(tree), q, Leaf)
      ensures |slots| == old(|slots|) && root == old(root)
    {
      UnlinkLinks(tree, slots, q);
      var par := slots[x].parent;
      if slots[par].right == x {
        slots := slots[par := slots[par].(right := NIL)];
      } else {
        slots := slots[par := slots[par].(left := NIL)];
      }
      tree := Put(tree, q, Leaf);
    }

    /** Erase of a target `x` at `q` with a child: the next node in key order
        (MinNode of the right subtree) or, without a right child, the previous
        one (MaxNode of the left subtree) hands its key over (PlaceTo) and is
        removed in its stead.  The key at the target's position `i` is gone. */
    method EraseTargetInner(x: int, ghost q: Path) returns (ghost i: nat)
      requires Valid() && IsAt(x, q) && !(At(tree, q).left.Leaf? && At(tree, q).right.Leaf?)
      modifies this
      ensures Valid()
      ensures i < |old(Contents())| && old(Contents())[i] == old(At(tree, q)).key
      ensures Contents() == old(Contents())[..i] + old(Contents())[i + 1..]
    {
      ghost var t0, e := tree, Elems(tree);
      AtNodeReaches(tree, q);
      ElemsIndex(tree, q);
      KeysOfIndex(e, |Before(tree, q)| + Count(At(tree, q).left));
      var node, child;
      ghost var nq, j;
      node, child, nq, i, j := TakeReplacement(x, q);
      ghost var t1 := tree;
      ghost var j' := RemoveReplacement(node, child, nq);
      ElemsSameId(t1, j, j');
      InnerKeys(e, i, j, Elems(t1), Elems(tree));
    }

    /** The first half of Erase for a target `x` at `q` with a child: the
        replacement `node` (at `nq`, with the one child `child` or none)
        hands its key over to `x` (PlaceTo).  Its element `j` is next to the
        target's `i`. */
    method TakeReplacement(x: int, ghost q: Path)
      returns (node: int, child: int, ghost nq: Path, ghost i: nat, ghost j: nat)
      requires LinkInv() && IsRB(tree, NIL) && IsAt(x, q)
      requires At(tree, q).left.Node? || At(tree, q).right.Node?
      modifies this
      ensures LinkInv() && IsRB(tree, NIL) && |slots| == old(|slots|)
      ensures IsAt(node, nq) && nq != [] && (At(tree, nq).left.Leaf? || At(tree, nq).right.Leaf?)
      ensures child == Id(OnlyChild(At(tree, nq)))
      ensures var e := old(Elems(tree));
        i == old(|Before(tree, q)| + Count(At(tree, q).left)) &&
        i < |e| && j < |e| && (j == i + 1 || j + 1 == i) && e[i].0 == x && e[j].0 == node &&
        Elems(tree) == e[i := (x, e[j].1)]
    {
      ghost var t0, e := tree, Elems(tree);
      AtNodeReaches(tree, q);
      ElemsIndex(tree, q);
      i := |Before(tree, q)| + Count(At(tree, q).left);
      node, nq, j := Replacement(x, q);
      NodeInArena(tree, slots, nq);
      ghost var u := At(tree, nq);
      child := if slots[node].left != NIL then slots[node].left else slots[node].right;
      ghost var k := slots[node].key;
      assert e[j] == (node, k);
      PlaceTo(node, x, q);
      assert Elems(tree) == e[i := (x, k)];
      AtPutBelow(t0, q, At(t0, q).(key := u.key), nq);
    }

    /** The node that replaces the target `x` at `q`: MinNode of the right
        subtree, or MaxNode of the left one when there is no right child.  It
        lies below `x`, has at most one child, and its position `j` is right
        after or right before that of `x`. */
    method Replacement(x: int, ghost q: Path) returns (node: int, ghost nq: Path, ghost j: nat)
      requires LinkInv() && IsAt(x, q) && (At(tree, q).left.Node? || At(tree, q).right.Node?)
      ensures IsAt(node, nq) && |nq| > |q| && nq[..|q|] == q
      ensures At(tree, nq).left.Leaf? || At(tree, nq).right.Leaf?
      ensures var i := |Before(tree, q)| + Count(At(tree, q).left);
        (j == i + 1 || j + 1 == i) && j < |Elems(tree)| && Elems(tree)[j] == (node, At(tree, nq).key)
    {
      ghost var i := |Before(tree, q)| + Count(At(tree, q).left);
      NodeInArena(tree, slots, q);
      AtChild(tree, q, L);
      AtChild(tree, q, R);
      if slots[x].right != NIL {
        node, nq := MinNode(slots[x].right, q + [R]);
        ElemsNext(tree, q);
        j := i + 1;
      } else {
        node, nq := MaxNode(slots[x].left, q + [L]);
        ElemsPrev(tree, q);
        j := i - 1;
      }
      assert nq[..|q|] == q by { assert nq[..|q| + 1][..|q|] == nq[..|q|]; }
    }

    /** The end of Erase for the replacement `x` at `q` with at most one child
        `c`: ReplaceWith(child) hangs `c` (or nothing) in its place; a black
        `x` without a child goes through the re-hanging repair
        (Complications), a black one with a child has it turn black, and a red
        one is simply gone.  Its element `j` is gone. */
    method RemoveReplacement(x: int, c: int, ghost q: Path) returns (ghost j: nat)
      requires LinkInv() && IsRB(tree, NIL) && IsAt(x, q) && q != []
      requires (At(tree, q).left.Leaf? || At(tree, q).right.Leaf?) && c == Id(OnlyChild(At(tree, q)))
      modifies this
      ensures LinkInv() && IsRB(tree, NIL) && |slots| == old(|slots|)
      ensures j < |old(Elems(tree))| && old(Elems(tree))[j].0 == x
      ensures Elems(tree) == old(Elems(tree))[..j] + old(Elems(tree))[j + 1..]
    {
      ghost var u := At(tree, q);
      j := |Before(tree, q)| + Count(u.left);
      if c != NIL {
        RemoveSpliced(x, c, q);
      } else {
        RemoveChildless(x, q);
      }
    }

    /** RemoveReplacement when the replacement `x` has the child `c`: the red
        child takes its place and turns black. */
    method RemoveSpliced(x: int, c: int, ghost q: Path)
      requires LinkInv() && IsRB(tree, NIL) && IsAt(x, q) && q != []
      requires (At(tree, q).left.Leaf? || At(tree, q).right.Leaf?) && c == Id(OnlyChild(At(tree, q))) && c != NIL
      modifies this
      ensures LinkInv() && IsRB(tree, NIL) && |slots| == old(|slots|)
      ensures var j := |Before(old(tree), q)| + Count(old(At(tree, q)).left);
        j < |old(Elems(tree))| && old(Elems(tree))[j].0 == x &&
        Elems(tree) == old(Elems(tree))[..j] + old(Elems(tree))[j + 1..]
    {
      ghost var t0 := tree;
      AtNodeReaches(tree, q);
      NodeInArena(tree, slots, q);
      SpliceTree(t0, q);
      ReplaceWith(x, c, q);
      if slots[x].info == Black {
        ChildToBlack(c, q);
      }
    }

    /** RemoveReplacement when the replacement `x` is childless: a red one
        simply goes; a black one goes through the complications branch. */
    method RemoveChildless(x: int, ghost q: Path)
      requires LinkInv() && IsRB(tree, NIL) && IsAt(x, q) && q != []
      requires At(tree, q).left.Leaf? && At(tree, q).right.Leaf?
      modifies this
      ensures LinkInv() && IsRB(tree, NIL) && |slots| == old(|slots|)
      ensures var j := |Before(old(tree), q)|;
        j < |old(Elems(tree))| && old(Elems(tree))[j].0 == x &&
        Elems(tree) == old(Elems(tree))[..j] + old(Elems(tree))[j + 1..]
    {
      ghost var t0, u, s0 := tree, At(tree, q), slots;
      AtNodeReaches(tree, q);
      RemoveElems(t0, q, Leaf);
      NodeInArena(tree, slots, q);
      if u.info == Red {
        RedLeafPhantom(t0, q);
        DeleteFinish(t0, q);
      }
      ReplaceWith(x, NIL, q);
      if slots[x].info == Black {
        Complications(x, q, t0, s0);
      }
    }

    /** Erase's `else if (child->isRed()) child->toBlack()` for the child `c`
        that took the place `q` of a black node: by the red-black rules it is
        red, and blackening it makes up the removed black level (the last
        branch, DeleteCase1 on a black child, cannot be taken). */
    method ChildToBlack(c: int, ghost q: Path)
      requires LinkInv() && IsAt(c, q) && At(tree, q).info == Red
      requires IsRB(Paint(tree, q, Black), NIL)
      modifies this
      ensures LinkInv() && IsRB(tree, NIL) && tree == Paint(old(tree), q, Black)
      ensures Elems(tree) == old(Elems(tree)) && |slots| == old(|slots|)
    {
      NodeInArena(tree, slots, q);
      if slots[c].info == Red {
        SetColor(c, Black, q);
      } else {
        assert false;
      }
    }

    /** The "complications" branch of Erase: the black childless replacement
        `x`, which ReplaceWith took out of the tree `t0` (in which it sat at
        `q`, with the arena `s0`), is hung back on the left of its parent if
        the parent has a right child and on the right otherwise, which is its
        old side; the fixup runs with `x` in place and read as absent, and
        `x` is unhooked again from that same side of its parent. */
    method Complications(x: int, ghost q: Path, ghost t0: RBTree, ghost s0: seq<Slot<Color>>)
      requires Linked(t0, NIL, s0) && Distinct(t0) && IsRB(t0, NIL) && q != []
      requires At(t0, q).Node? && At(t0, q).id == x && At(t0, q).info == Black
      requires At(t0, q).left.Leaf? && At(t0, q).right.Leaf?
      requires var g := Id(At(t0, Parent(q)));
        0 <= g < |s0| && slots == s0[g := SetLink(s0[g], Last(q), NIL)]
      requires tree == Put(t0, q, Leaf) && root == Id(t0)
      modifies this
      ensures LinkInv() && IsRB(tree, NIL) && |slots| == old(|slots|)
      ensures var j := |Before(t0, q)|;
        j < |Elems(t0)| && Elems(t0)[j].0 == x && Elems(tree) == Elems(t0)[..j] + Elems(t0)[j + 1..]
    {
      ghost var phn := At(t0, q);
      var hasRight := Rehang(x, q, t0, s0);
      ghost var d := if hasRight then L else R;
      DeleteStart(tree, q);
      assert HangsAt(tree, q, phn, d);
      DeleteCase1(x, q, x, phn, d);
      ghost var t1 := tree;
      ghost var q2 := CutPhantom(tree, phn);
      HangsLink(tree, NIL, slots, phn, d);
      HangsNotRoot(tree, phn, d);
      UnhookSide(x, q2, hasRight);
      AtNodeReaches(t0, q);
      ElemsIndex(t0, q);
      ElemsSameId(t0, |Before(t0, q)|, |Before(t1, q2)|);
    }

    /** The re-hanging in Erase's "complications": `x`, which ReplaceWith
        unhooked from the side `Last(q)` of its parent, goes back on the left
        when the parent's right link is set and on the right otherwise; the
        parent's other child is never absent here, so this restores the old
        links (`hasRight` says which side was taken). */
    method Rehang(x: int, ghost q: Path, ghost t0: RBTree, ghost s0: seq<Slot<Color>>) returns (hasRight: bool)
      requires Linked(t0, NIL, s0) && Distinct(t0) && IsRB(t0, NIL) && q != []
      requires At(t0, q).Node? && At(t0, q).id == x && At(t0, q).info == Black
      requires At(t0, q).left.Leaf? && At(t0, q).right.Leaf?
      requires var g := Id(At(t0, Parent(q)));
        0 <= g < |s0| && slots == s0[g := SetLink(s0[g], Last(q), NIL)]
      modifies this
      ensures slots == s0 && tree == t0 && root == old(root)
      ensures hasRight <==> Last(q) == L
    {
      RehangView(t0, s0, q, x);
      var par := slots[x].parent;
      hasRight := slots[par].right != NIL;
      if hasRight {
        slots := slots[par := slots[par].(left := x)];
      } else {
        slots := slots[par := slots[par].(right := x)];
      }
      tree := t0;
    }

    /** `node->parent->left = nullptr` (or `right`) after the fixup: the
        childless node `x` at `q`, which its parent holds on the side
        `hasRight` names, leaves the tree. */
    method UnhookSide(x: int, ghost q: Path, hasRight: bool)
      requires LinkInv() && IsAt(x, q) && At(tree, q).left.Leaf? && At(tree, q).right.Leaf?
      requires 0 <= x < |slots| && 0 <= slots[x].parent < |slots| && Link(slots[slots[x].parent], if hasRight then L else R) == x
      modifies this
      ensures LinkInv() && tree == Put(old(tree), q, Leaf) && q != []
      ensures |slots| == old(|slots|) && root == old(root)
    {
      NodeInArena(tree, slots, q);
      UnlinkLinks(tree, slots, q);
      var par := slots[x].parent;
      if hasRight {
        slots := slots[par := slots[par].(left := NIL)];
      } else {
        slots := slots[par := slots[par].(right := NIL)];
      }
      tree := Put(tree, q, Leaf);
    }

    /** EraseLeaf, which Erase does not call: the childless node `x` at `q`
        is unhooked from its parent (or `root` is cleared) with no repair;
        its key goes. */
    method EraseLeaf(x: int, ghost q: Path)
      requires LinkInv() && IsAt(x, q) && At(tree, q).left.Leaf? && At(tree, q).right.Leaf?
      modifies this
      ensures LinkInv() && tree == Put(old(tree), q, Leaf) && |slots| == old(|slots|)
      ensures var j := old(|Before(tree, q)|);
        j < |old(Contents())| && old(Contents())[j] == old(At(tree, q)).key &&
        Contents() == old(Contents())[..j] + old(Contents())[j + 1..]
    {
      AtNodeReaches(tree, q);
      LeafKeys(tree, q);
      NodeInArena(tree, slots, q);
      if slots[x].parent == NIL {
        root := NIL;
        tree := Leaf;
      } else {
        UnlinkLinks(tree, slots, q);
        var par := slots[x].parent;
        if slots[par].left == x {
          slots := slots[par := slots[par].(left := NIL)];
        } else {
          slots := slots[par := slots[par].(right := NIL)];
        }
        tree := Put(tree, q, Leaf);
      }
    }

    /** Node::PlaceTo: node `y` hands its key over to the node `x` at `q`. */
    method PlaceTo(y: int, x: int, ghost q: Path)
      requires LinkInv() && IsAt(x, q) && 0 <= y < |slots|
      modifies this
      ensures 0 <= x < |old(slots)| && LinkInv() && tree == Put(old(tree), q, old(At(tree, q)).(key := old(slots)[y].key))
      ensures slots == old(slots)[x := old(slots)[x].(key := old(slots)[y].key)]
      ensures root == old(root)
      ensures var i := old(|Before(tree, q)| + Count(At(tree, q).left));
        i < |old(Elems(tree))| && Elems(tree) == old(Elems(tree))[i := (x, old(slots)[y].key)]
      ensures old(IsRB(tree, NIL)) ==> IsRB(tree, NIL)
      ensures Reaches(tree, q)
    {
      RekeyLinks(tree, slots, q, slots[y].key);
      tree := Put(tree, q, At(tree, q).(key := slots[y].key));
      slots := slots[x := slots[x].(key := slots[y].key)];
    }

    /** Node::ReplaceWith, with the link back from the child set as well: the
        parent's link to the node `x` at `q` now names `c` (the only child, or
        NIL), `c` names that parent, and `x` lets go of its children; `x` keeps
        its parent link. */
    method ReplaceWith(x: int, c: int, ghost q: Path)
      requires LinkInv() && IsAt(x, q) && q != [] && (At(tree, q).left.Leaf? || At(tree, q).right.Leaf?)
      requires c == Id(OnlyChild(At(tree, q)))
      modifies this
      ensures LinkInv() && tree == Put(old(tree), q, OnlyChild(old(At(tree, q))))
      ensures x !in Ids(tree) && Reaches(tree, q) && At(tree, q) == OnlyChild(old(At(tree, q)))
      ensures root == old(root) && |slots| == old(|slots|) && 0 <= x < |slots|
      ensures slots[x] == old(slots)[x].(left := NIL, right := NIL)
      ensures var g := old(Id(At(tree, Parent(q))));
        c == NIL ==> 0 <= g < |slots| && slots == old(slots)[g := SetLink(old(slots)[g], Last(q), NIL)]
    {
      NodeInArena(tree, slots, q);
      var par := slots[x].parent;
      if c == NIL {
        UnlinkLinks(tree, slots, q);
        AtPut(tree, q, Leaf);
        ghost var t' := Put(tree, q, Leaf);
        if slots[par].left == x {
          slots := slots[par := slots[par].(left := NIL)];
        } else {
          slots := slots[par := slots[par].(right := NIL)];
        }
        tree := t';
      } else {
        SpliceLinks(tree, slots, q);
        ghost var g := At(tree, Parent(q)).id;
        ghost var s1 := slots[g := SetLink(slots[g], Last(q), c)][c := slots[c].(parent := g)];
        ghost var s2 := s1[x := s1[x].(left := NIL, right := NIL)];
        if slots[par].left == x {
          slots := slots[par := slots[par].(left := c)];
        } else {
          slots := slots[par := slots[par].(right := c)];
        }
        slots := slots[c := slots[c].(parent := par)];
        slots := slots[x := slots[x].(left := NIL, right := NIL)];
        assert slots == s2;
        tree := Put(tree, q, OnlyChild(At(tree, q)));
      }
    }

    /** Node::ReplaceWith as written: the parent's link to the node `x` at `q`
        names its only child `c`, and `x` lets go of its children, but `c`
        keeps naming `x` as its parent.  The links then realise no tree with
        `c` in the place of `x`: the child's parent link names a node outside
        that tree, the one Erase then frees. */
    method ReplaceWithAsWritten(x: int, c: int, ghost q: Path)
      requires LinkInv() && IsAt(x, q) && q != [] && (At(tree, q).left.Leaf? || At(tree, q).right.Leaf?)
      requires c == Id(OnlyChild(At(tree, q))) && c != NIL
      modifies this
      ensures root == old(root) && |slots| == old(|slots|) && tree == old(tree)
      ensures var g := old(Id(At(tree, Parent(q))));
        0 <= g < |slots| && 0 <= x < |slots| &&
        slots == old(slots)[g := SetLink(old(slots)[g], Last(q), c)][x := old(slots)[x].(left := NIL, right := NIL)]
      ensures 0 <= c < |slots| && slots[c].parent == x
      ensures x !in Ids(Put(tree, q, OnlyChild(At(tree, q))))
      ensures !Linked(Put(tree, q, OnlyChild(At(tree, q))), NIL, slots)
    {
      SpliceLinks(tree, slots, q);
      ghost var t' := Put(tree, q, OnlyChild(At(tree, q)));
      var par := slots[x].parent;
      if slots[par].left == x {
        slots := slots[par := slots[par].(left := c)];
      } else {
        slots := slots[par := slots[par].(right := c)];
      }
      slots := slots[x := slots[x].(left := NIL, right := NIL)];
      LinkedParent(t', slots, q);
    }
  }

  /** ReplaceWith as written on a concrete tree: the root 2 (black) with the
      black child 1 on the left and 3 on the right, 3 having the red child 4,
      written out by hand; it is the tree inserting 2, 1, 3, 4 gives.
      Erase(2) moves key 3 into the root and hangs 4 in the place of node 3,
      but 4 still names node 3, which Erase then frees, as its parent; with
      that one link set to the root, the links would realise the intended
      tree. */
  method ReplaceWithExample() returns (t: RedBlackTree)
    ensures var u := Node(0, 3, Black, Node(1, 1, Black, Leaf, Leaf), Node(3, 4, Red, Leaf, Leaf));
      |t.slots| == 4 && t.slots[3].parent == 2 && 2 !in Ids(u) &&
      !Linked(u, NIL, t.slots) && Linked(u, NIL, t.slots[3 := t.slots[3].(parent := 0)])
  {
    t := new RedBlackTree();
    t.slots := [Slot(2, Black, NIL, 1, 2), Slot(1, Black, 0, NIL, NIL),
                Slot(3, Black, 0, NIL, 3), Slot(4, Red, 2, NIL, NIL)];
    t.root := 0;
    t.tree := Node(0, 2, Black, Node(1, 1, Black, Leaf, Leaf),
                               Node(2, 3, Black, Leaf, Node(3, 4, Red, Leaf, Leaf)));
    assert Linked(t.tree.right.right, 2, t.slots);
    assert Linked(t.tree.right, 0, t.slots);
    assert Linked(t.tree, NIL, t.slots);
    t.PlaceTo(2, 0, []);
    assert t.slots == [Slot(3, Black, NIL, 1, 2), Slot(1, Black, 0, NIL, NIL),
                       Slot(3, Black, 0, NIL, 3), Slot(4, Red, 2, NIL, NIL)];
    assert t.tree == Node(0, 3, Black, Node(1, 1, Black, Leaf, Leaf),
                                      Node(2, 3, Black, Leaf, Node(3, 4, Red, Leaf, Leaf)));
    t.ReplaceWithAsWritten(2, 3, [R]);
    assert t.slots == [Slot(3, Black, NIL, 1, 3), Slot(1, Black, 0, NIL, NIL),
                       Slot(3, Black, 0, NIL, NIL), Slot(4, Red, 2, NIL, NIL)];
  }
}
