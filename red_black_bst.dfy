/** The red-black map (RedBlackBST).

    The nodes live in an arena: `slots[i]` holds key, colour and the parent,
    left and right links of node `i` (NIL for a null pointer) and `data[i]`
    its payload.  The ghost field `tree` is the tree the links describe; every
    operation is specified on it.  The rotations, the insertion fixup and the
    deletion fixup are those of the order-statistic tree without the sizes. */
module RedBlackBSTs {
  import opened BinaryTrees
  import opened Arena
  import opened RedBlack
  import opened RedBlackDeletion
  import opened RedBlackArena

  /** The entries after Erase as RedBlackBST writes it: the neighbour `j`
      that replaces entry `i` hands over only its key, so that key ends up
      with the payload of entry `i`, and entry `j` goes. */
  function Placed<T>(c: seq<(int, T)>, i: nat, j: nat): (r: seq<(int, T)>)
    requires i < |c| && j < |c|
    ensures |r| + 1 == |c|
  {
    var c1 := c[i := (c[j].0, c[i].1)];
    c1[..j] + c1[j + 1..]
  }

  /** With the target itself cut out (`j == i`), Placed is the removal of entry `i`. */
  lemma PlacedSelf<T>(c: seq<(int, T)>, i: nat)
    requires i < |c|
    ensures Placed(c, i, i) == c[..i] + c[i + 1..]
  {
    assert c[i := (c[i].0, c[i].1)] == c;
  }

  /** With a neighbour `j` moved into entry `i`, Placed removes entry `i` exactly
      when the two payloads agree; otherwise the neighbour's key keeps the
      erased entry's payload and its own payload is lost. */
  lemma {:induction false} PlacedLoses<T>(c: seq<(int, T)>, i: nat, j: nat)
    requires i < |c| && j < |c| && (j == i + 1 || j + 1 == i)
    ensures Placed(c, i, j) == c[..i] + c[i + 1..] <==> c[i].1 == c[j].1
  {
    var r, w := Placed(c, i, j), c[..i] + c[i + 1..];
    var m := if j < i then j else i;
    assert r[m] == (c[j].0, c[i].1) by {
      if j == i + 1 { assert r[m] == c[i := (c[j].0, c[i].1)][..j][m]; }
      else { assert r[m] == c[i := (c[j].0, c[i].1)][..j + 1 + 1][m + 1]; }
    }
    assert w[m] == c[j] by {
      if j == i + 1 { assert w[m] == c[i + 1..][0]; } else { assert w[m] == c[..i][m]; }
    }
    if c[i].1 == c[j].1 {
      forall k | 0 <= k < |r| ensures r[k] == w[k] {
        if k < m { assert r[k] == c[k] && w[k] == c[k]; }
        else if k > m { assert r[k] == c[k + 1] && w[k] == c[k + 1]; }
      }
    }
  }

  /** The entries after the neighbour's key moves in without its payload and
      the neighbour is cut out. */
  lemma EntriesPlaced<T>(e: seq<(nat, int)>, data: seq<T>, i: nat, j: nat)
    requires IdsBelow(e, |data|) && i < |e| && j < |e|
    ensures var e1 := e[i := (e[i].0, e[j].1)]; var e2 := e1[..j] + e1[j + 1..];
      IdsBelow(e1, |data|) && IdsBelow(e2, |data|) &&
      Entries(e2, data) == Placed(Entries(e, data), i, j)
  {
    var e1 := e[i := (e[i].0, e[j].1)];
    EntriesCut(e1, data, j);
    assert Entries(e1, data) == Entries(e, data)[i := (Entries(e, data)[j].0, Entries(e, data)[i].1)];
  }

  /** Entry `i` taking its neighbour `j`'s key alone, and `j` then cut out:
      the entries are Placed and the keys stay in order. */
  lemma PlaceView<T>(e: seq<(nat, int)>, data: seq<T>, i: nat, j: nat, e': seq<(nat, int)>)
    requires IdsBelow(e, |data|) && i < |e| && j < |e| && (j == i + 1 || j + 1 == i)
    requires e' == e[i := (e[i].0, e[j].1)][..j] + e[i := (e[i].0, e[j].1)][j + 1..] && Sorted(KeysOf(e))
    ensures IdsBelow(e', |data|) && Sorted(KeysOf(e'))
    ensures Entries(e', data) == Placed(Entries(e, data), i, j)
  {
    EntriesPlaced(e, data, i, j);
    KeysMove(e, i, j, e');
    SortedSkip(KeysOf(e), KeysOf(e'), i);
  }

  /** The node with index `x` is in `t` and has no children. */
  ghost predicate Childless(t: RBTree, x: int)
  {
    t.Node? && if t.id == x then t.left.Leaf? && t.right.Leaf? else Childless(t.left, x) || Childless(t.right, x)
  }

  lemma {:induction false} ChildlessIn(t: RBTree, x: int)
    requires Childless(t, x)
    ensures x in Ids(t)
  {
    if t.id != x {
      if Childless(t.left, x) { ChildlessIn(t.left, x); } else { ChildlessIn(t.right, x); }
    }
  }

  /** In a tree with distinct ids, Childless of the node at `q` says what its
      children say. */
  lemma {:induction false} ChildlessAt(t: RBTree, q: Path)
    requires Distinct(t) && At(t, q).Node?
    ensures Childless(t, At(t, q).id) <==> At(t, q).left.Leaf? && At(t, q).right.Leaf?
    decreases |q|
  {
    if q != [] {
      var x := At(t, q).id;
      var c, o := Child(t, q[0]), Child(t, Other(q[0]));
      IdsAt(c, q[1..]);
      assert x in Ids(c) && x != t.id;
      assert x !in Ids(o) by { if q[0] == L { } else { } }
      if Childless(o, x) { ChildlessIn(o, x); }
      ChildlessAt(c, q[1..]);
      assert Childless(t, x) <==> Childless(c, x) by { if q[0] == L { } else { } }
    }
  }

  class RedBlackBST<T> {
    var slots: seq<Slot<Color>>
    var data: seq<T>
    var root: int
    ghost var tree: RBTree

    /** The links realise `tree`, whose ids are distinct; `root` is its root. */
    ghost predicate LinkInv()
      reads this
    {
      Linked(tree, NIL, slots) && Distinct(tree) && root == Id(tree) && |data| == |slots|
    }

    /** ... and the tree is a red-black search tree. */
    ghost predicate Valid()
      reads this
    {
      LinkInv() && IsRB(tree, NIL) && Ordered(tree)
    }

    /** The node with index `x` sits at path `p`. */
    ghost predicate IsAt(x: int, p: Path)
      reads this
    {
      At(tree, p).Node? && At(tree, p).id == x
    }

    /** The (key, payload) pairs in order. */
    ghost function Contents(): seq<(int, T)>
      reads this
      requires LinkInv()
    {
      LinkedIds(tree, NIL, slots);
      ElemIds(tree);
      Entries(Elems(tree), data)
    }

    constructor ()
      ensures Valid() && Contents() == []
    {
      slots, data, root := [], [], NIL;
      tree := Leaf;
    }

    // -------------------------------------------------------------------
    // Node helpers

    /** The grandparent, or NIL when there is none. */
    function GrandFather(n: int, ghost p: Path): (g: int)
      reads this
      requires LinkInv() && (n == NIL || IsAt(n, p))
      ensures g == (if n == NIL || |p| < 2 then NIL else Id(At(tree, Parent(Parent(p)))))
      ensures g == NIL <==> n == NIL || |p| < 2
    {
      if n == NIL then NIL
      else
        NodeInArena(tree, slots, p);
        if slots[n].parent == NIL then NIL
        else
          NodeInArena(tree, slots, Parent(p));
          assert Parent(p) != [] ==> Parent(Parent(p)) == p[..|p| - 2];
          slots[slots[n].parent].parent
    }

    /** The parent's brother, or NIL. */
    function Uncle(n: int, ghost p: Path): (u: int)
      reads this
      requires LinkInv() && (n == NIL || IsAt(n, p))
      ensures u == (if n == NIL || |p| < 2 then NIL else Id(At(tree, Sibling(Parent(p)))))
    {
      var g := GrandFather(n, p);
      if g == NIL then NIL
      else
        NodeInArena(tree, slots, p);
        NodeInArena(tree, slots, Parent(p));
        SiblingInArena(tree, slots, Parent(p));
        if slots[n].parent == slots[g].left then slots[g].right else slots[g].left
    }

    /** The brother, or NIL. */
    function Brother(n: int, ghost p: Path): (b: int)
      reads this
      requires LinkInv() && (n == NIL || IsAt(n, p))
      ensures b == (if n == NIL || p == [] then NIL else Id(At(tree, Sibling(p))))
    {
      if n == NIL then NIL
      else
        NodeInArena(tree, slots, p);
        if slots[n].parent == NIL then NIL
        else
          SiblingInArena(tree, slots, p);
          if n == slots[slots[n].parent].left then slots[slots[n].parent].right
          else slots[slots[n].parent].left
    }

    // -------------------------------------------------------------------
    // Recolouring and rotations

    /** toRed / toBlack. */
    method SetColor(x: int, c: Color, ghost p: Path)
      requires LinkInv() && IsAt(x, p)
      modifies this
      ensures LinkInv() && tree == Paint(old(tree), p, c)
      ensures 0 <= x < |old(slots)| && slots == old(slots)[x := old(slots)[x].(info := c)]
      ensures data == old(data) && root == old(root)
      ensures Reaches(tree, p) && At(tree, p) == old(At(tree, p)).(info := c)
      ensures Elems(tree) == old(Elems(tree)) && Ids(tree) == old(Ids(tree))
      ensures p != [] ==> Id(At(tree, Parent(p))) == old(Id(At(tree, Parent(p))))
    {
      NodeInArena(tree, slots, p);
      LinkedRelabel(tree, slots, p, slots[x].key, c);
      PaintShape(tree, p, c);
      ShapeElems(Paint(tree, p, c), tree);
      ShapeSym(Paint(tree, p, c), tree);
      PaintElems(tree, p, c);
      if p != [] { ShapeAt(Paint(tree, p, c), tree, Parent(p)); }
      assert At(tree, p).(key := slots[x].key, info := c) == At(tree, p).(info := c);
      slots := slots[x := slots[x].(info := c)];
      tree := Paint(tree, p, c);
    }

    /** RotateLeft (`d == L`) and RotateRight (`d == R`): the child on the other
        side rises into the node's place, and `root` changes only when the node
        was the root. */
    method Rotate(x: int, d: Dir, ghost p: Path)
      requires LinkInv() && IsAt(x, p) && Child(At(tree, p), Other(d)).Node?
      modifies this
      ensures LinkInv() && tree == RotAt(old(tree), p, d)
      ensures data == old(data) && |slots| == old(|slots|)
      ensures p != [] ==> root == old(root)
      ensures Elems(tree) == old(Elems(tree))
      ensures Reaches(tree, p) && At(tree, p) == Rot(old(At(tree, p)), d)
    {
      ghost var t := tree;
      RotateLinks(tree, slots, p, d);
      Relink(x, d);
      tree := RotAt(t, p, d);
      RotAtElemsOf(t, p, d);
    }

    /** The pointer updates of a rotation, in the source's order: the pivot takes
        the node's parent, the grandparent's link (or `root`) moves to the pivot,
        the pivot's inner child moves over to the node, and the node goes under
        the pivot. */
    method Relink(x: int, d: Dir)
      requires 0 <= x < |slots| && 0 <= Link(slots[x], Other(d)) < |slots|
      requires slots[x].parent != NIL ==> 0 <= slots[x].parent < |slots|
      requires var b := Link(slots[Link(slots[x], Other(d))], d); b != NIL ==> 0 <= b < |slots|
      modifies this
      ensures slots == RotateCells(old(slots), x, d)
      ensures root == if old(slots)[x].parent == NIL then Link(old(slots)[x], Other(d)) else old(root)
      ensures data == old(data) && tree == old(tree)
    {
      var y := Link(slots[x], Other(d));
      var b := Link(slots[y], d);
      var par := slots[x].parent;
      slots := slots[y := slots[y].(parent := par)];
      if par != NIL {
        if slots[par].left == x {
          slots := slots[par := slots[par].(left := y)];
        } else {
          slots := slots[par := slots[par].(right := y)];
        }
      } else {
        root := y;
      }
      slots := slots[x := SetLink(slots[x], Other(d), b)];
      if b != NIL {
        slots := slots[b := slots[b].(parent := x)];
      }
      slots := slots[x := slots[x].(parent := y)];
      slots := slots[y := SetLink(slots[y], d, x)];
    }

    method RotateLeft(x: int, ghost p: Path)
      requires LinkInv() && IsAt(x, p) && At(tree, p).right.Node?
      modifies this
      ensures LinkInv() && tree == RotAt(old(tree), p, L)
      ensures data == old(data) && |slots| == old(|slots|)
      ensures p != [] ==> root == old(root)
      ensures Elems(tree) == old(Elems(tree))
      ensures Reaches(tree, p) && At(tree, p) == Rot(old(At(tree, p)), L)
    {
      Rotate(x, L, p);
    }

    method RotateRight(x: int, ghost p: Path)
      requires LinkInv() && IsAt(x, p) && At(tree, p).left.Node?
      modifies this
      ensures LinkInv() && tree == RotAt(old(tree), p, R)
      ensures data == old(data) && |slots| == old(|slots|)
      ensures p != [] ==> root == old(root)
      ensures Elems(tree) == old(Elems(tree))
      ensures Reaches(tree, p) && At(tree, p) == Rot(old(At(tree, p)), R)
    {
      Rotate(x, R, p);
    }

    // -------------------------------------------------------------------
    // Insertion

    /** Insert: a new red node holding `key` and `value` goes where the search for
        `key` falls off the tree, in front of the nodes with an equal key, and the
        fixup restores the red-black rules.  The entries stay in key order. */
    method Insert(key: int, value: T)
      requires Valid()
      modifies this
      ensures Valid()
      ensures exists i :: (0 <= i <= |old(Contents())| &&
        Contents() == old(Contents())[..i] + [(key, value)] + old(Contents())[i..] &&
        (forall j :: 0 <= j < i ==> old(Contents())[j].0 < key) &&
        (forall j :: i <= j < |old(Contents())| ==> key <= old(Contents())[j].0))
    {
      var n;
      ghost var p, i;
      n, p, i := PlaceNew(key, value);
      ghost var e, c := Elems(tree), Contents();
      InsertCase1(n, p);
      assert Elems(tree) == e && Contents() == c;
    }

    /** The first half of Insert: a new red cell `n` is appended to the arena and
        hung at the empty link `p` where the search for `key` ends; the entries
        gain `(key, value)` at in-order position `i`. */
    method PlaceNew(key: int, value: T) returns (n: int, ghost p: Path, ghost i: nat)
      requires Valid()
      modifies this
      ensures LinkInv() && Ordered(tree) && InsertInv(tree, p) && IsAt(n, p)
      ensures i <= |old(Contents())| &&
        Contents() == old(Contents())[..i] + [(key, value)] + old(Contents())[i..] &&
        (forall j :: 0 <= j < i ==> old(Contents())[j].0 < key) &&
        (forall j :: i <= j < |old(Contents())| ==> key <= old(Contents())[j].0)
    {
      ghost var t, d0 := tree, data;
      LinkedIds(tree, NIL, slots);
      n := |slots|;
      slots := slots + [Slot(key, Red, NIL, NIL, NIL)];
      data := data + [value];
      LinkedFrame(tree, NIL, old(slots), slots);
      BetweenRoot(tree, key);
      p := InsertNode(n, root, NIL, L, []);
      ghost var u := Node(n, key, Red, Leaf, Leaf);
      InsertStart(t, p, u);
      AtPut(t, p, u);
      InsertEntries(t, p, n, key, d0, value);
      i := |Before(t, p)|;
      assert Elems(tree) == Elems(Put(t, p, u)) && data == d0 + [value];
    }

    /** InsertNode: walks down from the link `_root` (the root when `par` is NIL,
        otherwise `par`'s link on side `side`) and hangs node `n` at the empty
        link it reaches: a key greater than a node's goes right, any other key
        (an equal one too) left. */
    method InsertNode(n: int, cur: int, par: int, side: Dir, ghost q: Path) returns (ghost p: Path)
      requires LinkInv() && 0 <= n == |slots| - 1 && slots[n] == Slot(slots[n].key, Red, NIL, NIL, NIL)
      requires forall i :: i in Ids(tree) ==> i < n
      requires Ordered(tree)
      requires Reaches(tree, q) && cur == Id(At(tree, q))
      requires par == (if q == [] then NIL else Id(At(tree, Parent(q))))
      requires q != [] ==> side == Last(q)
      requires Between(tree, q, slots[n].key)
      modifies this
      ensures Reaches(old(tree), p) && At(old(tree), p).Leaf? && Between(old(tree), p, old(slots)[n].key)
      ensures tree == Put(old(tree), p, Node(n, old(slots)[n].key, Red, Leaf, Leaf))
      ensures LinkInv() && data == old(data) && |slots| == old(|slots|)
      decreases Count(At(tree, q))
    {
      if cur == NIL {
        Attach(n, par, side, q);
        p := q;
      } else {
        DescendLinks(tree, slots, q, n);
        var d := if slots[n].key > slots[cur].key then R else L;
        p := InsertNode(n, Link(slots[cur], d), cur, d, q + [d]);
      }
    }

    /** The end of InsertNode: `_root = node` and `node->parent = root_parent`. */
    method Attach(n: int, par: int, side: Dir, ghost q: Path)
      requires LinkInv() && 0 <= n == |slots| - 1 && slots[n] == Slot(slots[n].key, Red, NIL, NIL, NIL)
      requires forall i :: i in Ids(tree) ==> i < n
      requires Reaches(tree, q) && At(tree, q).Leaf?
      requires par == (if q == [] then NIL else Id(At(tree, Parent(q))))
      requires q != [] ==> side == Last(q)
      modifies this
      ensures tree == Put(old(tree), q, Node(n, old(slots)[n].key, Red, Leaf, Leaf))
      ensures LinkInv() && data == old(data) && |slots| == old(|slots|)
    {
      AttachLinks(tree, slots, q, n, par, side);
      ghost var k := slots[n].key;
      if par == NIL {
        root := n;
      } else {
        slots := slots[par := SetLink(slots[par], side, n)];
      }
      slots := slots[n := slots[n].(parent := par)];
      tree := Put(tree, q, Node(n, k, Red, Leaf, Leaf));
    }

    /** InsertCase1: the root turns black; any other node goes on to case 2. */
    method InsertCase1(n: int, ghost p: Path)
      requires LinkInv() && InsertInv(tree, p) && IsAt(n, p)
      modifies this
      ensures LinkInv() && IsRB(tree, NIL) && Elems(tree) == old(Elems(tree))
      ensures data == old(data) && |slots| == old(|slots|)
      decreases |p|, 5
    {
      NodeInArena(tree, slots, p);
      if slots[n].parent == NIL {
        InsertCase1Done(tree);
        SetColor(n, Black, p);
      } else {
        InsertCase2(n, p);
      }
    }

    /** InsertCase2: under a black parent nothing is left to repair. */
    method InsertCase2(n: int, ghost p: Path)
      requires LinkInv() && InsertInv(tree, p) && IsAt(n, p) && p != []
      modifies this
      ensures LinkInv() && IsRB(tree, NIL) && Elems(tree) == old(Elems(tree))
      ensures data == old(data) && |slots| == old(|slots|)
      decreases |p|, 4
    {
      NodeInArena(tree, slots, p);
      NodeInArena(tree, slots, Parent(p));
      if slots[slots[n].parent].info != Black {
        InsertCase3(n, p);
      } else {
        InsertCase2Done(tree, p);
      }
    }

    /** InsertCase3: a red uncle; parent and uncle turn black, the grandparent red,
        and the repair starts over at the grandparent.  Otherwise case 4. */
    method InsertCase3(n: int, ghost p: Path)
      requires LinkInv() && InsertInv(tree, p) && IsAt(n, p) && p != []
      requires ColorOf(At(tree, Parent(p)), NIL) == Red
      modifies this
      ensures LinkInv() && IsRB(tree, NIL) && Elems(tree) == old(Elems(tree))
      ensures data == old(data) && |slots| == old(|slots|)
      decreases |p|, 3
    {
      InsertGrand(tree, p);
      var uncle := Uncle(n, p);
      var grandFather := GrandFather(n, p);
      NodeInArena(tree, slots, p);
      if At(tree, Sibling(Parent(p))).Node? { NodeInArena(tree, slots, Sibling(Parent(p))); }
      if uncle != NIL && slots[uncle].info == Red {
        InsertCase3Step(tree, p);
        SetColor(slots[n].parent, Black, Parent(p));
        SetColor(uncle, Black, Sibling(Parent(p)));
        SetColor(grandFather, Red, Parent(Parent(p)));
        InsertCase1(grandFather, Parent(Parent(p)));
      } else {
        InsertCase4(n, p);
      }
    }

    /** InsertCase4: an inner grandchild; rotating the parent toward the
        grandparent's side turns the old parent into an outer grandchild, which
        case 5 repairs. */
    method InsertCase4(n: int, ghost p: Path)
      requires LinkInv() && InsertInv(tree, p) && IsAt(n, p) && |p| >= 2
      requires ColorOf(At(tree, Parent(p)), NIL) == Red
      requires ColorOf(At(tree, Sibling(Parent(p))), NIL) == Black
      modifies this
      ensures LinkInv() && IsRB(tree, NIL) && Elems(tree) == old(Elems(tree))
      ensures data == old(data) && |slots| == old(|slots|)
      decreases |p|, 2
    {
      InsertLocal(tree, p);
      NodeInArena(tree, slots, p);
      NodeInArena(tree, slots, Parent(p));
      var node := n;
      var parent := slots[n].parent;
      ghost var P, G := Parent(p), Parent(Parent(p));
      if n == slots[parent].right && parent == slots[slots[parent].parent].left {
        InsertCase4Step(tree, p);
        RotateLeft(parent, P);
        NodeInArena(tree, slots, P);
        node := slots[node].left;
        InsertCase5(node, G + [L, L]);
      } else if n == slots[parent].left && parent == slots[slots[parent].parent].right {
        InsertCase4Step(tree, p);
        RotateRight(parent, P);
        NodeInArena(tree, slots, P);
        node := slots[node].right;
        InsertCase5(node, G + [R, R]);
      } else {
        InsertCase5(n, p);
      }
    }

    /** InsertCase5: an outer grandchild under a red parent and a black uncle.
        The parent turns black, the grandparent red, and the grandparent rotates
        away from the node. */
    method InsertCase5(n: int, ghost p: Path)
      requires LinkInv() && InsertCase5Pre(tree, p) && IsAt(n, p)
      modifies this
      ensures LinkInv() && IsRB(tree, NIL) && Elems(tree) == old(Elems(tree))
      ensures data == old(data) && |slots| == old(|slots|)
      decreases |p|, 1
    {
      InsertCase5Done(tree, p);
      TurnCase5(n, p);
    }

    /** The recolouring and the rotation of InsertCase5, as one change of the tree. */
    method TurnCase5(n: int, ghost p: Path)
      requires LinkInv() && InsertCase5Pre(tree, p) && IsAt(n, p)
      modifies this
      ensures LinkInv() && tree == Case5Turned(old(tree), p)
      ensures data == old(data) && |slots| == old(|slots|)
    {
      InsertLocal(tree, p);
      InsertCase5Done(tree, p);
      ghost var P, G := Parent(p), Parent(Parent(p));
      NodeInArena(tree, slots, p);
      NodeInArena(tree, slots, P);
      var grandFather := GrandFather(n, p);
      var parent := slots[n].parent;
      SetColor(parent, Black, P);
      SetColor(grandFather, Red, G);
      if n == slots[slots[n].parent].left {
        RotateRight(grandFather, G);
      } else {
        RotateLeft(grandFather, G);
      }
    }

    // -------------------------------------------------------------------
    // Queries

    /** MinNode: the leftmost node below `x` (NIL for NIL), which comes first
        in key order among the nodes below `x`. */
    method MinNode(x: int, ghost p: Path) returns (m: int, ghost q: Path)
      requires LinkInv() && Reaches(tree, p) && x == Id(At(tree, p))
      ensures m == NIL <==> x == NIL
      ensures m != NIL ==> (IsAt(m, q) && |q| >= |p| && q[..|p|] == p && At(tree, q).left.Leaf? &&
        |Elems(At(tree, p))| > 0 && Elems(At(tree, p))[0] == (m, At(tree, q).key))
    {
      m, q := x, p;
      if m != NIL {
        ghost var rest: seq<(nat, int)> := [];
        NodeInArena(tree, slots, q);
        while slots[m].left != NIL
          invariant IsAt(m, q) && |q| >= |p| && q[..|p|] == p && 0 <= m < |slots|
          invariant slots[m].left == Id(At(tree, q).left)
          invariant Elems(At(tree, p)) == Elems(At(tree, q)) + rest
          decreases Count(At(tree, q))
        {
          ghost var u := At(tree, q);
          NodeInArena(tree, slots, q);
          LeftStep(tree, q, Elems(At(tree, p)), rest);
          PrefixAppend(q, L, |p|);
          rest := [(m, u.key)] + Elems(u.right) + rest;
          m, q := slots[m].left, q + [L];
          NodeInArena(tree, slots, q);
        }
      }
    }

    /** MaxNode: the rightmost node below `x` (NIL for NIL), which comes last
        in key order among the nodes below `x`. */
    method MaxNode(x: int, ghost p: Path) returns (m: int, ghost q: Path)
      requires LinkInv() && Reaches(tree, p) && x == Id(At(tree, p))
      ensures m == NIL <==> x == NIL
      ensures m != NIL ==> (IsAt(m, q) && |q| >= |p| && q[..|p|] == p && At(tree, q).right.Leaf? &&
        |Elems(At(tree, p))| > 0 && Elems(At(tree, p))[|Elems(At(tree, p))| - 1] == (m, At(tree, q).key))
    {
      m, q := x, p;
      if m != NIL {
        ghost var rest: seq<(nat, int)> := [];
        NodeInArena(tree, slots, q);
        while slots[m].right != NIL
          invariant IsAt(m, q) && |q| >= |p| && q[..|p|] == p && 0 <= m < |slots|
          invariant slots[m].right == Id(At(tree, q).right)
          invariant Elems(At(tree, p)) == rest + Elems(At(tree, q))
          decreases Count(At(tree, q))
        {
          ghost var u := At(tree, q);
          NodeInArena(tree, slots, q);
          RightStep(tree, q, Elems(At(tree, p)), rest);
          PrefixAppend(q, R, |p|);
          rest := rest + Elems(u.left) + [(m, u.key)];
          m, q := slots[m].right, q + [R];
          NodeInArena(tree, slots, q);
        }
      }
    }

    /** Find(key, _root): walks down from `x`, right past smaller keys and left
        otherwise, and stops at the first node holding `key`; NIL exactly when no
        node below `x` holds it. */
    method FindIn(key: int, x: int, ghost p: Path) returns (r: int, ghost q: Path)
      requires LinkInv() && Ordered(tree) && Reaches(tree, p) && x == Id(At(tree, p))
      ensures r == NIL <==> key !in Keys(At(tree, p))
      ensures r != NIL ==> IsAt(r, q) && At(tree, q).key == key && |q| >= |p|
    {
      r, q := x, p;
      OrderedAt(tree, p);
      if r != NIL { NodeInArena(tree, slots, q); }
      while r != NIL && slots[r].key != key
        invariant Reaches(tree, q) && r == Id(At(tree, q)) && |q| >= |p| && Ordered(At(tree, q))
        invariant r != NIL ==> (0 <= r < |slots| && slots[r] == SlotAt(tree, q))
        invariant key in Keys(At(tree, p)) <==> key in Keys(At(tree, q))
        decreases Count(At(tree, q))
      {
        ghost var d := if At(tree, q).key < key then R else L;
        FindDescend(tree, slots, q, key);
        if slots[r].key < key {
          r := slots[r].right;
        } else {
          r := slots[r].left;
        }
        q := q + [d];
      }
      if r == NIL {
        assert Keys(At(tree, q)) == [];
      } else {
        KeysNode(At(tree, q));
        assert key in Keys(At(tree, q));
      }
    }

    /** Find: the node holding `key`, NIL exactly when no entry has that key. */
    method Find(key: int) returns (r: int)
      requires Valid()
      ensures r == NIL <==> forall j :: 0 <= j < |Contents()| ==> Contents()[j].0 != key
      ensures r != NIL ==> 0 <= r < |slots| && slots[r].key == key && (key, data[r]) in Contents()
    {
      ghost var q;
      r, q := FindIn(key, root, []);
      ContentsKeys();
      if r != NIL {
        NodeInArena(tree, slots, q);
        ElemsIndex(tree, q);
        ghost var i := |Before(tree, q)| + Count(At(tree, q).left);
        assert Contents()[i] == (key, data[r]);
      }
    }

    /** The keys of the entries are the keys of the tree, in order. */
    lemma ContentsKeys()
      requires LinkInv()
      ensures |Contents()| == |Keys(tree)|
      ensures forall j :: 0 <= j < |Contents()| ==> Contents()[j].0 == Keys(tree)[j]
    {
      ghost var e := Elems(tree);
      forall j | 0 <= j < |e| ensures Keys(tree)[j] == e[j].1 { KeysOfIndex(e, j); }
    }

    /** InOrder: hands every node below `x` to the callback, in key order; the
        model returns the nodes in the order they are handed over. */
    method InOrder(x: int, ghost p: Path) returns (visited: seq<int>)
      requires LinkInv() && Reaches(tree, p) && x == Id(At(tree, p))
      ensures |visited| == |Elems(At(tree, p))|
      ensures forall i :: 0 <= i < |visited| ==> visited[i] == Elems(At(tree, p))[i].0
      decreases Count(At(tree, p))
    {
      visited := [];
      if x != NIL {
        NodeInArena(tree, slots, p);
        AtChild(tree, p, L);
        AtChild(tree, p, R);
        var a := InOrder(slots[x].left, p + [L]);
        var b := InOrder(slots[x].right, p + [R]);
        visited := a + [x] + b;
        ghost var u := At(tree, p);
        assert Elems(u) == Elems(u.left) + [(x, u.key)] + Elems(u.right);
      }
    }

    // -------------------------------------------------------------------
    // Deletion fixup.  The subject `n` at `p` is black and one black level
    // short; `ph` is the childless node about to be unlinked (NIL when the
    // node was already spliced out), and it stays below the subject.

    /** DeleteCase1: at the root nothing is left to repair; otherwise case 2. */
    method DeleteCase1(n: int, ghost p: Path, ghost ph: int, ghost phn: RBTree)
      requires LinkInv() && DeleteInv(tree, p, ph) && IsAt(n, p) && PhantomIn(At(tree, p), ph, phn)
      modifies this
      ensures LinkInv() && IsRB(tree, ph) && Elems(tree) == old(Elems(tree)) && PhantomIn(tree, ph, phn)
      ensures data == old(data) && |slots| == old(|slots|)
      decreases Count(tree) - Count(At(tree, p)), 6
    {
      NodeInArena(tree, slots, p);
      CountAtMost(tree, p);
      if slots[n].parent != NIL {
        DeleteCase2(n, p, ph, phn);
      } else {
        DeleteCase1Done(tree, ph);
      }
    }

    /** DeleteCase2: a red brother; parent red, brother black and a rotation at
        the parent toward the subject give the subject a black brother.  Then case 3. */
    method DeleteCase2(n: int, ghost p: Path, ghost ph: int, ghost phn: RBTree)
      requires LinkInv() && DeleteInv(tree, p, ph) && IsAt(n, p) && PhantomIn(At(tree, p), ph, phn) && p != []
      modifies this
      ensures LinkInv() && IsRB(tree, ph) && Elems(tree) == old(Elems(tree)) && PhantomIn(tree, ph, phn)
      ensures data == old(data) && |slots| == old(|slots|)
      decreases Count(tree) - Count(At(tree, p)), 5
    {
      DeleteView(tree, slots, p, ph, phn);
      ghost var P, dX := Parent(p), Last(p);
      var brother := Brother(n, p);
      if slots[brother].info == Red {
        TurnRedBrother(n, brother, p, ph, phn);
        ghost var q := P + [dX, dX];
        DeleteCase3(n, q, ph, phn);
      } else {
        DeleteCase3(n, p, ph, phn);
      }
    }

    /** The recolouring and rotation of DeleteCase2: afterwards the subject, two
        levels below its old parent's place, has a black brother. */
    method TurnRedBrother(n: int, brother: int, ghost p: Path, ghost ph: int, ghost phn: RBTree)
      requires LinkInv() && DeleteInv(tree, p, ph) && IsAt(n, p) && PhantomIn(At(tree, p), ph, phn) && p != []
      requires IsAt(brother, Sibling(p)) && ColorOf(At(tree, Sibling(p)), ph) == Red
      modifies this
      ensures LinkInv() && data == old(data) && |slots| == old(|slots|)
      ensures var q := Parent(p) + [Last(p), Last(p)];
        DeleteInv(tree, q, ph) && IsAt(n, q) && At(tree, q) == old(At(tree, p)) &&
        ColorOf(At(tree, Sibling(q)), ph) == Black &&
        Elems(tree) == old(Elems(tree)) && Count(tree) == old(Count(tree))
    {
      ghost var t0, P := tree, Parent(p);
      DeleteCase2Step(tree, p, ph);
      DeleteView(tree, slots, p, ph, phn);
      var parent := slots[n].parent;
      SetColor(parent, Red, P);
      SetColor(brother, Black, Sibling(p));
      PaintId(t0, P, Red, P);
      PaintId(Paint(t0, P, Red), Sibling(p), Black, P);
      if n == slots[parent].left {
        RotateLeft(parent, P);
      } else {
        RotateRight(parent, P);
      }
    }

    /** DeleteCase3: black parent, brother and nephews; the brother turns red and
        the shortage moves up to the parent (case 1 again).  Otherwise case 4. */
    method DeleteCase3(n: int, ghost p: Path, ghost ph: int, ghost phn: RBTree)
      requires LinkInv() && DeleteInv(tree, p, ph) && IsAt(n, p) && PhantomIn(At(tree, p), ph, phn) && p != []
      requires ColorOf(At(tree, Sibling(p)), ph) == Black
      modifies this
      ensures LinkInv() && IsRB(tree, ph) && Elems(tree) == old(Elems(tree)) && PhantomIn(tree, ph, phn)
      ensures data == old(data) && |slots| == old(|slots|)
      decreases Count(tree) - Count(At(tree, p)), 4
    {
      DeleteView(tree, slots, p, ph, phn);
      var brother := Brother(n, p);
      var parent := slots[n].parent;
      var repaint :=
        slots[parent].info == Black && slots[brother].info == Black &&
        CellColor(slots, slots[brother].left) == Black &&
        CellColor(slots, slots[brother].right) == Black;
      if repaint {
        DeleteCase3Step(tree, p, ph);
        SetColor(brother, Red, Sibling(p));
        PaintId(old(tree), Sibling(p), Red, Parent(p));
        if ph != NIL { ContainsUp(tree, Parent(p), [Last(p)], phn); }
        CountAtMost(tree, Parent(p));
        DeleteCase1(parent, Parent(p), ph, phn);
      } else {
        DeleteCase4(n, p, ph, phn);
      }
    }

    /** DeleteCase4: red parent, black brother and nephews; swapping the colours
        of parent and brother finishes the repair.  Otherwise case 5. */
    method DeleteCase4(n: int, ghost p: Path, ghost ph: int, ghost phn: RBTree)
      requires LinkInv() && DeleteInv(tree, p, ph) && IsAt(n, p) && PhantomIn(At(tree, p), ph, phn) && p != []
      requires ColorOf(At(tree, Sibling(p)), ph) == Black
      requires !(ColorOf(At(tree, Parent(p)), ph) == Black && NephewsBlack(tree, p, ph))
      modifies this
      ensures LinkInv() && IsRB(tree, ph) && Elems(tree) == old(Elems(tree)) && PhantomIn(tree, ph, phn)
      ensures data == old(data) && |slots| == old(|slots|)
      decreases Count(tree) - Count(At(tree, p)), 3
    {
      DeleteView(tree, slots, p, ph, phn);
      var brother := Brother(n, p);
      var parent := slots[n].parent;
      var repaint :=
        slots[parent].info == Red && slots[brother].info == Black &&
        CellColor(slots, slots[brother].left) == Black &&
        CellColor(slots, slots[brother].right) == Black;
      if repaint {
        DeleteCase4Done(tree, p, ph);
        SetColor(brother, Red, Sibling(p));
        PaintId(old(tree), Sibling(p), Red, Parent(p));
        SetColor(parent, Black, Parent(p));
        if ph != NIL { ContainsAt(tree, p, phn); }
      } else {
        DeleteCase5(n, p, ph, phn);
      }
    }

    /** DeleteCase5: black brother whose near child is red and far child black;
        the two swap colours and a rotation at the brother makes the far child
        red.  Then case 6.  An absent nephew reads as black here; the source
        reads its colour through the null pointer. */
    method DeleteCase5(n: int, ghost p: Path, ghost ph: int, ghost phn: RBTree)
      requires LinkInv() && DeleteInv(tree, p, ph) && IsAt(n, p) && PhantomIn(At(tree, p), ph, phn) && p != []
      requires ColorOf(At(tree, Sibling(p)), ph) == Black && !NephewsBlack(tree, p, ph)
      modifies this
      ensures LinkInv() && IsRB(tree, ph) && Elems(tree) == old(Elems(tree)) && PhantomIn(tree, ph, phn)
      ensures data == old(data) && |slots| == old(|slots|)
      decreases Count(tree) - Count(At(tree, p)), 2
    {
      DeleteView(tree, slots, p, ph, phn);
      ghost var S, dX := Sibling(p), Last(p);
      var brother := Brother(n, p);
      var parent := slots[n].parent;
      if slots[brother].info == Black {
        var leftChild :=
          n == slots[parent].left &&
          CellColor(slots, slots[brother].right) == Black &&
          CellColor(slots, slots[brother].left) == Red;
        var rightChild :=
          n == slots[parent].right &&
          CellColor(slots, slots[brother].left) == Black &&
          CellColor(slots, slots[brother].right) == Red;
        if leftChild {
          DeleteCase5Step(tree, p, ph);
          var nephew := slots[brother].left;
          SetColor(brother, Red, S);
          SetColor(nephew, Black, Near(p));
          PaintId(old(tree), S, Red, S);
          PaintId(Paint(old(tree), S, Red), Near(p), Black, S);
          RotateRight(brother, S);
        } else if rightChild {
          DeleteCase5Step(tree, p, ph);
          var nephew := slots[brother].right;
          SetColor(brother, Red, S);
          SetColor(nephew, Black, Near(p));
          PaintId(old(tree), S, Red, S);
          PaintId(Paint(old(tree), S, Red), Near(p), Black, S);
          RotateLeft(brother, S);
        }
      }
      DeleteCase6(n, p, ph, phn);
    }

    /** DeleteCase6: black brother with a red far child; the brother takes the
        parent's colour, parent and far child turn black, and a rotation at the
        parent toward the subject makes up the missing black level. */
    method DeleteCase6(n: int, ghost p: Path, ghost ph: int, ghost phn: RBTree)
      requires LinkInv() && DeleteCase6Pre(tree, p, ph) && IsAt(n, p) && PhantomIn(At(tree, p), ph, phn)
      modifies this
      ensures LinkInv() && IsRB(tree, ph) && Elems(tree) == old(Elems(tree)) && PhantomIn(tree, ph, phn)
      ensures data == old(data) && |slots| == old(|slots|)
      decreases Count(tree) - Count(At(tree, p)), 1
    {
      DeleteView(tree, slots, p, ph, phn);
      DeleteCase6Done(tree, p, ph);
      ghost var P, S, dX := Parent(p), Sibling(p), Last(p);
      var brother := Brother(n, p);
      var parent := slots[n].parent;
      SetColor(brother, slots[parent].info, S);
      SetColor(parent, Black, P);
      var d := if n == slots[parent].left then L else R;
      SetColor(Link(slots[brother], Other(d)), Black, Far(p));
      PaintId(Paint(Paint(old(tree), S, old(At(tree, P)).info), P, Black), Far(p), Black, P);
      Rotate(parent, d, P);
      if ph != NIL { ContainsAt(tree, P + [dX, dX], phn); }
    }

    // -------------------------------------------------------------------
    // Erase

    /** Erase with the replacement handing over its key and its payload (as
        OrderStatisticBST's MoveTo does): removes one entry holding `key` (the
        node Find stops at) and keeps the red-black search tree; a missing key
        changes nothing. */
    method Erase(key: int)
      requires Valid()
      modifies this
      ensures Valid()
      ensures (forall j :: 0 <= j < |old(Contents())| ==> old(Contents())[j].0 != key) ==>
        Contents() == old(Contents())
      ensures (exists j :: 0 <= j < |old(Contents())| && old(Contents())[j].0 == key) ==>
        exists i :: 0 <= i < |old(Contents())| && old(Contents())[i].0 == key &&
          Contents() == old(Contents())[..i] + old(Contents())[i + 1..]
    {
      ghost var e := Elems(tree);
      LinkedIds(tree, NIL, slots);
      ElemIds(tree);
      forall j | 0 <= j < |e| ensures Keys(tree)[j] == e[j].1 { KeysOfIndex(e, j); }
      var target;
      ghost var q;
      target, q := FindIn(key, root, []);
      if target == NIL {
        return;
      }
      ghost var i, j := EraseAt(target, q, true);
      assert Contents() == old(Contents())[..i] + old(Contents())[i + 1..];
    }

    /** Erase as written: Node::PlaceTo copies only the key of the replacement
        into the target.  A target without children goes with its entry; for
        one with a child, the neighbour `j` in key order that replaces it keeps
        the payload of the erased entry `i` under its own key (Placed), and its
        own payload is lost. */
    method EraseAsWritten(key: int)
      requires Valid()
      modifies this
      ensures Valid()
      ensures (forall j :: 0 <= j < |old(Contents())| ==> old(Contents())[j].0 != key) ==>
        Contents() == old(Contents())
      ensures (exists j :: 0 <= j < |old(Contents())| && old(Contents())[j].0 == key) ==>
        exists i, j :: 0 <= i < |old(Contents())| && 0 <= j < |old(Contents())| && old(Contents())[i].0 == key &&
          (j == i <==> Childless(old(tree), old(Elems(tree))[i].0)) &&
          (j == i || j == i + 1 || j + 1 == i) &&
          Contents() == Placed(old(Contents()), i, j)
    {
      ghost var e := Elems(tree);
      LinkedIds(tree, NIL, slots);
      ElemIds(tree);
      forall j | 0 <= j < |e| ensures Keys(tree)[j] == e[j].1 { KeysOfIndex(e, j); }
      var target;
      ghost var q;
      target, q := FindIn(key, root, []);
      if target == NIL {
        return;
      }
      ghost var t0 := tree;
      ChildlessAt(tree, q);
      ghost var i, j := EraseAt(target, q, false);
      assert e[i].0 == target;
      assert Contents() == Placed(old(Contents()), i, j);
    }

    /** The part of Erase after the lookup: the node `x` found at `q` goes, either
        itself (no children, `j == i`) or by taking the key of its in-order
        neighbour `j`, and with `moveData` also its payload, and letting the
        neighbour go. */
    method EraseAt(x: int, ghost q: Path, moveData: bool) returns (ghost i: nat, ghost j: nat)
      requires Valid() && IsAt(x, q)
      modifies this
      ensures Valid()
      ensures IdsBelow(old(Elems(tree)), |old(data)|) && IdsBelow(Elems(tree), |data|)
      ensures i < |old(Elems(tree))| && old(Elems(tree))[i] == (x, At(old(tree), q).key)
      ensures j < |old(Elems(tree))| && (j == i || j == i + 1 || j + 1 == i)
      ensures j == i <==> At(old(tree), q).left.Leaf? && At(old(tree), q).right.Leaf?
      ensures Entries(Elems(tree), data) ==
        if moveData then Entries(old(Elems(tree)), old(data))[..i] + Entries(old(Elems(tree)), old(data))[i + 1..]
        else Placed(Entries(old(Elems(tree)), old(data)), i, j)
    {
      NodeInArena(tree, slots, q);
      if slots[x].left == NIL && slots[x].right == NIL {
        i := EraseLeaf(x, q);
        j := i;
        LinkedIds(old(tree), NIL, old(slots));
        ElemIds(old(tree));
        PlacedSelf(Entries(old(Elems(tree)), old(data)), i);
      } else {
        i, j := EraseInner(x, q, moveData);
      }
    }

    /** EraseAt for a node without children: it is cut out itself. */
    method EraseLeaf(x: int, ghost q: Path) returns (ghost i: nat)
      requires Valid() && IsAt(x, q) && At(tree, q).left.Leaf? && At(tree, q).right.Leaf?
      modifies this
      ensures Valid()
      ensures IdsBelow(old(Elems(tree)), |old(data)|) && IdsBelow(Elems(tree), |data|)
      ensures i < |old(Elems(tree))| && old(Elems(tree))[i] == (x, At(old(tree), q).key)
      ensures Entries(Elems(tree), data) == Entries(old(Elems(tree)), old(data))[..i] +
        Entries(old(Elems(tree)), old(data))[i + 1..]
    {
      ghost var t0, e, d0 := tree, Elems(tree), data;
      LinkedIds(tree, NIL, slots);
      ElemIds(tree);
      NodeInArena(tree, slots, q);
      ElemsIndex(tree, q);
      i := |Before(tree, q)| + Count(At(tree, q).left);
      assert i < |e| && e[i] == (x, At(t0, q).key);
      ghost var j := RemoveChildless(x, q);
      ElemsSameId(t0, i, j);
      CutView(e, d0, i, Elems(tree));
    }

    /** EraseAt for a node with a child: it takes its in-order neighbour `j`'s
        key (and with `moveData` its payload), and the neighbour is cut out. */
    method EraseInner(x: int, ghost q: Path, moveData: bool) returns (ghost i: nat, ghost j: nat)
      requires Valid() && IsAt(x, q) && !(At(tree, q).left.Leaf? && At(tree, q).right.Leaf?)
      modifies this
      ensures Valid()
      ensures IdsBelow(old(Elems(tree)), |old(data)|) && IdsBelow(Elems(tree), |data|)
      ensures i < |old(Elems(tree))| && old(Elems(tree))[i] == (x, At(old(tree), q).key)
      ensures j < |old(Elems(tree))| && (j == i + 1 || j + 1 == i)
      ensures Entries(Elems(tree), data) ==
        if moveData then Entries(old(Elems(tree)), old(data))[..i] + Entries(old(Elems(tree)), old(data))[i + 1..]
        else Placed(Entries(old(Elems(tree)), old(data)), i, j)
    {
      ghost var t0, e, d0 := tree, Elems(tree), data;
      LinkedIds(tree, NIL, slots);
      ElemIds(tree);
      NodeInArena(tree, slots, q);
      ElemsIndex(tree, q);
      i := |Before(tree, q)| + Count(At(tree, q).left);
      assert i < |e| && e[i] == (x, At(t0, q).key);
      ghost var i';
      i', j := RemoveInner(x, q, moveData);
      ElemsSameId(t0, i, i');
      if moveData {
        forall k | 0 <= k < |e| && k != i ensures e[k].0 != e[i].0 {
          if e[k].0 == e[i].0 { ElemsSameId(t0, i, k); }
        }
        MoveView(e, d0, i, j, Elems(tree), data);
      } else {
        PlaceView(e, d0, i, j, Elems(tree));
      }
    }

    /** Erase of a node `x` at `q` without children (the target itself, or the
        node that gave its key to the target): a black one is repaired around
        first (DeleteCase1, with `x` still attached and read as absent), a red
        one needs none; a parentless one clears `root`, and the destructor
        cuts it off.  Its in-order entry `j` goes. */
    method RemoveChildless(x: int, ghost q: Path) returns (ghost j: nat)
      requires LinkInv() && IsRB(tree, NIL) && IsAt(x, q)
      requires At(tree, q).left.Leaf? && At(tree, q).right.Leaf?
      modifies this
      ensures LinkInv() && IsRB(tree, NIL) && data == old(data) && |slots| == old(|slots|)
      ensures j < |old(Elems(tree))| && old(Elems(tree))[j].0 == x
      ensures Elems(tree) == old(Elems(tree))[..j] + old(Elems(tree))[j + 1..]
    {
      ghost var phn := At(tree, q);
      RepairAround(x, q);
      ghost var q2 := CutPhantom(tree, phn);
      NodeInArena(tree, slots, q2);
      j := |Before(tree, q2)|;
      if slots[x].parent == NIL {
        root := NIL;
        tree := Leaf;
      }
      Destroy(x, q2);
    }

    /** The fixup before a childless node `x` at `q` is cut out: a black one
        goes through DeleteCase1 with `x` read as absent, a red one needs none.
        After it, the tree without `x` is a red-black tree. */
    method RepairAround(x: int, ghost q: Path)
      requires LinkInv() && IsRB(tree, NIL) && IsAt(x, q)
      requires At(tree, q).left.Leaf? && At(tree, q).right.Leaf?
      modifies this
      ensures LinkInv() && IsRB(tree, x) && Elems(tree) == old(Elems(tree))
      ensures Contains(tree, old(At(tree, q))) && data == old(data) && |slots| == old(|slots|)
    {
      ghost var phn := At(tree, q);
      NodeInArena(tree, slots, q);
      if slots[x].info == Black {
        DeleteStart(tree, q);
        DeleteCase1(x, q, x, phn);
      } else {
        RedLeafPhantom(tree, q);
        ContainsAt(tree, q, phn);
      }
    }

    /** Node's destructor for a node `x` whose place was `q`: a node that still
        has a parent is cut off from it (the payload it frees is outside the
        model).  `x` is either the childless node at `q`, or a node already out
        of the tree whose parent link is null. */
    method Destroy(x: int, ghost q: Path)
      requires LinkInv() && 0 <= x < |slots|
      requires (IsAt(x, q) && q != [] && At(tree, q).left.Leaf? && At(tree, q).right.Leaf?) ||
               (x !in Ids(tree) && slots[x].parent == NIL)
      modifies this
      ensures LinkInv() && data == old(data) && root == old(root) && |slots| == old(|slots|)
      ensures tree == if old(IsAt(x, q)) then Put(old(tree), q, Leaf) else old(tree)
    {
      if IsAt(x, q) { NodeInArena(tree, slots, q); }
      var par := slots[x].parent;
      if par != NIL {
        UnlinkLinks(tree, slots, q);
        if slots[par].left == x {
          slots := slots[par := slots[par].(left := NIL)];
          tree := Put(tree, q, Leaf);
        } else if slots[par].right == x {
          slots := slots[par := slots[par].(right := NIL)];
          tree := Put(tree, q, Leaf);
        }
      }
    }

    /** Erase of a target `x` at `q` with a child: the next node in key order
        (MinNode of the right subtree) or, without a right child, the previous
        one (MaxNode of the left subtree) hands its key (and with `moveData`
        its payload) to the target and is removed in its stead; that node has
        at most one child.  Its entry `j` is next to the target's `i`. */
    method RemoveInner(x: int, ghost q: Path, moveData: bool) returns (ghost i: nat, ghost j: nat)
      requires LinkInv() && IsRB(tree, NIL) && IsAt(x, q)
      requires At(tree, q).left.Node? || At(tree, q).right.Node?
      modifies this
      ensures LinkInv() && IsRB(tree, NIL) && |slots| == old(|slots|)
      ensures var e := old(Elems(tree));
        i == old(|Before(tree, q)| + Count(At(tree, q).left)) &&
        i < |e| && j < |e| && (j == i + 1 || j + 1 == i) && e[i].0 == x &&
        x < |old(data)| && e[j].0 < |old(data)| &&
        Elems(tree) == e[i := (x, e[j].1)][..j] + e[i := (x, e[j].1)][j + 1..] &&
        data == if moveData then old(data)[x := old(data)[e[j].0]] else old(data)
    {
      var node, child;
      ghost var nq;
      node, child, nq, i, j := TakeReplacement(x, q, moveData);
      ghost var t1 := tree;
      ghost var j' := Remove(node, child, nq);
      ElemsSameId(t1, j, j');
    }

    /** The first half of RemoveInner: the replacement `node` (at `nq`, with
        the one child `child` or none) hands its key over to `x` (PlaceTo), and
        with `moveData` its payload too (MoveTo). */
    method TakeReplacement(x: int, ghost q: Path, moveData: bool)
      returns (node: int, child: int, ghost nq: Path, ghost i: nat, ghost j: nat)
      requires LinkInv() && IsRB(tree, NIL) && IsAt(x, q)
      requires At(tree, q).left.Node? || At(tree, q).right.Node?
      modifies this
      ensures LinkInv() && IsRB(tree, NIL) && |slots| == old(|slots|)
      ensures IsAt(node, nq) && nq != [] && (At(tree, nq).left.Leaf? || At(tree, nq).right.Leaf?)
      ensures child == Id(OnlyChild(At(tree, nq)))
      ensures var e := old(Elems(tree));
        i == old(|Before(tree, q)| + Count(At(tree, q).left)) &&
        i < |e| && j < |e| && (j == i + 1 || j + 1 == i) && e[i].0 == x && e[j].0 == node &&
        x < |old(data)| && node < |old(data)| &&
        Elems(tree) == e[i := (x, e[j].1)] &&
        data == if moveData then old(data)[x := old(data)[node]] else old(data)
    {
      AtNodeReaches(tree, q);
      ElemsIndex(tree, q);
      i := |Before(tree, q)| + Count(At(tree, q).left);
      node, nq, j := Replacement(x, q);
      child := HandOver(node, x, q, nq, moveData);
    }

    /** PlaceTo (or, with `moveData`, MoveTo) for the replacement `y` at `nq`,
        below the target `x` at `q`: the node at `nq` stays as it was;
        `child` is its child, if any. */
    method HandOver(y: int, x: int, ghost q: Path, ghost nq: Path, moveData: bool) returns (child: int)
      requires LinkInv() && IsRB(tree, NIL) && IsAt(x, q) && IsAt(y, nq) && |nq| > |q| && nq[..|q|] == q
      requires At(tree, nq).left.Leaf? || At(tree, nq).right.Leaf?
      modifies this
      ensures LinkInv() && IsRB(tree, NIL) && |slots| == old(|slots|) && At(tree, nq) == old(At(tree, nq))
      ensures child == Id(OnlyChild(At(tree, nq)))
      ensures x < |old(data)| && y < |old(data)|
      ensures data == if moveData then old(data)[x := old(data)[y]] else old(data)
      ensures var i := old(|Before(tree, q)| + Count(At(tree, q).left));
        i < |old(Elems(tree))| && Elems(tree) == old(Elems(tree))[i := (x, old(At(tree, nq)).key)]
    {
      ghost var t0 := tree;
      AtNodeReaches(tree, q);
      NodeInArena(tree, slots, nq);
      child := if slots[y].left != NIL then slots[y].left else slots[y].right;
      if moveData {
        MoveTo(y, x, q);
      } else {
        PlaceTo(y, x, q);
      }
      AtPutBelow(t0, q, At(t0, q).(key := At(t0, nq).key), nq);
    }

    /** The node that replaces the target `x` at `q`: MinNode of the right
        subtree, or MaxNode of the left one when there is no right child.  It
        lies below `x`, has at most one child, and its entry `j` is right after
        or right before the entry of `x`. */
    method Replacement(x: int, ghost q: Path) returns (node: int, ghost nq: Path, ghost j: nat)
      requires LinkInv() && IsAt(x, q) && (At(tree, q).left.Node? || At(tree, q).right.Node?)
      ensures IsAt(node, nq) && |nq| > |q| && nq[..|q|] == q
      ensures At(tree, nq).left.Leaf? || At(tree, nq).right.Leaf?
      ensures var i := |Before(tree, q)| + Count(At(tree, q).left);
        (j == i + 1 || j + 1 == i) && j < |Elems(tree)| && Elems(tree)[j] == (node, At(tree, nq).key)
    {
      ghost var i := |Before(tree, q)| + Count(At(tree, q).left);
      NodeInArena(tree, slots, q);
      AtChild(tree, q, L);
      AtChild(tree, q, R);
      if slots[x].right != NIL {
        node, nq := MinNode(slots[x].right, q + [R]);
        ElemsNext(tree, q);
        j := i + 1;
      } else {
        node, nq := MaxNode(slots[x].left, q + [L]);
        ElemsPrev(tree, q);
        j := i - 1;
      }
      assert nq[..|q|] == q by { assert nq[..|q| + 1][..|q|] == nq[..|q|]; }
    }

    /** The end of Erase for the node `x` at `q` that has at most one child
        `c`: a childless one goes as in RemoveChildless; otherwise the child
        takes its place (ReplaceIfNotNull) and turns black.  The entry `j` of
        `x` goes. */
    method Remove(x: int, c: int, ghost q: Path) returns (ghost j: nat)
      requires LinkInv() && IsRB(tree, NIL) && IsAt(x, q) && q != []
      requires (At(tree, q).left.Leaf? || At(tree, q).right.Leaf?) && c == Id(OnlyChild(At(tree, q)))
      modifies this
      ensures LinkInv() && IsRB(tree, NIL) && data == old(data) && |slots| == old(|slots|)
      ensures j < |old(Elems(tree))| && old(Elems(tree))[j].0 == x
      ensures Elems(tree) == old(Elems(tree))[..j] + old(Elems(tree))[j + 1..]
    {
      if c == NIL {
        j := RemoveChildless(x, q);
      } else {
        j := Splice(x, c, q);
      }
    }

    /** A node `x` at `q` with the one child `c`: by the red-black rules `x`
        is black and `c` red.  The child takes the place of `x`
        (ReplaceIfNotNull) and turns black; the destructor then finds `x`
        without a parent and frees it. */
    method Splice(x: int, c: int, ghost q: Path) returns (ghost j: nat)
      requires LinkInv() && IsRB(tree, NIL) && IsAt(x, q) && q != []
      requires (At(tree, q).left.Leaf? || At(tree, q).right.Leaf?) && c == Id(OnlyChild(At(tree, q))) && c != NIL
      modifies this
      ensures LinkInv() && IsRB(tree, NIL) && data == old(data) && |slots| == old(|slots|)
      ensures j < |old(Elems(tree))| && old(Elems(tree))[j].0 == x
      ensures Elems(tree) == old(Elems(tree))[..j] + old(Elems(tree))[j + 1..]
    {
      ghost var t1, u := tree, At(tree, q);
      NodeInArena(tree, slots, q);
      SpliceTree(t1, q);
      j := |Before(t1, q)| + Count(u.left);
      ReplaceIfNotNull(x, c, q);
      assert tree == Put(t1, q, OnlyChild(u)) && At(tree, q) == OnlyChild(u);
      BlackenChild(x, c, q);
      IdsAt(tree, q);
      Destroy(x, q);
    }

    /** Erase's `if (node->isBlack())` after ReplaceIfNotNull with a child:
        the removed node `x` is black and the child `c` now at `q` red, so the
        child turns black (the other two branches cannot be taken). */
    method BlackenChild(x: int, c: int, ghost q: Path)
      requires LinkInv() && IsAt(c, q) && 0 <= x < |slots| && x !in Ids(tree)
      requires slots[x].info == Black && At(tree, q).info == Red
      requires IsRB(Paint(tree, q, Black), NIL)
      modifies this
      ensures LinkInv() && IsRB(tree, NIL) && tree == Paint(old(tree), q, Black)
      ensures |slots| == old(|slots|) && slots[x] == old(slots[x])
      ensures data == old(data) && root == old(root)
      ensures Elems(tree) == old(Elems(tree)) && Ids(tree) == old(Ids(tree)) && Reaches(tree, q)
    {
      NodeInArena(tree, slots, q);
      IdsAt(tree, q);
      if slots[x].info == Black {
        if slots[c].info == Red {
          SetColor(c, Black, q);
        } else {
          assert false;
        }
      }
    }

    /** Node::PlaceTo: node `y` hands its key over to the node `x` at `q`; the
        links, colours and payloads stay, and only the in-order entry of `x`
        changes. */
    method PlaceTo(y: int, x: int, ghost q: Path)
      requires LinkInv() && IsAt(x, q) && 0 <= y < |slots|
      modifies this
      ensures 0 <= x < |old(slots)| && LinkInv() && tree == Put(old(tree), q, old(At(tree, q)).(key := old(slots)[y].key))
      ensures slots == old(slots)[x := old(slots)[x].(key := old(slots)[y].key)]
      ensures data == old(data) && root == old(root)
      ensures var i := old(|Before(tree, q)| + Count(At(tree, q).left));
        i < |old(Elems(tree))| && Elems(tree) == old(Elems(tree))[i := (x, old(slots)[y].key)]
      ensures old(IsRB(tree, NIL)) ==> IsRB(tree, NIL)
      ensures Reaches(tree, q)
    {
      RekeyLinks(tree, slots, q, slots[y].key);
      tree := Put(tree, q, At(tree, q).(key := slots[y].key));
      slots := slots[x := slots[x].(key := slots[y].key)];
    }

    /** PlaceTo together with the payload, as OrderStatisticBST's Node::MoveTo
        does it: the node `x` at `q` ends up with `y`'s key and payload. */
    method MoveTo(y: int, x: int, ghost q: Path)
      requires LinkInv() && IsAt(x, q) && 0 <= y < |slots|
      modifies this
      ensures 0 <= x < |old(slots)| && LinkInv() && tree == Put(old(tree), q, old(At(tree, q)).(key := old(slots)[y].key))
      ensures slots == old(slots)[x := old(slots)[x].(key := old(slots)[y].key)]
      ensures data == old(data)[x := old(data)[y]] && root == old(root)
      ensures var i := old(|Before(tree, q)| + Count(At(tree, q).left));
        i < |old(Elems(tree))| && Elems(tree) == old(Elems(tree))[i := (x, old(slots)[y].key)]
      ensures old(IsRB(tree, NIL)) ==> IsRB(tree, NIL)
      ensures Reaches(tree, q)
    {
      PlaceTo(y, x, q);
      data := data[x := data[y]];
    }

    /** Node::ReplaceIfNotNull: when the node `x` at `q` has a child `c`, `c`
        takes its place under the parent, and `x` lets go of its children and
        its parent. */
    method ReplaceIfNotNull(x: int, c: int, ghost q: Path)
      requires LinkInv() && IsAt(x, q) && q != [] && (At(tree, q).left.Leaf? || At(tree, q).right.Leaf?)
      requires c == Id(OnlyChild(At(tree, q)))
      modifies this
      ensures |slots| == old(|slots|) && data == old(data) && root == old(root)
      ensures c == NIL ==> tree == old(tree) && slots == old(slots)
      ensures c != NIL ==> (LinkInv() && tree == Put(old(tree), q, OnlyChild(old(At(tree, q)))) &&
        x !in Ids(tree) && 0 <= x < |slots| && Reaches(tree, q) && At(tree, q) == OnlyChild(old(At(tree, q))) &&
        slots[x] == old(slots)[x].(parent := NIL, left := NIL, right := NIL))
    {
      if c == NIL {
        return;
      }
      SpliceLinks(tree, slots, q);
      ghost var g := At(tree, Parent(q)).id;
      ghost var s1 := slots[g := SetLink(slots[g], Last(q), c)][c := slots[c].(parent := g)];
      ghost var s2 := s1[x := s1[x].(left := NIL, right := NIL)];
      ghost var t' := Put(tree, q, OnlyChild(At(tree, q)));
      var par := slots[x].parent;
      if slots[par].left == x {
        slots := slots[par := slots[par].(left := c)];
      } else {
        slots := slots[par := slots[par].(right := c)];
      }
      slots := slots[c := slots[c].(parent := par)];
      slots := slots[x := slots[x].(left := NIL, right := NIL)];
      assert slots == s2;
      slots := slots[x := slots[x].(parent := NIL)];
      LinkedIds(t', NIL, s2);
      LinkedFrame(t', NIL, s2, slots);
      tree := t';
    }
  }

  /** Erase as written on a concrete map: the root holds (1, 'a') and its red
      right child (2, 'b'), written out by hand; it is the map inserting
      (1, 'a') and then (2, 'b') gives.  Erasing key 1 moves key 2 into the root without
      its payload, so key 2 ends up with 'a' instead of 'b'. */
  method PlaceToExample() returns (m: RedBlackBST<char>)
    ensures m.Valid() && m.Contents() == [(2, 'a')]
  {
    m := new RedBlackBST<char>();
    m.slots := [Slot(1, Black, NIL, NIL, 1), Slot(2, Red, 0, NIL, NIL)];
    m.data := ['a', 'b'];
    m.root := 0;
    m.tree := Node(0, 1, Black, Leaf, Node(1, 2, Red, Leaf, Leaf));
    assert Linked(m.tree.right, 0, m.slots);
    assert Linked(m.tree, NIL, m.slots);
    assert Keys(m.tree) == [1, 2];
    assert Elems(m.tree) == [(0, 1), (1, 2)];
    ghost var t0, c0 := m.tree, m.Contents();
    assert c0 == [(1, 'a'), (2, 'b')];
    assert !Childless(t0, 0);
    m.EraseAsWritten(1);
    ghost var i, j :| 0 <= i < |c0| && 0 <= j < |c0| && c0[i].0 == 1 &&
      (j == i <==> Childless(t0, Elems(t0)[i].0)) && (j == i || j == i + 1 || j + 1 == i) &&
      m.Contents() == Placed(c0, i, j);
    assert i == 0 && j == 1;
  }
}
