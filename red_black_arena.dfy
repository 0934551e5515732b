/** Arena facts shared by the red-black trees (RedBlackBST, RB_Tree and
    OrderStatisticBST): what rotations, insertion, the deletion fixup and
    the cut of a node do to the links, and the in-order entries they leave. */
module RedBlackArena {
  import opened BinaryTrees
  import opened Arena
  import opened RedBlack
  import opened RedBlackDeletion

  /** The in-order (key, payload) pairs of a tree whose in-order ids are `e`. */
  function Entries<T>(e: seq<(nat, int)>, data: seq<T>): (r: seq<(int, T)>)
    requires IdsBelow(e, |data|)
    ensures |r| == |e|
    ensures forall i :: 0 <= i < |r| ==> r[i] == (e[i].1, data[e[i].0])
    decreases |e|
  {
    if e == [] then [] else [(e[0].1, data[e[0].0])] + Entries(e[1..], data)
  }

  lemma EntriesAppend<T>(a: seq<(nat, int)>, b: seq<(nat, int)>, data: seq<T>)
    requires forall i :: 0 <= i < |a + b| ==> (a + b)[i].0 < |data|
    ensures forall i :: 0 <= i < |a| ==> a[i].0 < |data|
    ensures forall i :: 0 <= i < |b| ==> b[i].0 < |data|
    ensures Entries(a + b, data) == Entries(a, data) + Entries(b, data)
  {
    forall i | 0 <= i < |a| ensures a[i].0 < |data| { assert (a + b)[i] == a[i]; }
    forall i | 0 <= i < |b| ensures b[i].0 < |data| { assert (a + b)[|a| + i] == b[i]; }
    var r, r' := Entries(a + b, data), Entries(a, data) + Entries(b, data);
    forall i | 0 <= i < |r| ensures r[i] == r'[i] {
      if i < |a| { assert (a + b)[i] == a[i]; } else { assert (a + b)[i] == b[i - |a|]; }
    }
  }

  /** Only the payloads of the ids in `e` matter. */
  lemma EntriesFrame<T>(e: seq<(nat, int)>, data: seq<T>, data': seq<T>)
    requires forall i :: 0 <= i < |e| ==> e[i].0 < |data| && e[i].0 < |data'| && data'[e[i].0] == data[e[i].0]
    ensures Entries(e, data') == Entries(e, data)
  {
  }

  /** The cells a rotation at `p` touches are in the arena. */
  lemma RotateCellsIn(t: RBTree, s: seq<Slot<Color>>, p: Path, d: Dir)
    requires Linked(t, NIL, s) && Distinct(t)
    requires At(t, p).Node? && Child(At(t, p), Other(d)).Node?
    ensures Reaches(t, p)
    ensures var x := At(t, p); var y := Child(x, Other(d));
      x.id < |s| && y.id < |s| && Link(s[x.id], Other(d)) == y.id &&
      (s[x.id].parent != NIL ==> 0 <= s[x.id].parent < |s|) &&
      Id(Child(y, d)) == Link(s[y.id], d) && (Link(s[y.id], d) != NIL ==> 0 <= Link(s[y.id], d) < |s|) &&
      Reaches(t, p + [Other(d)]) && At(t, p + [Other(d)]) == y
  {
    AtNodeReaches(t, p);
    RotateShape(t, s, p, d);
    AtChild(t, p, Other(d));
    var y := Child(At(t, p), Other(d));
    assert Link(s[y.id], d) != NIL ==> Child(y, d).Node? && 0 <= Link(s[y.id], d) < |s|;
  }

  /** What a rotation at `p` does to the arena and the root: the rotated tree
      is linked by the rotated cells. */
  lemma RotateLinks(t: RBTree, s: seq<Slot<Color>>, p: Path, d: Dir)
    requires Linked(t, NIL, s) && Distinct(t)
    requires At(t, p).Node? && Child(At(t, p), Other(d)).Node?
    ensures Reaches(t, p)
    ensures var x := At(t, p); var y := Child(x, Other(d));
      x.id < |s| && y.id < |s| && Link(s[x.id], Other(d)) == y.id &&
      (s[x.id].parent != NIL ==> 0 <= s[x.id].parent < |s|) &&
      (Link(s[y.id], d) != NIL ==> 0 <= Link(s[y.id], d) < |s|)
    ensures Linked(Put(t, p, Rot(At(t, p), d)), NIL, RotateCells(s, At(t, p).id, d))
    ensures var x := At(t, p); var y := Child(x, Other(d));
      Id(RotAt(t, p, d)) == (if s[x.id].parent == NIL then y.id else Id(t)) &&
      (s[x.id].parent == NIL <==> p == [])
  {
    AtNodeReaches(t, p);
    LinkedRotateCells(t, s, p, d);
    var y := Child(At(t, p), Other(d));
    assert Link(s[y.id], d) == Id(Child(y, d));
    assert Link(s[y.id], d) != NIL ==> Child(y, d).Node? && 0 <= Link(s[y.id], d) < |s|;
    var r := Rot(At(t, p), d);
    assert RotAt(t, p, d) == Put(t, p, r);
    if p == [] {
      assert r.id == Child(At(t, p), Other(d)).id by { if d == L { } else { } }
    } else {
      PutKeepsRoot(t, p, r);
    }
  }

  /** A new last cell, with payload `v`, listed between `b` and `a`. */
  lemma EntriesInsert<T>(b: seq<(nat, int)>, a: seq<(nat, int)>, n: nat, k: int, data: seq<T>, v: T)
    requires n == |data| && forall i :: 0 <= i < |b + a| ==> (b + a)[i].0 < n
    ensures forall i :: 0 <= i < |b + [(n, k)] + a| ==> (b + [(n, k)] + a)[i].0 < |data + [v]|
    ensures Entries(b + [(n, k)] + a, data + [v]) ==
            Entries(b + a, data)[..|b|] + [(k, v)] + Entries(b + a, data)[|b|..]
  {
    var e, e' := b + a, b + [(n, k)] + a;
    var d' := data + [v];
    forall i | 0 <= i < |e'| ensures e'[i].0 < |d'| {
      if i < |b| { assert e'[i] == e[i]; } else if i > |b| { assert e'[i] == e[i - 1]; }
    }
    var r, r' := Entries(e', d'), Entries(e, data)[..|b|] + [(k, v)] + Entries(e, data)[|b|..];
    forall i | 0 <= i < |r| ensures r[i] == r'[i] {
      if i < |b| { assert e'[i] == e[i]; } else if i > |b| { assert e'[i] == e[i - 1]; }
    }
  }

  ghost predicate IdsBelow(e: seq<(nat, int)>, m: int)
  {
    forall i :: 0 <= i < |e| ==> e[i].0 < m
  }

  /** Insert on the entries: the new pair lands at the position InsertNode found,
      after the smaller keys and before the others. */
  lemma InsertEntries<T>(t: RBTree, p: Path, n: nat, key: int, data: seq<T>, v: T)
    requires Ordered(t) && Reaches(t, p) && At(t, p).Leaf? && Between(t, p, key)
    requires n == |data| && forall i :: i in Ids(t) ==> i < n
    ensures var e := Elems(t); var e' := Elems(Put(t, p, Node(n, key, Red, Leaf, Leaf)));
      var i := |Before(t, p)|;
      IdsBelow(e, |data|) && IdsBelow(e', |data| + 1) && Ordered(Put(t, p, Node(n, key, Red, Leaf, Leaf))) &&
      i <= |e| &&
      Entries(e', data + [v]) == Entries(e, data)[..i] + [(key, v)] + Entries(e, data)[i..] &&
      (forall j :: 0 <= j < i ==> Entries(e, data)[j].0 < key) &&
      (forall j :: i <= j < |e| ==> key <= Entries(e, data)[j].0)
  {
    var u := Node(n, key, Red, Leaf, Leaf);
    BetweenInsert(t, p, u);
    ElemIds(t);
    var b, a := Before(t, p), After(t, p);
    assert IdsBelow(b + a, |data|);
    EntriesInsert(b, a, n, key, data, v);
    SplitKeys(b, a, key, data);
  }

  /** The entries of `b + a` hold the keys below `k` first and the others after. */
  lemma SplitKeys<T>(b: seq<(nat, int)>, a: seq<(nat, int)>, k: int, data: seq<T>)
    requires AllLt(KeysOf(b), k) && AllGe(KeysOf(a), k) && IdsBelow(b + a, |data|)
    ensures forall j :: 0 <= j < |b| ==> Entries(b + a, data)[j].0 < k
    ensures forall j :: |b| <= j < |b + a| ==> k <= Entries(b + a, data)[j].0
  {
    var r := Entries(b + a, data);
    forall j | 0 <= j < |b| ensures r[j].0 < k {
      KeysOfIndex(b, j);
      assert (b + a)[j] == b[j];
    }
    forall j | |b| <= j < |b + a| ensures k <= r[j].0 {
      KeysOfIndex(a, j - |b|);
      assert (b + a)[j] == a[j - |b|];
    }
  }

  /** The cell of the node at `q`, as the arena of a linked tree holds it. */
  function SlotAt(t: RBTree, q: Path): Slot<Color>
    requires At(t, q).Node?
  {
    var u := At(t, q);
    Slot(u.key, u.info, if q == [] then NIL else Id(At(t, Parent(q))), Id(u.left), Id(u.right))
  }

  /** One step of Find: the child it moves to, and what the search keeps knowing. */
  lemma FindDescend(t: RBTree, s: seq<Slot<Color>>, q: Path, key: int)
    requires Linked(t, NIL, s) && Distinct(t) && Reaches(t, q) && At(t, q).Node? && Ordered(At(t, q))
    requires At(t, q).key != key
    ensures var d := if At(t, q).key < key then R else L;
      Reaches(t, q + [d]) && At(t, q + [d]) == Child(At(t, q), d) && Ordered(At(t, q + [d])) &&
      (key in Keys(At(t, q + [d])) <==> key in Keys(At(t, q))) &&
      Count(At(t, q + [d])) < Count(At(t, q)) &&
      (At(t, q + [d]).Node? ==> At(t, q + [d]).id < |s| && s[At(t, q + [d]).id] == SlotAt(t, q + [d]))
  {
    var u := At(t, q);
    var d := if u.key < key then R else L;
    AtChild(t, q, d);
    KeysNode(u);
    OrderedNode(u);
    if key in Keys(u) { FindStep(u, key); }
    assert forall k :: k in Keys(Child(u, d)) ==> k in Keys(u) by { if d == L { } else { } }
    assert Ordered(Child(u, d)) by { if d == L { } else { } }
    if At(t, q + [d]).Node? { NodeInArena(t, s, q + [d]); }
  }

  /** The phantom of the deletion fixup, when there is one (`ph != NIL`), is
      the childless node `phn`, and it lies in `u`. */
  ghost predicate PhantomIn(u: RBTree, ph: int, phn: RBTree)
  {
    ph == NIL || (phn.Node? && phn.id == ph && phn.left.Leaf? && phn.right.Leaf? && Contains(u, phn))
  }

  /** Repainting one node keeps the id at every position. */
  lemma PaintId(t: RBTree, q: Path, c: Color, r: Path)
    requires At(t, q).Node?
    ensures Id(At(Paint(t, q, c), r)) == Id(At(t, r))
  {
    PaintShape(t, q, c);
    ShapeAt(Paint(t, q, c), t, r);
  }

  lemma CountAtMost<A>(t: Tree<A>, p: Path)
    ensures Count(At(t, p)) <= Count(t)
  {
    if p != [] && t.Node? { CountAt(t, p); } else if p != [] { AtOfLeaf<A>(p); }
  }

  /** Colour of a node given by index, null read as black: `!x || x->isBlack()`. */
  function CellColor(s: seq<Slot<Color>>, i: int): Color
    requires i == NIL || 0 <= i < |s|
  {
    if i == NIL then Black else s[i].info
  }

  /** The colour the arena gives the `d` child of the node at `q` is its colour
      in the tree, with the phantom `ph` (absent from that subtree) read as black. */
  lemma ChildCellColor(t: RBTree, s: seq<Slot<Color>>, q: Path, d: Dir, ph: int)
    requires Linked(t, NIL, s) && Distinct(t) && At(t, q).Node? && ph !in Ids(At(t, q))
    ensures Reaches(t, q) && At(t, q).id < |s|
    ensures var c := Link(s[At(t, q).id], d);
      c == Id(At(t, q + [d])) && (c == NIL || 0 <= c < |s|) &&
      CellColor(s, c) == ColorOf(At(t, q + [d]), ph)
  {
    NodeInArena(t, s, q);
    AtChild(t, q, d);
    if At(t, q + [d]).Node? {
      NodeInArena(t, s, q + [d]);
      assert At(t, q + [d]).id in Ids(At(t, q)) by { if d == L { } else { } }
    }
  }

  /** What the deletion fixup reads around the subject at `p`: its parent, on
      which side it hangs, its brother and the brother's children, with the
      colours the arena holds for them. */
  lemma DeleteView(t: RBTree, s: seq<Slot<Color>>, p: Path, ph: int, phn: RBTree)
    requires Linked(t, NIL, s) && Distinct(t) && DeleteInv(t, p, ph) && p != []
    requires PhantomIn(At(t, p), ph, phn)
    ensures Reaches(t, p) && p == Parent(p) + [Last(p)]
    ensures var n, g, b := At(t, p), At(t, Parent(p)), At(t, Sibling(p));
      n.Node? && g.Node? && b.Node? && n.id < |s| && g.id < |s| && b.id < |s| &&
      s[n.id].parent == g.id && (s[g.id].left == n.id <==> Last(p) == L) &&
      s[g.id].info == g.info && s[b.id].info == b.info &&
      (s[g.id].right == n.id <==> Last(p) == R) &&
      Link(s[g.id], Other(Last(p))) == b.id &&
      s[g.id].info == ColorOf(g, ph) && s[b.id].info == ColorOf(b, ph) &&
      s[b.id].left == Id(At(t, Sibling(p) + [L])) && s[b.id].right == Id(At(t, Sibling(p) + [R])) &&
      (s[b.id].left == NIL || 0 <= s[b.id].left < |s|) && (s[b.id].right == NIL || 0 <= s[b.id].right < |s|)
    ensures var b := At(t, Sibling(p)).id;
      CellColor(s, s[b].left) == ColorOf(At(t, Sibling(p) + [L]), ph) &&
      CellColor(s, s[b].right) == ColorOf(At(t, Sibling(p) + [R]), ph)
    ensures Near(p) == Sibling(p) + [Last(p)] && Far(p) == Sibling(p) + [Other(Last(p))]
    ensures Count(At(t, p)) <= Count(t)
  {
    DeleteLocal(t, p, ph);
    if ph != NIL {
      ContainsIds(At(t, p), phn);
      assert ph in Ids(phn);
    }
    PhantomInside(t, p, ph);
    NodeInArena(t, s, p);
    NodeInArena(t, s, Parent(p));
    SiblingInArena(t, s, p);
    NodeInArena(t, s, Sibling(p));
    ChildCellColor(t, s, Sibling(p), L, ph);
    ChildCellColor(t, s, Sibling(p), R, ph);
    assert Sibling(p) + [L] == Near(p) || Sibling(p) + [L] == Far(p);
    assert Sibling(p) + [R] == Near(p) || Sibling(p) + [R] == Far(p);
    CountAtMost(t, p);
  }

  /** The ancestors of `r` are those of its parent and the parent itself. */
  lemma AncParent(t: RBTree, r: Path)
    requires Distinct(t) && Reaches(t, r) && r != []
    ensures Reaches(t, Parent(r)) && At(t, Parent(r)).Node?
    ensures At(t, Parent(r)).id in Anc(t, r) && Anc(t, r) - {At(t, Parent(r)).id} == Anc(t, Parent(r))
  {
    ReachesPrefix(t, r, |r| - 1);
    var g := At(t, Parent(r));
    assert r == Parent(r) + [Last(r)];
    AncChild(t, Parent(r), Last(r));
    AncIds(t, Parent(r));
    IdIn(g);
  }

  /** The tree side of Splice: the node at `q` is black and its only child
      red, and hanging the child in its place and painting it black keeps a
      red-black tree whose in-order sequence lacks the node's entry. */
  lemma SpliceTree(t: RBTree, q: Path)
    requires IsRB(t, NIL) && Reaches(t, q) && At(t, q).Node?
    requires At(t, q).left.Leaf? || At(t, q).right.Leaf?
    requires OnlyChild(At(t, q)).Node?
    ensures var x := At(t, q); var j := |Before(t, q)| + Count(x.left);
      x.info == Black && OnlyChild(x).info == Red &&
      j < |Elems(t)| && Elems(t)[j] == (x.id, x.key) &&
      Elems(Put(t, q, OnlyChild(x))) == Elems(t)[..j] + Elems(t)[j + 1..] &&
      Reaches(Put(t, q, OnlyChild(x)), q) && At(Put(t, q, OnlyChild(x)), q) == OnlyChild(x) &&
      IsRB(Paint(Put(t, q, OnlyChild(x)), q, Black), NIL) &&
      Elems(Paint(Put(t, q, OnlyChild(x)), q, Black)) == Elems(Put(t, q, OnlyChild(x)))
  {
    var x := At(t, q);
    var c := OnlyChild(x);
    var t1 := Put(t, q, c);
    RemoveElems(t, q, c);
    SpliceRB(t, q);
    AtPut(t, q, c);
    PutPut(t, q, c, c.(info := Black));
    assert Paint(t1, q, Black) == Put(t, q, c.(info := Black));
    PaintElems(t1, q, Black);
  }

  /** After the fixup the childless node `x` that was read as absent is cut
      off where it now sits: a red-black tree remains, and of the in-order
      sequence only the entry of `x` goes. */
  lemma CutPhantom(t: RBTree, x: RBTree) returns (q: Path)
    requires Distinct(t) && Contains(t, x) && x.Node? && x.left.Leaf? && x.right.Leaf? && IsRB(t, x.id)
    ensures Reaches(t, q) && At(t, q) == x && IsRB(Put(t, q, Leaf), NIL)
    ensures var j := |Before(t, q)|;
      j < |Elems(t)| && Elems(t)[j] == (x.id, x.key) && Elems(Put(t, q, Leaf)) == Elems(t)[..j] + Elems(t)[j + 1..]
  {
    q := ContainsPath(t, x);
    DeleteFinish(t, q);
    RemoveElems(t, q, Leaf);
  }

  /** Erase on the entries when the erased node is cut out itself: its entry goes. */
  lemma EntriesCut<T>(e: seq<(nat, int)>, data: seq<T>, j: nat)
    requires IdsBelow(e, |data|) && j < |e|
    ensures IdsBelow(e[..j] + e[j + 1..], |data|)
    ensures Entries(e[..j] + e[j + 1..], data) == Entries(e, data)[..j] + Entries(e, data)[j + 1..]
  {
    var e' := e[..j] + e[j + 1..];
    forall k | 0 <= k < |e'| ensures e'[k] == e[if k < j then k else k + 1] {
      if k < j { assert e'[k] == e[..j][k]; } else { assert e'[k] == e[j + 1..][k - j]; }
    }
  }

  /** One position of EntriesMove: the entry left at `k` after the move and the cut. */
  lemma EntriesMoveAt<T>(e: seq<(nat, int)>, data: seq<T>, i: nat, j: nat, k: nat)
    requires IdsBelow(e, |data|) && i < |e| && j < |e| && (j == i + 1 || j + 1 == i)
    requires forall k :: 0 <= k < |e| && k != i ==> e[k].0 != e[i].0
    requires k + 1 < |e|
    ensures var e1 := e[i := (e[i].0, e[j].1)]; var e2 := e1[..j] + e1[j + 1..];
      var k1 := if k < i then k else k + 1;
      e2[k].0 < |data| && (e2[k].1, data[e[i].0 := data[e[j].0]][e2[k].0]) == (e[k1].1, data[e[k1].0])
  {
    var e1 := e[i := (e[i].0, e[j].1)];
    var e2 := e1[..j] + e1[j + 1..];
    var kj := if k < j then k else k + 1;
    assert e2[k] == e1[kj] by {
      if k < j { assert e2[k] == e1[..j][k]; } else { assert e2[k] == e1[j + 1..][k - j]; }
    }
    if kj == i {
      assert e2[k] == (e[i].0, e[j].1);
    } else {
      assert e2[k] == e[kj] && e[kj].0 != e[i].0;
    }
  }

  /** Erase on the entries when a neighbour `j` of the erased node `i` (its
      successor or predecessor) moves its key and payload into `i` and is then
      cut out: the result is the entries without the one at `i`. */
  lemma EntriesMove<T>(e: seq<(nat, int)>, data: seq<T>, i: nat, j: nat)
    requires IdsBelow(e, |data|) && i < |e| && j < |e| && (j == i + 1 || j + 1 == i)
    requires forall k :: 0 <= k < |e| && k != i ==> e[k].0 != e[i].0
    ensures var e1 := e[i := (e[i].0, e[j].1)]; var e2 := e1[..j] + e1[j + 1..];
      IdsBelow(e1, |data|) && IdsBelow(e2, |data|) &&
      Entries(e2, data[e[i].0 := data[e[j].0]]) == Entries(e, data)[..i] + Entries(e, data)[i + 1..]
  {
    var e1 := e[i := (e[i].0, e[j].1)];
    var d := data[e[i].0 := data[e[j].0]];
    EntriesCut(e1, data, j);
    var e2 := e1[..j] + e1[j + 1..];
    var c := Entries(e, data);
    var r := c[..i] + c[i + 1..];
    var c2 := Entries(e2, d);
    assert |c2| == |r|;
    forall k | 0 <= k < |e2| ensures c2[k] == r[k] {
      EntriesMoveAt(e, data, i, j, k);
      SkipIndex(c, i, k);
      assert c2[k] == (e2[k].1, d[e2[k].0]);
    }
  }

  /** Cutting out in-order entry `i` cuts out entry `i` of the entries and
      keeps the keys in order. */
  lemma CutView<T>(e: seq<(nat, int)>, data: seq<T>, i: nat, e': seq<(nat, int)>)
    requires IdsBelow(e, |data|) && i < |e| && e' == e[..i] + e[i + 1..] && Sorted(KeysOf(e))
    ensures IdsBelow(e', |data|) && Sorted(KeysOf(e'))
    ensures Entries(e', data) == Entries(e, data)[..i] + Entries(e, data)[i + 1..]
  {
    EntriesCut(e, data, i);
    KeysCut(e, i, e');
    SortedSkip(KeysOf(e), KeysOf(e'), i);
  }

  /** Entry `i` taking its neighbour `j`'s key and data, and `j` then cut
      out, cuts out entry `i` of the entries and keeps the keys in order. */
  lemma MoveView<T>(e: seq<(nat, int)>, data: seq<T>, i: nat, j: nat, e': seq<(nat, int)>, data': seq<T>)
    requires IdsBelow(e, |data|) && i < |e| && j < |e| && (j == i + 1 || j + 1 == i)
    requires forall k :: 0 <= k < |e| && k != i ==> e[k].0 != e[i].0
    requires e' == e[i := (e[i].0, e[j].1)][..j] + e[i := (e[i].0, e[j].1)][j + 1..]
    requires data' == data[e[i].0 := data[e[j].0]] && Sorted(KeysOf(e))
    ensures IdsBelow(e', |data'|) && Sorted(KeysOf(e'))
    ensures Entries(e', data') == Entries(e, data)[..i] + Entries(e, data)[i + 1..]
  {
    EntriesMove(e, data, i, j);
    KeysMove(e, i, j, e');
    SortedSkip(KeysOf(e), KeysOf(e'), i);
  }

  // ---------------------------------------------------------------------
  // Link updates of the trees without sizes (RedBlackBST, RB_Tree)

  /** InsertNode at a null link: node `n`, the last cell, hangs at the empty
      position `q` under `par`, on side `side`. */
  lemma AttachLinks(t: RBTree, s: seq<Slot<Color>>, q: Path, n: int, par: int, side: Dir)
    requires Linked(t, NIL, s) && Distinct(t) && 0 <= n == |s| - 1
    requires s[n] == Slot(s[n].key, Red, NIL, NIL, NIL)
    requires forall i :: i in Ids(t) ==> i < n
    requires Reaches(t, q) && At(t, q).Leaf?
    requires par == (if q == [] then NIL else Id(At(t, Parent(q))))
    requires q != [] ==> side == Last(q)
    ensures par != NIL ==> 0 <= par < |s| && par != n
    ensures var u := Node(n, s[n].key, Red, Leaf, Leaf); var t' := Put(t, q, u);
      var s1 := if par == NIL then s else s[par := SetLink(s[par], side, n)];
      Linked(t', NIL, s1[n := s[n].(parent := par)]) && Distinct(t') &&
      Id(t') == (if par == NIL then n else Id(t)) && At(t', q) == u
  {
    var s0 := s[..n];
    LinkedFrame(t, NIL, s, s0);
    var u := Node(n, s[n].key, Red, Leaf, Leaf);
    if q != [] {
      ParentLink(t, s0, q);
    }
    var s1 := if par == NIL then s else s[par := SetLink(s[par], side, n)];
    var s2 := s1[n := s[n].(parent := par)];
    LinkedAttach(t, s0, q, s[n].key, Red, s2);
    if q != [] { PutKeepsRoot(t, q, u); }
    AtPut(t, q, u);
  }

  /** One step of InsertNode's descent from the node at `q`: the search goes on
      toward the side of the new key. */
  lemma DescendLinks(t: RBTree, s: seq<Slot<Color>>, q: Path, n: int)
    requires Linked(t, NIL, s) && Distinct(t) && Ordered(t) && 0 <= n < |s|
    requires forall i :: i in Ids(t) ==> i < n
    requires Reaches(t, q) && At(t, q).Node? && Between(t, q, s[n].key)
    ensures At(t, q).id < |s| && At(t, q).id != n
    ensures var x := At(t, q); var d := if s[n].key > s[x.id].key then R else L;
      s[x.id].key == x.key &&
      Reaches(t, q + [d]) && Link(s[x.id], d) == Id(At(t, q + [d])) &&
      Parent(q + [d]) == q && Last(q + [d]) == d &&
      Between(t, q + [d], s[n].key) && Count(At(t, q + [d])) < Count(At(t, q))
  {
    var x := At(t, q);
    NodeInArena(t, s, q);
    IdIn(x);
    IdsAt(t, q);
    var d := if s[n].key > s[x.id].key then R else L;
    AtChild(t, q, d);
    BetweenChild(t, q, s[n].key);
    assert Link(s[x.id], d) == Id(Child(x, d)) by { if d == L { } else { } }
    assert Count(Child(x, d)) < Count(x) by { if d == L { } else { } }
  }

  /** A new key `k` for the node at `q`: its links and colour stay, and only
      its in-order element changes. */
  lemma RekeyLinks(t: RBTree, s: seq<Slot<Color>>, q: Path, k: int)
    requires Linked(t, NIL, s) && Distinct(t) && At(t, q).Node?
    ensures var x := At(t, q); var t' := Put(t, q, x.(key := k)); var i := |Before(t, q)| + Count(x.left);
      Reaches(t, q) && x.id < |s| &&
      Linked(t', NIL, s[x.id := s[x.id].(key := k)]) && Distinct(t') &&
      Id(t') == Id(t) && Reaches(t', q) && At(t', q) == x.(key := k) &&
      i < |Elems(t)| && Elems(t)[i] == (x.id, x.key) && Elems(t') == Elems(t)[i := (x.id, k)] &&
      (IsRB(t, NIL) ==> IsRB(t', NIL))
  {
    var x := At(t, q);
    var u := x.(key := k);
    NodeInArena(t, s, q);
    LinkedRelabel(t, s, q, k, x.info);
    assert x.(key := k, info := x.info) == u;
    assert s[x.id].(key := k, info := x.info) == s[x.id].(key := k);
    DistinctAt(t, q);
    DistinctPut(t, q, u);
    if q != [] { PutKeepsRoot(t, q, u); }
    AtPut(t, q, u);
    ElemsIndex(t, q);
    RekeyElems(t, q, k);
    RekeyRB(t, q, k, NIL);
  }

  /** The only child `c` of the node at `q` takes the node's place: the
      parent's link and the child's parent link name each other, and the node
      lets go of its children. */
  lemma SpliceLinks(t: RBTree, s: seq<Slot<Color>>, q: Path)
    requires Linked(t, NIL, s) && Distinct(t) && q != []
    requires At(t, q).Node? && (At(t, q).left.Leaf? || At(t, q).right.Leaf?) && OnlyChild(At(t, q)).Node?
    ensures var x, c, g := At(t, q), OnlyChild(At(t, q)), At(t, Parent(q));
      Reaches(t, q) && g.Node? && x.id < |s| && c.id < |s| && g.id < |s| &&
      c.id != x.id && c.id != g.id && x.id != g.id &&
      s[x.id].parent == g.id && (s[g.id].left == x.id <==> Last(q) == L) &&
      s[x.id] == Slot(x.key, x.info, g.id, Id(x.left), Id(x.right)) && s[c.id].parent == x.id
    ensures var x, c, g := At(t, q), OnlyChild(At(t, q)), At(t, Parent(q));
      var s' := s[g.id := SetLink(s[g.id], Last(q), c.id)][c.id := s[c.id].(parent := g.id)];
      var t' := Put(t, q, c);
      Linked(t', NIL, s'[x.id := s'[x.id].(left := NIL, right := NIL)]) && Distinct(t') &&
      x.id !in Ids(t') && Ids(t') == Ids(t) - {x.id} && Id(t') == Id(t) &&
      Reaches(t', q) && At(t', q) == c &&
      At(t', Parent(q)).Node? && At(t', Parent(q)).id == g.id
  {
    var x, c, g := At(t, q), OnlyChild(At(t, q)), At(t, Parent(q));
    NodeInArena(t, s, q);
    AtChild(t, q, L);
    AtChild(t, q, R);
    var dc := if x.left.Node? then L else R;
    NodeInArena(t, s, q + [dc]);
    DistinctAt(t, q);
    IdIn(x);
    IdIn(c);
    assert c.id != x.id && c.id != g.id;
    var s' := s[g.id := SetLink(s[g.id], Last(q), c.id)][c.id := s[c.id].(parent := g.id)];
    var s'' := s'[x.id := s'[x.id].(left := NIL, right := NIL)];
    LinkedSplice(t, s, q, s'');
    PutAbove(t, q, c);
    AtPut(t, q, c);
    PutKeepsRoot(t, q, c);
  }

  /** `parent->left = nullptr` or `parent->right = nullptr` for the childless
      node at `q`: it drops out of the tree. */
  lemma UnlinkLinks(t: RBTree, s: seq<Slot<Color>>, q: Path)
    requires Linked(t, NIL, s) && Distinct(t) && q != []
    requires At(t, q).Node? && At(t, q).left.Leaf? && At(t, q).right.Leaf?
    ensures var n, g := At(t, q).id, At(t, Parent(q)); var t' := Put(t, q, Leaf);
      Reaches(t, q) && g.Node? && g.id < |s| && n < |s| && s[n].parent == g.id &&
      (s[g.id].left == n <==> Last(q) == L) && (s[g.id].right == n <==> Last(q) == R) &&
      Linked(t', NIL, s[g.id := SetLink(s[g.id], Last(q), NIL)]) && Distinct(t') && Id(t') == Id(t) &&
      Ids(t') == Ids(t) - {n} && Reaches(t', q) &&
      At(t', Parent(q)).Node? && At(t', Parent(q)).id == g.id
  {
    var g := At(t, Parent(q));
    NodeInArena(t, s, q);
    LinkedUnlink(t, s, q, s[g.id := SetLink(s[g.id], Last(q), NIL)]);
    PutAbove(t, q, Leaf);
    PutKeepsRoot(t, q, Leaf);
  }
}
