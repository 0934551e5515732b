/** Binary trees whose nodes live in an arena of slots addressed by index.
    A ghost `Tree` describes the shape; `Linked` says that the arena's
    parent/left/right indices realise exactly that shape.  Every pointer
    tree in this project (red-black, splay, optimal) is built on this. */
module BinaryTrees {

  /** The null link. */
  const NIL: int := -1

  datatype Dir = L | R
  type Path = seq<Dir>

  function Other(d: Dir): Dir { if d == L then R else L }

  /** Path of the parent, direction of the last step, path of the sibling (the
      brother of the fixup code, or the uncle one level up). */
  function Parent(p: Path): Path requires p != [] { p[..|p| - 1] }
  function Last(p: Path): Dir requires p != [] { p[|p| - 1] }
  function Sibling(p: Path): Path requires p != [] { Parent(p) + [Other(Last(p))] }

  /** Ghost shape of a pointer tree: each node records its arena index,
      its key and the per-structure information (colour, cost, ...). */
  datatype Tree<A> = Leaf | Node(id: nat, key: int, info: A, left: Tree<A>, right: Tree<A>)

  /** One arena cell: the fields every node of the source carries. */
  datatype Slot<A> = Slot(key: int, info: A, parent: int, left: int, right: int)

  function Id<A>(t: Tree<A>): int { if t.Leaf? then NIL else t.id }

  function Child<A>(t: Tree<A>, d: Dir): Tree<A>
    requires t.Node?
  {
    if d == L then t.left else t.right
  }

  function WithChild<A>(t: Tree<A>, d: Dir, u: Tree<A>): (r: Tree<A>)
    requires t.Node?
    ensures r.Node? && r.id == t.id && r.key == t.key && r.info == t.info
    ensures Child(r, d) == u && Child(r, Other(d)) == Child(t, Other(d))
  {
    if d == L then t.(left := u) else t.(right := u)
  }

  /** The subtree at a path (Leaf when the path falls off the tree). */
  function At<A>(t: Tree<A>, p: Path): Tree<A>
    decreases |p|
  {
    if p == [] then t
    else if t.Leaf? then Leaf
    else At(Child(t, p[0]), p[1..])
  }

  /** Every proper prefix of `p` ends at a node: `p` names a node or an
      empty child position of the tree. */
  ghost predicate Reaches<A>(t: Tree<A>, p: Path)
    decreases |p|
  {
    p == [] || (t.Node? && Reaches(Child(t, p[0]), p[1..]))
  }

  /** The tree with the subtree at `p` replaced by `u`. */
  function Put<A>(t: Tree<A>, p: Path, u: Tree<A>): Tree<A>
    decreases |p|
  {
    if p == [] then u
    else if t.Leaf? then t
    else WithChild(t, p[0], Put(Child(t, p[0]), p[1..], u))
  }

  /** In-order sequence of the nodes, as (arena index, key) pairs. */
  function Elems<A>(t: Tree<A>): seq<(nat, int)>
  {
    if t.Leaf? then [] else Elems(t.left) + [(t.id, t.key)] + Elems(t.right)
  }

  function KeysOf(e: seq<(nat, int)>): seq<int>
    ensures |KeysOf(e)| == |e|
  {
    if e == [] then [] else [e[0].1] + KeysOf(e[1..])
  }

  /** In-order key sequence. */
  function Keys<A>(t: Tree<A>): seq<int>
  {
    KeysOf(Elems(t))
  }

  /** Number of nodes. */
  function Count<A>(t: Tree<A>): nat
  {
    if t.Leaf? then 0 else Count(t.left) + 1 + Count(t.right)
  }

  function Ids<A>(t: Tree<A>): set<nat>
  {
    if t.Leaf? then {} else Ids(t.left) + {t.id} + Ids(t.right)
  }

  /** No arena index occurs twice in the tree. */
  ghost predicate Distinct<A>(t: Tree<A>)
  {
    t.Leaf? ||
    (t.id !in Ids(t.left) && t.id !in Ids(t.right) && Ids(t.left) !! Ids(t.right)
     && Distinct(t.left) && Distinct(t.right))
  }

  /** The arena realises `t`, whose root has parent index `parent`. */
  ghost predicate Linked<A>(t: Tree<A>, parent: int, s: seq<Slot<A>>)
  {
    t.Leaf? ||
    (t.id < |s| && s[t.id] == Slot(t.key, t.info, parent, Id(t.left), Id(t.right))
     && Linked(t.left, t.id, s) && Linked(t.right, t.id, s))
  }

  ghost predicate Sorted(s: seq<int>)
  {
    forall i, j :: 0 <= i < j < |s| ==> s[i] <= s[j]
  }

  /** Binary-search-tree order with duplicates allowed: the in-order keys never decrease. */
  ghost predicate Ordered<A>(t: Tree<A>)
  {
    Sorted(Keys(t))
  }

  /** Left rotation at the root: the right child (the pivot) takes the node's place. */
  function RotL<A>(t: Tree<A>): Tree<A>
    requires t.Node? && t.right.Node?
  {
    var y := t.right;
    Node(y.id, y.key, y.info, Node(t.id, t.key, t.info, t.left, y.left), y.right)
  }

  /** Right rotation at the root: the left child (the pivot) takes the node's place. */
  function RotR<A>(t: Tree<A>): Tree<A>
    requires t.Node? && t.left.Node?
  {
    var y := t.left;
    Node(y.id, y.key, y.info, y.left, Node(t.id, t.key, t.info, y.right, t.right))
  }

  /** Rotation at the root toward direction `d`: `d == L` is a left rotation
      (the right child rises), `d == R` a right rotation. */
  function Rot<A>(t: Tree<A>, d: Dir): Tree<A>
    requires t.Node? && Child(t, Other(d)).Node?
  {
    if d == L then RotL(t) else RotR(t)
  }

  // ---------------------------------------------------------------------
  // Facts about paths

  /** The parent, last step and sibling of a path two steps below `P`. */
  lemma PathTwo(P: Path, d: Dir, e: Dir)
    ensures Parent(P + [d, e]) == P + [d] && Last(P + [d, e]) == e
    ensures Sibling(P + [d, e]) == P + [d, Other(e)]
  {
    assert (P + [d, e])[..|P| + 1] == P + [d];
    assert P + [d] + [Other(e)] == P + [d, Other(e)];
  }

  lemma AtPut<A>(t: Tree<A>, p: Path, u: Tree<A>)
    requires Reaches(t, p)
    ensures At(Put(t, p, u), p) == u
    ensures Reaches(Put(t, p, u), p)
    decreases |p|
  {
    if p != [] { AtPut(Child(t, p[0]), p[1..], u); }
  }

  lemma PutAt<A>(t: Tree<A>, p: Path)
    ensures Put(t, p, At(t, p)) == t
    decreases |p|
  {
    if p != [] && t.Node? { PutAt(Child(t, p[0]), p[1..]); }
  }

  lemma PutPut<A>(t: Tree<A>, p: Path, u: Tree<A>, v: Tree<A>)
    ensures Put(Put(t, p, u), p, v) == Put(t, p, v)
    decreases |p|
  {
    if p != [] && t.Node? { PutPut(Child(t, p[0]), p[1..], u, v); }
  }

  lemma AtNodeReaches<A>(t: Tree<A>, p: Path)
    requires At(t, p).Node?
    ensures Reaches(t, p)
    decreases |p|
  {
    if p != [] { AtNodeReaches(Child(t, p[0]), p[1..]); }
  }

  lemma AtOfLeaf<A>(p: Path)
    ensures At<A>(Leaf, p) == Leaf
  {
  }

  lemma AtAppend<A>(t: Tree<A>, p: Path, q: Path)
    ensures At(t, p + q) == At(At(t, p), q)
    decreases |p|
  {
    if p == [] {
      assert p + q == q;
    } else {
      assert (p + q)[0] == p[0] && (p + q)[1..] == p[1..] + q;
      if t.Node? {
        AtAppend(Child(t, p[0]), p[1..], q);
      } else {
        AtOfLeaf<A>(q);
      }
    }
  }

  lemma ReachesAppend<A>(t: Tree<A>, p: Path, q: Path)
    requires Reaches(t, p)
    ensures Reaches(t, p + q) <==> Reaches(At(t, p), q)
    decreases |p|
  {
    if p == [] {
      assert p + q == q;
    } else {
      assert (p + q)[0] == p[0] && (p + q)[1..] == p[1..] + q;
      ReachesAppend(Child(t, p[0]), p[1..], q);
    }
  }

  lemma PutAppend<A>(t: Tree<A>, p: Path, q: Path, u: Tree<A>)
    requires Reaches(t, p)
    ensures Put(t, p + q, u) == Put(t, p, Put(At(t, p), q, u))
    decreases |p|
  {
    if p == [] {
      assert p + q == q;
    } else {
      assert (p + q)[0] == p[0] && (p + q)[1..] == p[1..] + q;
      PutAppend(Child(t, p[0]), p[1..], q, u);
    }
  }

  /** A node strictly inside a path keeps its identity when the subtree below is replaced. */
  lemma PutKeepsRoot<A>(t: Tree<A>, p: Path, u: Tree<A>)
    requires p != [] && t.Node?
    ensures Put(t, p, u).Node? && Put(t, p, u).id == t.id
    ensures Put(t, p, u).key == t.key && Put(t, p, u).info == t.info
  {
  }

  lemma IdsAt<A>(t: Tree<A>, p: Path)
    ensures Ids(At(t, p)) <= Ids(t)
    ensures At(t, p).Node? ==> At(t, p).id in Ids(t)
    decreases |p|
  {
    if p != [] && t.Node? { IdsAt(Child(t, p[0]), p[1..]); }
  }

  lemma DistinctAt<A>(t: Tree<A>, p: Path)
    requires Distinct(t)
    ensures Distinct(At(t, p))
    decreases |p|
  {
    if p != [] && t.Node? { DistinctAt(Child(t, p[0]), p[1..]); }
  }

  lemma CountAt<A>(t: Tree<A>, p: Path)
    requires p != [] && t.Node?
    ensures Count(At(t, p)) < Count(t)
    decreases |p|
  {
    if p[1..] != [] && Child(t, p[0]).Node? { CountAt(Child(t, p[0]), p[1..]); }
  }

  /** Ids of a replaced tree: those of the rest of the tree plus those of the new subtree. */
  lemma IdsPut<A>(t: Tree<A>, p: Path, u: Tree<A>)
    requires Reaches(t, p)
    ensures Distinct(t) ==> Ids(Put(t, p, u)) == (Ids(t) - Ids(At(t, p))) + Ids(u)
    decreases |p|
  {
    if p != [] && Distinct(t) {
      var c := Child(t, p[0]);
      IdsPut(c, p[1..], u);
      IdsAt(c, p[1..]);
      if p[0] == L { } else { }
    }
  }

  /** Replacing a subtree by a tree with the same ids, kept disjoint from the rest, stays distinct. */
  lemma DistinctPut<A>(t: Tree<A>, p: Path, u: Tree<A>)
    requires Reaches(t, p) && Distinct(t) && Distinct(u)
    requires Ids(u) == Ids(At(t, p))
    ensures Distinct(Put(t, p, u))
    ensures Ids(Put(t, p, u)) == Ids(t)
    decreases |p|
  {
    if p != [] {
      var c := Child(t, p[0]);
      DistinctPut(c, p[1..], u);
      IdsAt(c, p[1..]);
    }
  }

  lemma ElemsPut<A>(t: Tree<A>, p: Path, u: Tree<A>)
    requires Reaches(t, p) && Elems(u) == Elems(At(t, p))
    ensures Elems(Put(t, p, u)) == Elems(t)
    decreases |p|
  {
    if p != [] { ElemsPut(Child(t, p[0]), p[1..], u); }
  }

  lemma CountPut<A>(t: Tree<A>, p: Path, u: Tree<A>)
    requires Reaches(t, p) && Count(u) == Count(At(t, p))
    ensures Count(Put(t, p, u)) == Count(t)
    decreases |p|
  {
    if p != [] { CountPut(Child(t, p[0]), p[1..], u); }
  }

  lemma CountElems<A>(t: Tree<A>)
    ensures Count(t) == |Elems(t)|
  {
  }

  lemma RotLElems<A>(t: Tree<A>)
    requires t.Node? && t.right.Node?
    ensures Elems(RotL(t)) == Elems(t)
    ensures Count(RotL(t)) == Count(t)
  {
    var y := t.right;
    var x' := Node(t.id, t.key, t.info, t.left, y.left);
    assert RotL(t) == Node(y.id, y.key, y.info, x', y.right);
    assert Count(x') == Count(t.left) + 1 + Count(y.left);
    calc {
      Elems(RotL(t));
      (Elems(t.left) + [(t.id, t.key)] + Elems(y.left)) + [(y.id, y.key)] + Elems(y.right);
      Elems(t.left) + [(t.id, t.key)] + (Elems(y.left) + [(y.id, y.key)] + Elems(y.right));
      Elems(t);
    }
  }

  lemma RotLIds<A>(t: Tree<A>)
    requires t.Node? && t.right.Node?
    ensures Ids(RotL(t)) == Ids(t)
    ensures Distinct(t) ==> Distinct(RotL(t))
  {
    var y := t.right;
    var x' := Node(t.id, t.key, t.info, t.left, y.left);
    assert RotL(t) == Node(y.id, y.key, y.info, x', y.right);
    assert Ids(x') == Ids(t.left) + {t.id} + Ids(y.left);
    assert Ids(y) == Ids(y.left) + {y.id} + Ids(y.right);
    if Distinct(t) {
      assert Distinct(y);
      assert Distinct(x');
      assert y.id !in Ids(x');
      assert Ids(x') !! Ids(y.right);
    }
  }

  lemma RotRElems<A>(t: Tree<A>)
    requires t.Node? && t.left.Node?
    ensures Elems(RotR(t)) == Elems(t)
    ensures Count(RotR(t)) == Count(t)
  {
    var y := t.left;
    var x' := Node(t.id, t.key, t.info, y.right, t.right);
    assert RotR(t) == Node(y.id, y.key, y.info, y.left, x');
    assert Count(x') == Count(y.right) + 1 + Count(t.right);
    calc {
      Elems(RotR(t));
      Elems(y.left) + [(y.id, y.key)] + (Elems(y.right) + [(t.id, t.key)] + Elems(t.right));
      (Elems(y.left) + [(y.id, y.key)] + Elems(y.right)) + [(t.id, t.key)] + Elems(t.right);
      Elems(t);
    }
  }

  lemma RotRIds<A>(t: Tree<A>)
    requires t.Node? && t.left.Node?
    ensures Ids(RotR(t)) == Ids(t)
    ensures Distinct(t) ==> Distinct(RotR(t))
  {
    var y := t.left;
    var x' := Node(t.id, t.key, t.info, y.right, t.right);
    assert RotR(t) == Node(y.id, y.key, y.info, y.left, x');
    assert Ids(x') == Ids(y.right) + {t.id} + Ids(t.right);
    assert Ids(y) == Ids(y.left) + {y.id} + Ids(y.right);
    if Distinct(t) {
      assert Distinct(y);
      assert Distinct(x');
      assert y.id !in Ids(x');
      assert Ids(x') !! Ids(y.left);
    }
  }

  lemma RotElems<A>(t: Tree<A>, d: Dir)
    requires t.Node? && Child(t, Other(d)).Node?
    ensures Elems(Rot(t, d)) == Elems(t) && Ids(Rot(t, d)) == Ids(t) && Count(Rot(t, d)) == Count(t)
    ensures Distinct(t) ==> Distinct(Rot(t, d))
  {
    if d == L { RotLElems(t); RotLIds(t); } else { RotRElems(t); RotRIds(t); }
  }

  /** Rotating the subtree at `p` keeps the in-order keys, the ids and distinctness. */
  lemma RotAtElems<A>(t: Tree<A>, p: Path, d: Dir)
    requires Reaches(t, p) && At(t, p).Node? && Child(At(t, p), Other(d)).Node?
    ensures Elems(Put(t, p, Rot(At(t, p), d))) == Elems(t)
    ensures Ids(Put(t, p, Rot(At(t, p), d))) == Ids(t)
    ensures Count(Put(t, p, Rot(At(t, p), d))) == Count(t)
    ensures Distinct(t) ==> Distinct(Put(t, p, Rot(At(t, p), d)))
  {
    var u := At(t, p);
    RotElems(u, d);
    ElemsPut(t, p, Rot(u, d));
    CountPut(t, p, Rot(u, d));
    IdsPut(t, p, Rot(u, d));
    if Distinct(t) {
      DistinctAt(t, p);
      DistinctPut(t, p, Rot(u, d));
    }
  }

  /** Rotate the subtree at `p` toward `d` (`L`: its right child rises). */
  function RotAt<A>(t: Tree<A>, p: Path, d: Dir): Tree<A>
    requires At(t, p).Node? && Child(At(t, p), Other(d)).Node?
  {
    Put(t, p, Rot(At(t, p), d))
  }

  lemma RotAtElemsOf<A>(t: Tree<A>, p: Path, d: Dir)
    requires Reaches(t, p) && At(t, p).Node? && Child(At(t, p), Other(d)).Node?
    ensures Elems(RotAt(t, p, d)) == Elems(t) && Count(RotAt(t, p, d)) == Count(t)
    ensures Ids(RotAt(t, p, d)) == Ids(t) && (Distinct(t) ==> Distinct(RotAt(t, p, d)))
    ensures Reaches(RotAt(t, p, d), p) && At(RotAt(t, p, d), p) == Rot(At(t, p), d)
  {
    RotAtElems(t, p, d);
    AtPut(t, p, Rot(At(t, p), d));
  }

  // ---------------------------------------------------------------------
  // Facts about the arena

  /** The arena cell of a node reached by a path. */
  lemma LinkedAt<A>(t: Tree<A>, parent: int, s: seq<Slot<A>>, p: Path)
    requires Linked(t, parent, s) && Reaches(t, p)
    ensures Linked(At(t, p), if p == [] then parent else Id(At(t, p[..|p| - 1])), s)
    ensures p != [] ==> At(t, p[..|p| - 1]).Node?
    decreases |p|
  {
    if p != [] {
      var c := Child(t, p[0]);
      LinkedAt(c, t.id, s, p[1..]);
      if |p| > 1 {
        assert p[1..][..|p[1..]| - 1] == p[..|p| - 1][1..];
      }
    }
  }

  /** Everything about the node at `p` that the arena holds. */
  lemma LinkedNode<A>(t: Tree<A>, s: seq<Slot<A>>, p: Path)
    requires Linked(t, NIL, s) && Reaches(t, p) && At(t, p).Node?
    ensures At(t, p).id < |s|
    ensures s[At(t, p).id].key == At(t, p).key && s[At(t, p).id].info == At(t, p).info
    ensures s[At(t, p).id].left == Id(At(t, p).left) && s[At(t, p).id].right == Id(At(t, p).right)
    ensures s[At(t, p).id].parent == if p == [] then NIL else Id(At(t, p[..|p| - 1]))
    ensures p != [] ==> At(t, p[..|p| - 1]).Node?
  {
    LinkedAt(t, NIL, s, p);
  }

  /** A child of the node at `p` in direction `d`. */
  lemma AtChild<A>(t: Tree<A>, p: Path, d: Dir)
    requires Reaches(t, p) && At(t, p).Node?
    ensures At(t, p + [d]) == Child(At(t, p), d)
    ensures Reaches(t, p + [d])
    ensures (p + [d])[..|p + [d]| - 1] == p
  {
    AtAppend(t, p, [d]);
    ReachesAppend(t, p, [d]);
    assert (p + [d])[..|p|] == p;
  }

  /** One step of a walk down the left spine: `whole` is the subtree at `q`
      in key order followed by `rest`. */
  lemma LeftStep<A>(t: Tree<A>, q: Path, whole: seq<(nat, int)>, rest: seq<(nat, int)>)
    requires Reaches(t, q) && At(t, q).Node? && whole == Elems(At(t, q)) + rest
    ensures Reaches(t, q + [L]) && At(t, q + [L]) == At(t, q).left
    ensures whole == Elems(At(t, q + [L])) + ([(At(t, q).id, At(t, q).key)] + Elems(At(t, q).right) + rest)
  {
    AtChild(t, q, L);
  }

  /** The same down the right spine: `rest` comes before the subtree at `q`. */
  lemma RightStep<A>(t: Tree<A>, q: Path, whole: seq<(nat, int)>, rest: seq<(nat, int)>)
    requires Reaches(t, q) && At(t, q).Node? && whole == rest + Elems(At(t, q))
    ensures Reaches(t, q + [R]) && At(t, q + [R]) == At(t, q).right
    ensures whole == (rest + Elems(At(t, q).left) + [(At(t, q).id, At(t, q).key)]) + Elems(At(t, q + [R]))
  {
    AtChild(t, q, R);
  }

  /** Extending a path keeps its prefixes. */
  lemma PrefixAppend(q: Path, d: Dir, n: nat)
    requires n <= |q|
    ensures (q + [d])[..n] == q[..n]
  {
  }

  lemma ReachesPrefix<A>(t: Tree<A>, p: Path, k: nat)
    requires Reaches(t, p) && k <= |p|
    ensures Reaches(t, p[..k])
    ensures k < |p| ==> At(t, p[..k]).Node?
    ensures k < |p| ==> At(t, p[..k + 1]) == Child(At(t, p[..k]), p[k])
    decreases k
  {
    if k > 0 {
      ReachesPrefix(Child(t, p[0]), p[1..], k - 1);
      assert p[1..][..k - 1] == p[..k][1..];
      if k < |p| { assert p[1..][..k] == p[..k + 1][1..]; }
    } else if k < |p| {
      assert p[..1] == [p[0]];
    }
  }

  lemma LinkedIds<A>(t: Tree<A>, parent: int, s: seq<Slot<A>>)
    requires Linked(t, parent, s)
    ensures forall i :: i in Ids(t) ==> i < |s|
  {
  }

  /** Arena cells that the tree does not use can change freely. */
  lemma LinkedFrame<A>(t: Tree<A>, parent: int, s: seq<Slot<A>>, s': seq<Slot<A>>)
    requires Linked(t, parent, s)
    requires forall i :: i in Ids(t) ==> i < |s| && i < |s'| && s'[i] == s[i]
    ensures Linked(t, parent, s')
  {
  }

  /** Linking a subtree at `p`: the enclosing nodes keep their cells except the
      parent `g` of the position, whose child link toward `p` now names the new
      subtree's root. */
  lemma LinkedPut<A>(t: Tree<A>, parent: int, s: seq<Slot<A>>, p: Path, u: Tree<A>, s': seq<Slot<A>>)
    requires Linked(t, parent, s) && Distinct(t) && Reaches(t, p) && p != []
    requires var g := At(t, p[..|p| - 1]);
      g.Node? &&
      g.id < |s| && g.id < |s'| &&
      s'[g.id] == (if p[|p| - 1] == L then s[g.id].(left := Id(u)) else s[g.id].(right := Id(u))) &&
      (forall i :: i in Ids(t) - Ids(At(t, p)) - {g.id} ==> i < |s| && i < |s'| && s'[i] == s[i]) &&
      Linked(u, g.id, s')
    ensures Linked(Put(t, p, u), parent, s')
    decreases |p|
  {
    var d := p[0];
    var c := Child(t, d);
    var o := Child(t, Other(d));
    IdsAt(c, p[1..]);
    LinkedIds(t, parent, s);
    assert Linked(c, t.id, s) && Linked(o, t.id, s) by { if d == L { } else { } }
    assert Distinct(c) by { if d == L { } else { } }
    assert Ids(t) == Ids(c) + {t.id} + Ids(o) by { if d == L { } else { } }
    assert Ids(c) !! Ids(o) && t.id !in Ids(c) && t.id !in Ids(o) by { if d == L { } else { } }
    if |p| == 1 {
      assert p[..|p| - 1] == [];
      assert At(t, p) == c;
      assert At(t, p[..|p| - 1]) == t;
      forall i | i in Ids(o)
        ensures i < |s| && i < |s'| && s'[i] == s[i]
      {
        assert i in Ids(t) - Ids(At(t, p)) - {t.id};
      }
      LinkedFrame(o, t.id, s, s');
      if d == L { } else { }
    } else {
      var q := p[1..];
      assert q[..|q| - 1] == p[..|p| - 1][1..];
      assert At(t, p[..|p| - 1]) == At(c, q[..|q| - 1]);
      assert At(t, p) == At(c, q);
      IdsAt(c, q[..|q| - 1]);
      assert q[|q| - 1] == p[|p| - 1];
      var g := At(t, p[..|p| - 1]);
      assert g.id in Ids(c);
      forall i | i in Ids(c) - Ids(At(c, q)) - {g.id}
        ensures i < |s| && i < |s'| && s'[i] == s[i]
      {
        assert i in Ids(t) - Ids(At(t, p)) - {g.id};
      }
      LinkedPut(c, t.id, s, q, u, s');
      forall i | i in Ids(o)
        ensures i < |s| && i < |s'| && s'[i] == s[i]
      {
        assert i in Ids(t) - Ids(At(t, p)) - {g.id};
      }
      LinkedFrame(o, t.id, s, s');
      PutKeepsRoot(c, q, u);
      assert s'[t.id] == s[t.id];
      if d == L { } else { }
    }
  }

  // ---------------------------------------------------------------------
  // Distinct ids after a replacement with fresh or fewer ids

  /** Replacing a subtree by a distinct tree whose ids are not used by the rest stays distinct. */
  lemma DistinctPutFresh<A>(t: Tree<A>, p: Path, u: Tree<A>)
    requires Reaches(t, p) && Distinct(t) && Distinct(u)
    requires Ids(u) !! (Ids(t) - Ids(At(t, p)))
    ensures Distinct(Put(t, p, u))
    ensures Ids(Put(t, p, u)) == (Ids(t) - Ids(At(t, p))) + Ids(u)
    decreases |p|
  {
    if p != [] {
      var c := Child(t, p[0]);
      IdsAt(c, p[1..]);
      assert Ids(t) == Ids(t.left) + {t.id} + Ids(t.right);
      if p[0] == L {
        assert Ids(u) !! (Ids(c) - Ids(At(c, p[1..])));
        DistinctPutFresh(c, p[1..], u);
      } else {
        assert Ids(u) !! (Ids(c) - Ids(At(c, p[1..])));
        DistinctPutFresh(c, p[1..], u);
      }
    }
  }

  // ---------------------------------------------------------------------
  // In-order position of a path

  /** The in-order elements that come before / after the position `p`. */
  function Before<A>(t: Tree<A>, p: Path): seq<(nat, int)>
    decreases |p|
  {
    if p == [] || t.Leaf? then []
    else if p[0] == L then Before(t.left, p[1..])
    else Elems(t.left) + [(t.id, t.key)] + Before(t.right, p[1..])
  }

  function After<A>(t: Tree<A>, p: Path): seq<(nat, int)>
    decreases |p|
  {
    if p == [] || t.Leaf? then []
    else if p[0] == L then After(t.left, p[1..]) + [(t.id, t.key)] + Elems(t.right)
    else After(t.right, p[1..])
  }

  lemma ElemsSplit<A>(t: Tree<A>, p: Path)
    requires Reaches(t, p)
    ensures Elems(t) == Before(t, p) + Elems(At(t, p)) + After(t, p)
    decreases |p|
  {
    if p != [] {
      ElemsSplit(Child(t, p[0]), p[1..]);
    }
  }

  /** The context of a position does not depend on what sits there. */
  lemma BeforePut<A>(t: Tree<A>, p: Path, u: Tree<A>)
    requires Reaches(t, p)
    ensures Reaches(Put(t, p, u), p)
    ensures Before(Put(t, p, u), p) == Before(t, p) && After(Put(t, p, u), p) == After(t, p)
    ensures Elems(Put(t, p, u)) == Before(t, p) + Elems(u) + After(t, p)
    decreases |p|
  {
    if p != [] {
      BeforePut(Child(t, p[0]), p[1..], u);
    }
    AtPut(t, p, u);
    ElemsSplit(Put(t, p, u), p);
  }

  /** One step down from a node. */
  lemma BeforeChild<A>(t: Tree<A>, p: Path, d: Dir)
    requires Reaches(t, p) && At(t, p).Node?
    ensures Before(t, p + [d]) ==
            Before(t, p) + (if d == L then [] else Elems(At(t, p).left) + [(At(t, p).id, At(t, p).key)])
    ensures After(t, p + [d]) ==
            (if d == L then [(At(t, p).id, At(t, p).key)] + Elems(At(t, p).right) else []) + After(t, p)
  {
    if d == L {
      BeforeLeft(t, p);
    } else {
      BeforeRight(t, p);
    }
  }

  lemma BeforeLeft<A>(t: Tree<A>, p: Path)
    requires Reaches(t, p) && At(t, p).Node?
    ensures Before(t, p + [L]) == Before(t, p)
    ensures After(t, p + [L]) == [(At(t, p).id, At(t, p).key)] + Elems(At(t, p).right) + After(t, p)
    decreases |p|
  {
    if p == [] {
      assert [L][0] == L && [L][1..] == [];
    } else {
      assert (p + [L])[0] == p[0] && (p + [L])[1..] == p[1..] + [L];
      BeforeLeft(Child(t, p[0]), p[1..]);
    }
  }

  lemma BeforeRight<A>(t: Tree<A>, p: Path)
    requires Reaches(t, p) && At(t, p).Node?
    ensures Before(t, p + [R]) == Before(t, p) + Elems(At(t, p).left) + [(At(t, p).id, At(t, p).key)]
    ensures After(t, p + [R]) == After(t, p)
    decreases |p|
  {
    if p == [] {
      assert [R][0] == R && [R][1..] == [];
    } else {
      assert (p + [R])[0] == p[0] && (p + [R])[1..] == p[1..] + [R];
      BeforeRight(Child(t, p[0]), p[1..]);
    }
  }

  // ---------------------------------------------------------------------
  // Keys and order

  lemma KeysOfAppend(a: seq<(nat, int)>, b: seq<(nat, int)>)
    ensures KeysOf(a + b) == KeysOf(a) + KeysOf(b)
    decreases |a|
  {
    if a != [] {
      assert (a + b)[0] == a[0] && (a + b)[1..] == a[1..] + b;
      KeysOfAppend(a[1..], b);
    } else {
      assert a + b == b;
    }
  }

  lemma KeysOfIndex(e: seq<(nat, int)>, i: nat)
    requires i < |e|
    ensures KeysOf(e)[i] == e[i].1
    decreases i
  {
    if i > 0 { KeysOfIndex(e[1..], i - 1); }
  }

  lemma KeysNode<A>(t: Tree<A>)
    requires t.Node?
    ensures Keys(t) == Keys(t.left) + [t.key] + Keys(t.right)
  {
    KeysOfAppend(Elems(t.left) + [(t.id, t.key)], Elems(t.right));
    KeysOfAppend(Elems(t.left), [(t.id, t.key)]);
  }

  ghost predicate AllLe(s: seq<int>, k: int) { forall i :: 0 <= i < |s| ==> s[i] <= k }
  ghost predicate AllGe(s: seq<int>, k: int) { forall i :: 0 <= i < |s| ==> k <= s[i] }

  /** In a sorted sequence everything left of an element is at most it, everything right at least. */
  lemma SortedAround(a: seq<int>, m: int, b: seq<int>)
    requires Sorted(a + [m] + b)
    ensures AllLe(a, m) && AllGe(b, m) && Sorted(a) && Sorted(b)
  {
    var s := a + [m] + b;
    forall i | 0 <= i < |a| ensures a[i] <= m { assert s[i] == a[i] && s[|a|] == m; }
    forall i | 0 <= i < |b| ensures m <= b[i] { assert s[|a| + 1 + i] == b[i] && s[|a|] == m; }
    forall i, j | 0 <= i < j < |a| ensures a[i] <= a[j] { assert s[i] == a[i] && s[j] == a[j]; }
    forall i, j | 0 <= i < j < |b| ensures b[i] <= b[j] { assert s[|a| + 1 + i] == b[i] && s[|a| + 1 + j] == b[j]; }
  }

  lemma SortedJoin(a: seq<int>, m: int, b: seq<int>)
    requires Sorted(a) && Sorted(b) && AllLe(a, m) && AllGe(b, m)
    ensures Sorted(a + [m] + b)
  {
    var s := a + [m] + b;
    forall i, j | 0 <= i < j < |s| ensures s[i] <= s[j] {
      if j < |a| { } else if j == |a| { } else if i < |a| {
        assert s[i] == a[i] && s[j] == b[j - |a| - 1];
      } else if i == |a| { } else {
        assert s[i] == b[i - |a| - 1] && s[j] == b[j - |a| - 1];
      }
    }
  }

  /** Indexing a sequence with the element at `i` skipped. */
  lemma SkipIndex<X>(s: seq<X>, i: nat, k: nat)
    requires i < |s| && k + 1 < |s|
    ensures |s[..i] + s[i + 1..]| + 1 == |s|
    ensures (s[..i] + s[i + 1..])[k] == s[if k < i then k else k + 1]
  {
    if k < i { assert (s[..i] + s[i + 1..])[k] == s[..i][k]; }
    else { assert (s[..i] + s[i + 1..])[k] == s[i + 1..][k - i]; }
  }

  /** A sorted sequence with the element at `i` skipped is sorted. */
  lemma SortedSkip(s: seq<int>, r: seq<int>, i: nat)
    requires Sorted(s) && i < |s| && |r| + 1 == |s|
    requires forall k :: 0 <= k < |r| ==> r[k] == s[if k < i then k else k + 1]
    ensures Sorted(r)
  {
    forall a, b | 0 <= a < b < |r| ensures r[a] <= r[b] {
      assert r[a] == s[if a < i then a else a + 1];
      assert r[b] == s[if b < i then b else b + 1];
    }
  }

  /** Cutting out pair `i` leaves the keys with the one at `i` skipped. */
  lemma KeysCut(e: seq<(nat, int)>, i: nat, r: seq<(nat, int)>)
    requires i < |e| && r == e[..i] + e[i + 1..]
    ensures |KeysOf(r)| + 1 == |KeysOf(e)|
    ensures forall k :: 0 <= k < |KeysOf(r)| ==> KeysOf(r)[k] == KeysOf(e)[if k < i then k else k + 1]
  {
    forall k | 0 <= k < |KeysOf(r)| ensures KeysOf(r)[k] == KeysOf(e)[if k < i then k else k + 1] {
      SkipIndex(e, i, k);
      KeysOfIndex(r, k);
      KeysOfIndex(e, if k < i then k else k + 1);
    }
  }

  /** Pair `i` taking the key of its neighbour `j`, and pair `j` then cut
      out, leaves the keys with the one at `i` skipped, too. */
  lemma KeysMove(e: seq<(nat, int)>, i: nat, j: nat, r: seq<(nat, int)>)
    requires i < |e| && j < |e| && (j == i + 1 || j + 1 == i)
    requires var e1 := e[i := (e[i].0, e[j].1)]; r == e1[..j] + e1[j + 1..]
    ensures |KeysOf(r)| + 1 == |KeysOf(e)|
    ensures forall k :: 0 <= k < |KeysOf(r)| ==> KeysOf(r)[k] == KeysOf(e)[if k < i then k else k + 1]
  {
    var e1 := e[i := (e[i].0, e[j].1)];
    forall k | 0 <= k < |KeysOf(r)| ensures KeysOf(r)[k] == KeysOf(e)[if k < i then k else k + 1] {
      SkipIndex(e1, j, k);
      KeysOfIndex(r, k);
      KeysOfIndex(e, if k < i then k else k + 1);
    }
  }

  lemma SortedSlice(a: seq<int>, b: seq<int>, c: seq<int>)
    requires Sorted(a + b + c)
    ensures Sorted(b)
  {
    var s := a + b + c;
    forall i, j | 0 <= i < j < |b| ensures b[i] <= b[j] { assert s[|a| + i] == b[i] && s[|a| + j] == b[j]; }
  }

  lemma SortedRemove(s: seq<int>, i: nat)
    requires Sorted(s) && i < |s|
    ensures Sorted(s[..i] + s[i + 1..])
  {
    var r := s[..i] + s[i + 1..];
    forall a, b | 0 <= a < b < |r| ensures r[a] <= r[b] {
      var a' := if a < i then a else a + 1;
      var b' := if b < i then b else b + 1;
      assert r[a] == s[a'] && r[b] == s[b'];
    }
  }

  /** An ordered tree has ordered subtrees, and the subtree at `p` sits between its context. */
  lemma OrderedAt<A>(t: Tree<A>, p: Path)
    requires Ordered(t) && Reaches(t, p)
    ensures Ordered(At(t, p))
    ensures Keys(t) == KeysOf(Before(t, p)) + Keys(At(t, p)) + KeysOf(After(t, p))
  {
    ElemsSplit(t, p);
    KeysOfAppend(Before(t, p) + Elems(At(t, p)), After(t, p));
    KeysOfAppend(Before(t, p), Elems(At(t, p)));
    SortedSlice(KeysOf(Before(t, p)), Keys(At(t, p)), KeysOf(After(t, p)));
  }

  /** The keys of an ordered node: the left ones are at most its key, the right ones at least. */
  lemma OrderedNode<A>(t: Tree<A>)
    requires Ordered(t) && t.Node?
    ensures AllLe(Keys(t.left), t.key) && AllGe(Keys(t.right), t.key)
    ensures Ordered(t.left) && Ordered(t.right)
  {
    KeysNode(t);
    SortedAround(Keys(t.left), t.key, Keys(t.right));
  }

  // ---------------------------------------------------------------------
  // Ancestors of a position

  /** Ids of the nodes strictly above the position `p`. */
  ghost function Anc<A>(t: Tree<A>, p: Path): set<nat>
    decreases |p|
  {
    if p == [] || t.Leaf? then {} else {t.id} + Anc(Child(t, p[0]), p[1..])
  }

  lemma AncIds<A>(t: Tree<A>, p: Path)
    requires Reaches(t, p) && Distinct(t)
    ensures Anc(t, p) <= Ids(t) && Anc(t, p) !! Ids(At(t, p))
    decreases |p|
  {
    if p != [] {
      var c := Child(t, p[0]);
      AncIds(c, p[1..]);
      IdsAt(c, p[1..]);
      if p[0] == L { } else { }
    }
  }

  /** Each step down adds the node it leaves to the ancestors. */
  lemma AncChild<A>(t: Tree<A>, p: Path, d: Dir)
    requires Reaches(t, p) && At(t, p).Node?
    ensures Anc(t, p + [d]) == Anc(t, p) + {At(t, p).id}
    decreases |p|
  {
    if p == [] {
      assert [d][0] == d && [d][1..] == [];
    } else {
      assert (p + [d])[0] == p[0] && (p + [d])[1..] == p[1..] + [d];
      AncChild(Child(t, p[0]), p[1..], d);
    }
  }

  /** Replacing the subtree at `p` keeps the ancestors of `p`. */
  lemma AncPut<A>(t: Tree<A>, p: Path, u: Tree<A>)
    requires Reaches(t, p)
    ensures Anc(Put(t, p, u), p) == Anc(t, p)
    decreases |p|
  {
    if p != [] { AncPut(Child(t, p[0]), p[1..], u); }
  }

  // ---------------------------------------------------------------------
  // Trees that differ only in the per-node information

  ghost predicate SameShape<A>(t: Tree<A>, u: Tree<A>)
  {
    (t.Leaf? && u.Leaf?) ||
    (t.Node? && u.Node? && t.id == u.id && t.key == u.key &&
     SameShape(t.left, u.left) && SameShape(t.right, u.right))
  }

  lemma ShapeAt<A>(t: Tree<A>, u: Tree<A>, q: Path)
    requires SameShape(t, u)
    ensures SameShape(At(t, q), At(u, q))
    ensures Reaches(t, q) == Reaches(u, q)
    decreases |q|
  {
    if q != [] && t.Node? {
      if q[0] == L { ShapeAt(t.left, u.left, q[1..]); } else { ShapeAt(t.right, u.right, q[1..]); }
    }
  }

  lemma ShapeElems<A>(t: Tree<A>, u: Tree<A>)
    requires SameShape(t, u)
    ensures Elems(t) == Elems(u) && Ids(t) == Ids(u) && Count(t) == Count(u)
    ensures Distinct(t) == Distinct(u)
  {
    if t.Node? {
      ShapeElems(t.left, u.left);
      ShapeElems(t.right, u.right);
    }
  }

  lemma ShapeRefl<A>(t: Tree<A>)
    ensures SameShape(t, t)
  {
    if t.Node? { ShapeRefl(t.left); ShapeRefl(t.right); }
  }

  lemma ShapeSym<A>(t: Tree<A>, u: Tree<A>)
    requires SameShape(t, u)
    ensures SameShape(u, t)
  {
    if t.Node? { ShapeSym(t.left, u.left); ShapeSym(t.right, u.right); }
  }

  /** Trees of the same shape have the same ancestors at every position. */
  lemma AncShape<A>(t: Tree<A>, u: Tree<A>, p: Path)
    requires SameShape(t, u)
    ensures Anc(t, p) == Anc(u, p)
    decreases |p|
  {
    if p != [] && t.Node? { AncShape(Child(t, p[0]), Child(u, p[0]), p[1..]); }
  }

  /** Changing the information of one node keeps the shape. */
  lemma ShapeRelabel<A>(t: Tree<A>, p: Path, a: A)
    requires At(t, p).Node?
    ensures SameShape(Put(t, p, At(t, p).(info := a)), t)
    decreases |p|
  {
    if p == [] {
      ShapeRefl(t.left);
      ShapeRefl(t.right);
    } else {
      if p[0] == L {
        ShapeRelabel(t.left, p[1..], a);
        ShapeRefl(t.right);
      } else {
        ShapeRelabel(t.right, p[1..], a);
        ShapeRefl(t.left);
      }
    }
  }

  /** Replacing the subtree at `p` changes the node count by the difference. */
  lemma CountPutDelta<A>(t: Tree<A>, p: Path, u: Tree<A>)
    requires Reaches(t, p)
    ensures Count(Put(t, p, u)) == Count(t) - Count(At(t, p)) + Count(u)
    decreases |p|
  {
    if p != [] { CountPutDelta(Child(t, p[0]), p[1..], u); }
  }

  // ---------------------------------------------------------------------
  // Subtrees anywhere below a node

  /** `x` occurs as a subtree of `t`. */
  ghost predicate Contains<A>(t: Tree<A>, x: Tree<A>)
  {
    t == x || (t.Node? && (Contains(t.left, x) || Contains(t.right, x)))
  }

  /** What sits below a position sits below the root. */
  lemma ContainsAt<A>(t: Tree<A>, q: Path, x: Tree<A>)
    requires Contains(At(t, q), x)
    ensures Contains(t, x)
    decreases |q|
  {
    if q != [] {
      if t.Node? { ContainsAt(Child(t, q[0]), q[1..], x); } else { AtOfLeaf<A>(q); }
    }
  }

  /** What sits below the position `p + q` sits below `p`. */
  lemma ContainsUp<A>(t: Tree<A>, p: Path, q: Path, x: Tree<A>)
    requires Contains(At(t, p + q), x)
    ensures Contains(At(t, p), x)
  {
    AtAppend(t, p, q);
    ContainsAt(At(t, p), q, x);
  }

  lemma ContainsIds<A>(t: Tree<A>, x: Tree<A>)
    requires Contains(t, x)
    ensures Ids(x) <= Ids(t)
  {
    if t != x { if Contains(t.left, x) { ContainsIds(t.left, x); } else { ContainsIds(t.right, x); } }
  }

  /** A contained subtree has a path to it. */
  lemma ContainsPath<A>(t: Tree<A>, x: Tree<A>) returns (q: Path)
    requires Contains(t, x)
    ensures Reaches(t, q) && At(t, q) == x
  {
    if t == x {
      q := [];
    } else if Contains(t.left, x) {
      var r := ContainsPath(t.left, x);
      q := [L] + r;
      assert q[0] == L && q[1..] == r;
    } else {
      var r := ContainsPath(t.right, x);
      q := [R] + r;
      assert q[0] == R && q[1..] == r;
    }
  }

  /** Two brothers share no id, and neither holds their parent's. */
  lemma SiblingDisjoint<A>(t: Tree<A>, p: Path)
    requires Distinct(t) && p != [] && Reaches(t, Parent(p)) && At(t, Parent(p)).Node?
    ensures Ids(At(t, p)) !! Ids(At(t, Sibling(p)))
    ensures At(t, Parent(p)).id !in Ids(At(t, p)) && At(t, Parent(p)).id !in Ids(At(t, Sibling(p)))
  {
    var P := Parent(p);
    assert p == P + [Last(p)];
    AtAppend(t, P, [Last(p)]);
    AtAppend(t, P, [Other(Last(p))]);
    assert [Last(p)][0] == Last(p) && [Last(p)][1..] == [];
    assert [Other(Last(p))][0] == Other(Last(p)) && [Other(Last(p))][1..] == [];
    DistinctAt(t, P);
    if Last(p) == L { } else { }
  }

  /** The in-order elements carry the ids of the tree. */
  lemma ElemIds<A>(t: Tree<A>)
    ensures forall i :: 0 <= i < |Elems(t)| ==> Elems(t)[i].0 in Ids(t)
  {
    if t.Node? {
      ElemIds(t.left);
      ElemIds(t.right);
      var e := Elems(t);
      forall i | 0 <= i < |e| ensures e[i].0 in Ids(t) {
        if i < |Elems(t.left)| {
          assert e[i] == Elems(t.left)[i];
        } else if i > |Elems(t.left)| {
          assert e[i] == Elems(t.right)[i - |Elems(t.left)| - 1];
        }
      }
    }
  }

  // ---------------------------------------------------------------------
  // Where InsertNode puts a key

  ghost predicate AllLt(s: seq<int>, k: int) { forall i :: 0 <= i < |s| ==> s[i] < k }

  /** The position `q` lies between the keys below `k` and the keys from `k` on. */
  ghost predicate Between<A>(t: Tree<A>, q: Path, k: int)
  {
    AllLt(KeysOf(Before(t, q)), k) && AllGe(KeysOf(After(t, q)), k)
  }

  lemma BetweenRoot<A>(t: Tree<A>, k: int)
    ensures Between(t, [], k)
  {
  }

  lemma KeysOf3(a: seq<(nat, int)>, b: seq<(nat, int)>, c: seq<(nat, int)>)
    ensures KeysOf(a + b + c) == KeysOf(a) + KeysOf(b) + KeysOf(c)
  {
    KeysOfAppend(a + b, c);
    KeysOfAppend(a, b);
  }

  lemma KeysOfOne(i: nat, k: int)
    ensures KeysOf([(i, k)]) == [k]
  {
    assert [(i, k)][1..] == [];
  }

  lemma AllLt3(a: seq<int>, b: seq<int>, c: seq<int>, k: int)
    requires AllLt(a, k) && AllLt(b, k) && AllLt(c, k)
    ensures AllLt(a + b + c, k)
  {
    var s := a + b + c;
    forall i | 0 <= i < |s| ensures s[i] < k {
      if i < |a| { assert s[i] == a[i]; }
      else if i < |a| + |b| { assert s[i] == b[i - |a|]; }
      else { assert s[i] == c[i - |a| - |b|]; }
    }
  }

  lemma AllGe3(a: seq<int>, b: seq<int>, c: seq<int>, k: int)
    requires AllGe(a, k) && AllGe(b, k) && AllGe(c, k)
    ensures AllGe(a + b + c, k)
  {
    var s := a + b + c;
    forall i | 0 <= i < |s| ensures k <= s[i] {
      if i < |a| { assert s[i] == a[i]; }
      else if i < |a| + |b| { assert s[i] == b[i - |a|]; }
      else { assert s[i] == c[i - |a| - |b|]; }
    }
  }

  lemma AllLeLt(s: seq<int>, m: int, k: int)
    requires AllLe(s, m) && m < k
    ensures AllLt(s, k)
  {
  }

  lemma AllGeGe(s: seq<int>, m: int, k: int)
    requires AllGe(s, m) && k <= m
    ensures AllGe(s, k)
  {
  }

  /** One step of InsertNode's descent: right when `k` is greater than the node's
      key, left otherwise, and the position stays between the same keys. */
  lemma BetweenChild<A>(t: Tree<A>, q: Path, k: int)
    requires Ordered(t) && Reaches(t, q) && At(t, q).Node? && Between(t, q, k)
    ensures Between(t, q + [if k > At(t, q).key then R else L], k)
  {
    var x := At(t, q);
    OrderedAt(t, q);
    OrderedNode(x);
    KeysOfOne(x.id, x.key);
    if k > x.key {
      BetweenRight(t, q, k);
    } else {
      BetweenLeft(t, q, k);
    }
  }

  lemma BetweenRight<A>(t: Tree<A>, q: Path, k: int)
    requires Reaches(t, q) && At(t, q).Node? && Between(t, q, k)
    requires AllLe(Keys(At(t, q).left), At(t, q).key) && At(t, q).key < k
    ensures Between(t, q + [R], k)
  {
    var x := At(t, q);
    var b := Before(t, q);
    BeforeChild(t, q, R);
    assert Before(t, q + [R]) == b + Elems(x.left) + [(x.id, x.key)];
    KeysOf3(b, Elems(x.left), [(x.id, x.key)]);
    KeysOfOne(x.id, x.key);
    AllLeLt(Keys(x.left), x.key, k);
    AllLt3(KeysOf(b), Keys(x.left), [x.key], k);
    assert After(t, q + [R]) == [] + After(t, q) == After(t, q);
  }

  lemma BetweenLeft<A>(t: Tree<A>, q: Path, k: int)
    requires Reaches(t, q) && At(t, q).Node? && Between(t, q, k)
    requires AllGe(Keys(At(t, q).right), At(t, q).key) && k <= At(t, q).key
    ensures Between(t, q + [L], k)
  {
    var x := At(t, q);
    var a := After(t, q);
    BeforeChild(t, q, L);
    assert After(t, q + [L]) == [(x.id, x.key)] + Elems(x.right) + a;
    KeysOf3([(x.id, x.key)], Elems(x.right), a);
    KeysOfOne(x.id, x.key);
    AllGeGe(Keys(x.right), x.key, k);
    AllGe3([x.key], Keys(x.right), KeysOf(a), k);
    assert Before(t, q + [L]) == Before(t, q) + [] == Before(t, q);
  }

  /** A sorted sequence with a key between its two parts: still sorted. */
  lemma SortedInsert(kb: seq<int>, ka: seq<int>, k: int)
    requires Sorted(kb + ka) && AllLt(kb, k) && AllGe(ka, k)
    ensures Sorted(kb + [k] + ka)
  {
    assert [] + kb + ka == kb + ka && kb + ka + [] == kb + ka;
    SortedSlice([], kb, ka);
    SortedSlice(kb, ka, []);
    forall i | 0 <= i < |kb| ensures kb[i] <= k { }
    SortedJoin(kb, k, ka);
  }

  /** Hanging a one-node tree at an empty position between its keys keeps the
      order, and the new element lands just there in the in-order sequence. */
  lemma BetweenInsert<A>(t: Tree<A>, q: Path, u: Tree<A>)
    requires Ordered(t) && Reaches(t, q) && At(t, q).Leaf?
    requires u.Node? && u.left.Leaf? && u.right.Leaf? && Between(t, q, u.key)
    ensures Elems(t) == Before(t, q) + After(t, q)
    ensures Elems(Put(t, q, u)) == Before(t, q) + [(u.id, u.key)] + After(t, q)
    ensures Ordered(Put(t, q, u))
  {
    var b, a := Before(t, q), After(t, q);
    ElemsSplit(t, q);
    assert Elems(t) == b + a by { assert b + [] + a == b + a; }
    BeforePut(t, q, u);
    assert Elems(u) == [(u.id, u.key)];
    KeysOfAppend(b, a);
    KeysOf3(b, [(u.id, u.key)], a);
    KeysOfOne(u.id, u.key);
    SortedInsert(KeysOf(b), KeysOf(a), u.key);
  }

  // ---------------------------------------------------------------------
  // Search

  /** Find's step: a key that is in an ordered tree but not at its root is in
      the right subtree when it exceeds the root's key and in the left one otherwise. */
  lemma FindStep<A>(t: Tree<A>, k: int)
    requires Ordered(t) && t.Node? && t.key != k && k in Keys(t)
    ensures k in Keys(Child(t, if t.key < k then R else L))
    ensures Ordered(Child(t, if t.key < k then R else L))
  {
    KeysNode(t);
    OrderedNode(t);
    if t.key < k {
      forall i | 0 <= i < |Keys(t.left)| ensures Keys(t.left)[i] != k { }
      assert k !in Keys(t.left);
    } else {
      forall i | 0 <= i < |Keys(t.right)| ensures Keys(t.right)[i] != k { }
      assert k !in Keys(t.right);
    }
  }

  /** Distinct ids appear once each in the in-order sequence. */
  lemma ElemsDistinct<A>(t: Tree<A>)
    requires Distinct(t)
    ensures forall i, j :: 0 <= i < |Elems(t)| && 0 <= j < |Elems(t)| && Elems(t)[i].0 == Elems(t)[j].0 ==> i == j
  {
    if t.Node? {
      ElemsDistinct(t.left);
      ElemsDistinct(t.right);
      ElemIds(t.left);
      ElemIds(t.right);
      var e, nl := Elems(t), |Elems(t.left)|;
      forall i, j | 0 <= i < |e| && 0 <= j < |e| && e[i].0 == e[j].0 ensures i == j {
        assert i < nl ==> e[i] == Elems(t.left)[i];
        assert j < nl ==> e[j] == Elems(t.left)[j];
        assert i > nl ==> e[i] == Elems(t.right)[i - nl - 1];
        assert j > nl ==> e[j] == Elems(t.right)[j - nl - 1];
        assert e[nl].0 == t.id;
      }
    }
  }

  /** The element of the node at `p` sits right after its left subtree. */
  /** Two in-order positions holding the same id are the same position. */
  lemma ElemsSameId<A>(t: Tree<A>, a: nat, b: nat)
    requires Distinct(t) && a < |Elems(t)| && b < |Elems(t)| && Elems(t)[a].0 == Elems(t)[b].0
    ensures a == b
  {
    ElemsDistinct(t);
  }

  lemma ElemsIndex<A>(t: Tree<A>, p: Path)
    requires Reaches(t, p) && At(t, p).Node?
    ensures var i := |Before(t, p)| + Count(At(t, p).left);
      i < |Elems(t)| && Elems(t)[i] == (At(t, p).id, At(t, p).key)
  {
    ElemsSplit(t, p);
    CountElems(At(t, p).left);
    var x := At(t, p);
    assert Elems(x)[Count(x.left)] == (x.id, x.key);
  }

  /** The element between `el` and `er`, inside a larger sequence. */
  lemma SeqMid<T>(b: seq<T>, el: seq<T>, m: T, er: seq<T>, a: seq<T>, m': T)
    ensures var s := b + (el + [m] + er) + a; var j := |b| + |el|;
      j < |s| && s[j] == m &&
      s[..j] + s[j + 1..] == b + (el + er) + a &&
      s[j := m'] == b + (el + [m'] + er) + a
  {
    var s := b + (el + [m] + er) + a;
    var j := |b| + |el|;
    assert s == (b + el) + [m] + (er + a);
    assert s[..j] == b + el;
    assert s[j + 1..] == er + a;
  }

  /** Cutting out a node that has at most one child, which takes its place,
      drops exactly that node's element from the in-order sequence. */
  lemma RemoveElems<A>(t: Tree<A>, q: Path, c: Tree<A>)
    requires Reaches(t, q) && At(t, q).Node?
    requires (At(t, q).left.Leaf? && c == At(t, q).right) || (At(t, q).right.Leaf? && c == At(t, q).left)
    ensures var x := At(t, q); var j := |Before(t, q)| + Count(x.left);
      j < |Elems(t)| && Elems(t)[j] == (x.id, x.key) &&
      Elems(Put(t, q, c)) == Elems(t)[..j] + Elems(t)[j + 1..]
  {
    var x := At(t, q);
    ElemsSplit(t, q);
    BeforePut(t, q, c);
    CountElems(x.left);
    var el, er := Elems(x.left), Elems(x.right);
    assert Elems(x) == el + [(x.id, x.key)] + er;
    LoneChildElems(x, c);
    SeqCut(Elems(t), Elems(Put(t, q, c)), Before(t, q), el, (x.id, x.key), er, After(t, q),
           |Before(t, q)| + Count(x.left));
  }

  /** A node's only child lists the node's in-order sequence without the node. */
  lemma LoneChildElems<A>(x: Tree<A>, c: Tree<A>)
    requires x.Node?
    requires (x.left.Leaf? && c == x.right) || (x.right.Leaf? && c == x.left)
    ensures Elems(c) == Elems(x.left) + Elems(x.right)
  {
    if x.left.Leaf? && c == x.right {
      assert Elems(x.left) == [];
    } else {
      assert Elems(x.right) == [];
    }
  }

  /** Dropping the element `j` between `el` and `er`, inside a larger sequence. */
  lemma SeqCut<T>(s: seq<T>, s': seq<T>, b: seq<T>, el: seq<T>, m: T, er: seq<T>, a: seq<T>, j: int)
    requires s == b + (el + [m] + er) + a && s' == b + (el + er) + a && j == |b| + |el|
    ensures 0 <= j < |s| && s[j] == m && s' == s[..j] + s[j + 1..]
  {
    SeqMid(b, el, m, er, a, m);
  }

  /** MoveTo's new key for the node at `p` changes only that node's element. */
  lemma RekeyElems<A>(t: Tree<A>, q: Path, k: int)
    requires Reaches(t, q) && At(t, q).Node?
    ensures var x := At(t, q); var j := |Before(t, q)| + Count(x.left);
      j < |Elems(t)| && Elems(Put(t, q, x.(key := k))) == Elems(t)[j := (x.id, k)]
  {
    var x := At(t, q);
    ElemsSplit(t, q);
    BeforePut(t, q, x.(key := k));
    CountElems(x.left);
    SeqMid(Before(t, q), Elems(x.left), (x.id, x.key), Elems(x.right), After(t, q), (x.id, k));
  }

  /** The child that takes the place of a node with at most one child. */
  function OnlyChild<A>(x: Tree<A>): (c: Tree<A>)
    requires x.Node?
    ensures (x.left.Leaf? && c == x.right) || (x.left.Node? && c == x.left)
  {
    if x.left.Node? then x.left else x.right
  }

  lemma SeqNext<T>(b: seq<T>, el: seq<T>, m: T, er: seq<T>, a: seq<T>)
    requires |er| > 0
    ensures var s := b + (el + [m] + er) + a;
      |b| + |el| + 1 < |s| && s[|b| + |el| + 1] == er[0] && s[|b| + |el|] == m
  {
    var s := b + (el + [m] + er) + a;
    assert s == (b + el + [m]) + er + a;
  }

  lemma SeqPrev<T>(b: seq<T>, el: seq<T>, m: T, er: seq<T>, a: seq<T>)
    requires |el| > 0
    ensures var s := b + (el + [m] + er) + a;
      1 <= |b| + |el| < |s| && s[|b| + |el| - 1] == el[|el| - 1] && s[|b| + |el|] == m
  {
    var s := b + (el + [m] + er) + a;
    assert s == (b + el) + ([m] + er + a);
  }

  /** In key order, the node at `q` is followed by the first node of its right subtree. */
  lemma ElemsNext<A>(t: Tree<A>, q: Path)
    requires Reaches(t, q) && At(t, q).Node? && |Elems(At(t, q).right)| > 0
    ensures var x := At(t, q); var i := |Before(t, q)| + Count(x.left);
      i + 1 < |Elems(t)| && Elems(t)[i + 1] == Elems(x.right)[0]
  {
    var x := At(t, q);
    ElemsSplit(t, q);
    CountElems(x.left);
    SeqNext(Before(t, q), Elems(x.left), (x.id, x.key), Elems(x.right), After(t, q));
  }

  /** ... and preceded by the last node of its left subtree. */
  lemma ElemsPrev<A>(t: Tree<A>, q: Path)
    requires Reaches(t, q) && At(t, q).Node? && |Elems(At(t, q).left)| > 0
    ensures var x := At(t, q); var i := |Before(t, q)| + Count(x.left);
      1 <= i < |Elems(t)| && Elems(t)[i - 1] == Elems(x.left)[|Elems(x.left)| - 1]
  {
    var x := At(t, q);
    ElemsSplit(t, q);
    CountElems(x.left);
    SeqPrev(Before(t, q), Elems(x.left), (x.id, x.key), Elems(x.right), After(t, q));
  }

  /** Replacing the node at `p` by one with the same children changes nothing below it. */
  lemma AtPutBelow<A>(t: Tree<A>, p: Path, u: Tree<A>, q: Path)
    requires Reaches(t, p) && At(t, p).Node? && u.Node?
    requires u.left == At(t, p).left && u.right == At(t, p).right
    requires |q| > |p| && q[..|p|] == p
    ensures At(Put(t, p, u), q) == At(t, q)
  {
    var r := q[|p|..];
    assert q == p + r;
    AtAppend(t, p, r);
    AtAppend(Put(t, p, u), p, r);
    AtPut(t, p, u);
    assert At(u, r) == At(At(t, p), r) by { if r[0] == L { } else { } }
  }

  /** Replacing the subtree at `q` keeps the node above it and its id. */
  lemma PutAbove<A>(t: Tree<A>, q: Path, u: Tree<A>)
    requires Reaches(t, q) && q != []
    ensures Reaches(t, Parent(q)) && At(t, Parent(q)).Node?
    ensures Reaches(Put(t, q, u), q) && At(Put(t, q, u), Parent(q)).Node?
    ensures At(Put(t, q, u), Parent(q)).id == At(t, Parent(q)).id
  {
    ReachesPrefix(t, q, |q| - 1);
    assert q == Parent(q) + [Last(q)];
    PutAppend(t, Parent(q), [Last(q)], u);
    AtPut(t, Parent(q), Put(At(t, Parent(q)), [Last(q)], u));
    PutKeepsRoot(At(t, Parent(q)), [Last(q)], u);
    AtPut(t, q, u);
  }
}
