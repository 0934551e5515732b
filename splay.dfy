/** The splay tree (SplayBST).

    Nodes live in an arena: `slots[i]` holds the key and the parent, left and
    right links of node `i`, `data[i]` its payload.  The pure part below says
    what a splay, a split and a merge do to the ghost `Tree` the links realise;
    the class performs the source's pointer updates and is proved to realise
    those trees. */
module Splay {
  import opened BinaryTrees
  import opened Arena

  /** Splay nodes carry nothing beyond key and links. */
  type Shape = Tree<()>

  // ---------------------------------------------------------------------
  // Keys

  /** One node per key: the in-order keys strictly increase. */
  ghost predicate Increasing(s: seq<int>)
  {
    forall i, j :: 0 <= i < j < |s| ==> s[i] < s[j]
  }

  ghost predicate AllGt(s: seq<int>, k: int) { forall i :: 0 <= i < |s| ==> k < s[i] }

  lemma IncreasingSorted(s: seq<int>)
    requires Increasing(s)
    ensures Sorted(s)
  {
  }

  lemma IncreasingAround(a: seq<int>, m: int, b: seq<int>)
    requires Increasing(a + [m] + b)
    ensures AllLt(a, m) && AllGt(b, m) && Increasing(a) && Increasing(b)
  {
    var s := a + [m] + b;
    forall i | 0 <= i < |a| ensures a[i] < m { assert s[i] == a[i] && s[|a|] == m; }
    forall i | 0 <= i < |b| ensures m < b[i] { assert s[|a| + 1 + i] == b[i] && s[|a|] == m; }
    forall i, j | 0 <= i < j < |a| ensures a[i] < a[j] { assert s[i] == a[i] && s[j] == a[j]; }
    forall i, j | 0 <= i < j < |b| ensures b[i] < b[j] { assert s[|a| + 1 + i] == b[i] && s[|a| + 1 + j] == b[j]; }
  }

  lemma IncreasingParts(a: seq<int>, b: seq<int>)
    requires Increasing(a + b)
    ensures Increasing(a) && Increasing(b)
    ensures forall i, j :: 0 <= i < |a| && 0 <= j < |b| ==> a[i] < b[j]
  {
    var s := a + b;
    forall i, j | 0 <= i < j < |a| ensures a[i] < a[j] { assert s[i] == a[i] && s[j] == a[j]; }
    forall i, j | 0 <= i < j < |b| ensures b[i] < b[j] { assert s[|a| + i] == b[i] && s[|a| + j] == b[j]; }
    forall i, j | 0 <= i < |a| && 0 <= j < |b| ensures a[i] < b[j] { assert s[i] == a[i] && s[|a| + j] == b[j]; }
  }

  lemma IncreasingJoin(a: seq<int>, m: int, b: seq<int>)
    requires Increasing(a) && Increasing(b) && AllLt(a, m) && AllGt(b, m)
    ensures Increasing(a + [m] + b)
  {
    var s := a + [m] + b;
    forall i, j | 0 <= i < j < |s| ensures s[i] < s[j] {
      if j < |a| { } else if j == |a| { } else if i < |a| {
        assert s[i] == a[i] && s[j] == b[j - |a| - 1];
      } else if i == |a| { } else {
        assert s[i] == b[i - |a| - 1] && s[j] == b[j - |a| - 1];
      }
    }
  }

  // ---------------------------------------------------------------------
  // Splay steps

  lemma OtherOther(d: Dir)
    ensures Other(Other(d)) == d && Other(d) != d
  {
  }

  /** A rotation toward `d` lifts the child on the other side; that child keeps
      its outer subtree, and the old root takes its inner one. */
  lemma RotRoot<A>(u: Tree<A>, d: Dir)
    requires u.Node? && Child(u, Other(d)).Node?
    ensures var y := Child(u, Other(d)); var r := Rot(u, d);
      r.Node? && r.id == y.id && r.key == y.key && r.info == y.info &&
      Child(r, Other(d)) == Child(y, Other(d)) &&
      Child(r, d) == WithChild(u, Other(d), Child(y, d))
  {
    if d == L { } else { }
  }

  /** The node at `p`, at least two levels down, with its parent and grandparent. */
  lemma Ancestry<A>(t: Tree<A>, p: Path)
    requires |p| >= 2 && At(t, p).Node?
    ensures var g, a, b := p[..|p| - 2], p[|p| - 2], p[|p| - 1];
      p == g + [a] + [b] && Reaches(t, g) && At(t, g).Node? && Child(At(t, g), a).Node? &&
      Child(Child(At(t, g), a), b) == At(t, p) &&
      Reaches(t, g + [a]) && At(t, g + [a]) == Child(At(t, g), a)
  {
    var g, a, b := p[..|p| - 2], p[|p| - 2], p[|p| - 1];
    assert p == g + [a] + [b];
    AtNodeReaches(t, p);
    ReachesPrefix(t, p, |p| - 2);
    ReachesPrefix(t, p, |p| - 1);
    assert p[..|p| - 1] == g + [a];
    assert p[..|p| - 1 + 1] == p;
  }

  /** What the two rotations of a zig-zig (`a == b`) or a zig-zag step need. */
  lemma StepFacts<A>(t: Tree<A>, p: Path)
    requires |p| >= 2 && At(t, p).Node?
    ensures var g, a, b := p[..|p| - 2], p[|p| - 2], p[|p| - 1];
      Reaches(t, g) && At(t, g).Node? && Child(At(t, g), Other(Other(a))).Node? &&
      (a == b ==>
        var t1 := RotAt(t, g, Other(a));
        Reaches(t1, g) && At(t1, g).Node? && Child(At(t1, g), Other(Other(a))) == At(t, p)) &&
      (a != b ==>
        Reaches(t, g + [a]) && At(t, g + [a]).Node? && Child(At(t, g + [a]), Other(Other(b))).Node? &&
        var t1 := RotAt(t, g + [a], Other(b));
        Reaches(t1, g) && At(t1, g).Node? && Child(At(t1, g), Other(Other(a))).Node? &&
        At(t1, g).id == At(t, g).id &&
        Child(At(t1, g), a) == Rot(At(t, g + [a]), Other(b)) &&
        Child(At(t1, g), a).id == At(t, p).id)
  {
    var g, a, b := p[..|p| - 2], p[|p| - 2], p[|p| - 1];
    Ancestry(t, p);
    OtherOther(a);
    OtherOther(b);
    var x := At(t, g);
    var y := Child(x, a);
    if a == b {
      RotAtElemsOf(t, g, Other(a));
      RotRoot(x, Other(a));
    } else {
      var u := Rot(y, Other(b));
      PutAppend(t, g, [a], u);
      assert Put(x, [a], u) == WithChild(x, a, u);
      AtPut(t, g, WithChild(x, a, u));
      RotRoot(y, Other(b));
    }
  }

  /** Splay's zig-zig (`a == b`) or zig-zag step on the node at `p`: two
      rotations that lift it to its grandparent's place. */
  function SplayStep<A>(t: Tree<A>, p: Path): Tree<A>
    requires |p| >= 2 && At(t, p).Node?
  {
    var g, a, b := p[..|p| - 2], p[|p| - 2], p[|p| - 1];
    StepFacts(t, p);
    if a == b then RotAt(RotAt(t, g, Other(a)), g, Other(a))
    else RotAt(RotAt(t, g + [a], Other(b)), g, Other(a))
  }

  /** After the step the node sits at its old grandparent's path, and the
      in-order sequence and the ids are those of before. */
  lemma StepSpec<A>(t: Tree<A>, p: Path)
    requires |p| >= 2 && At(t, p).Node?
    ensures var g, s := p[..|p| - 2], SplayStep(t, p);
      Reaches(s, g) && At(s, g).Node? && At(s, g).id == At(t, p).id &&
      At(s, g).key == At(t, p).key && At(s, g).info == At(t, p).info &&
      Elems(s) == Elems(t) && Ids(s) == Ids(t) && (Distinct(t) ==> Distinct(s))
  {
    var g, a, b := p[..|p| - 2], p[|p| - 2], p[|p| - 1];
    StepFacts(t, p);
    OtherOther(a);
    if a == b {
      var t1 := RotAt(t, g, Other(a));
      RotAtElemsOf(t, g, Other(a));
      RotAtElemsOf(t1, g, Other(a));
      RotRoot(At(t1, g), Other(a));
    } else {
      Ancestry(t, p);
      OtherOther(b);
      var t1 := RotAt(t, g + [a], Other(b));
      RotAtElemsOf(t, g + [a], Other(b));
      RotAtElemsOf(t1, g, Other(a));
      RotRoot(At(t1, g), Other(a));
      RotRoot(At(t, g + [a]), Other(b));
    }
  }

  /** Splay(node): zig-zig and zig-zag steps while the node has a grandparent,
      then one zig when it has only a parent. */
  function Splayed<A>(t: Tree<A>, p: Path): Tree<A>
    requires At(t, p).Node?
    decreases |p|
  {
    if p == [] then t
    else if |p| == 1 then
      OtherOther(p[0]);
      RotAt(t, [], Other(p[0]))
    else
      StepSpec(t, p);
      Splayed(SplayStep(t, p), p[..|p| - 2])
  }

  /** Splaying brings the node to the root and keeps the in-order sequence and the ids. */
  lemma {:induction false} SplayedSpec<A>(t: Tree<A>, p: Path)
    requires At(t, p).Node?
    ensures var s := Splayed(t, p);
      s.Node? && s.id == At(t, p).id && s.key == At(t, p).key && s.info == At(t, p).info &&
      Elems(s) == Elems(t) && Ids(s) == Ids(t) && (Distinct(t) ==> Distinct(s))
    decreases |p|
  {
    if |p| == 1 {
      OtherOther(p[0]);
      RotAtElemsOf(t, [], Other(p[0]));
      RotRoot(t, Other(p[0]));
    } else if |p| >= 2 {
      StepSpec(t, p);
      SplayedSpec(SplayStep(t, p), p[..|p| - 2]);
    }
  }

  // ---------------------------------------------------------------------
  // Search

  /** The path Find(node, key) walks: down while the key differs and the child
      on its side exists. */
  function SearchPath<A>(t: Tree<A>, k: int): Path
    requires t.Node?
  {
    if k == t.key then []
    else if k < t.key && t.left.Node? then [L] + SearchPath(t.left, k)
    else if k > t.key && t.right.Node? then [R] + SearchPath(t.right, k)
    else []
  }

  /** The walk ends on a node. */
  lemma SearchEnds<A>(t: Tree<A>, k: int)
    requires t.Node?
    ensures Reaches(t, SearchPath(t, k)) && At(t, SearchPath(t, k)).Node?
  {
  }

  /** The walk stops on the key, or on a node without a child on the key's side. */
  lemma SearchStop<A>(t: Tree<A>, k: int)
    requires t.Node?
    ensures At(t, SearchPath(t, k)).Node?
    ensures var x := At(t, SearchPath(t, k));
      x.key == k || (x.key < k && x.right.Leaf?) || (k < x.key && x.left.Leaf?)
  {
  }

  /** In a search tree holding `k` the walk stops on `k`. */
  lemma {:induction false} SearchFinds<A>(t: Tree<A>, k: int)
    requires Ordered(t) && t.Node? && k in Keys(t)
    ensures At(t, SearchPath(t, k)).Node? && At(t, SearchPath(t, k)).key == k
  {
    if t.key != k {
      FindStep(t, k);
      var d := if t.key < k then R else L;
      var c := Child(t, d);
      assert c.Node?;
      SearchFinds(c, k);
      assert SearchPath(t, k) == [d] + SearchPath(c, k);
    }
  }

  /** The walk ends at a position between the keys below `k` and the keys from `k` on. */
  lemma {:induction false} SearchBetween<A>(x: Tree<A>, k: int)
    requires x.Node? && Ordered(x)
    ensures Between(x, SearchPath(x, k), k)
  {
    var p := SearchPath(x, k);
    if p != [] {
      var d := if k > x.key then R else L;
      var c := Child(x, d);
      var r := SearchPath(c, k);
      assert p == [d] + r;
      OrderedNode(x);
      SearchBetween(c, k);
      KeysOfOne(x.id, x.key);
      if d == L {
        assert After(x, p) == After(c, r) + [(x.id, x.key)] + Elems(x.right);
        KeysOf3(After(c, r), [(x.id, x.key)], Elems(x.right));
        AllGeGe(Keys(x.right), x.key, k);
        AllGe3(KeysOf(After(c, r)), [x.key], Keys(x.right), k);
      } else {
        assert Before(x, p) == Elems(x.left) + [(x.id, x.key)] + Before(c, r);
        KeysOf3(Elems(x.left), [(x.id, x.key)], Before(c, r));
        AllLeLt(Keys(x.left), x.key, k);
        AllLt3(Keys(x.left), [x.key], KeysOf(Before(c, r)), k);
      }
    }
  }


  /** Distinct ids: the root's element splits the in-order sequence into the
      left and the right subtree's. */
  lemma RootPosition<A>(s: Tree<A>, a: seq<(nat, int)>, b: seq<(nat, int)>)
    requires Distinct(s) && s.Node? && Elems(s) == a + [(s.id, s.key)] + b
    ensures Elems(s.left) == a && Elems(s.right) == b
  {
    var e := Elems(s);
    var n := |Elems(s.left)|;
    assert e[n] == (s.id, s.key);
    assert e[|a|] == (s.id, s.key);
    ElemsSameId(s, n, |a|);
    assert e[..n] == Elems(s.left) && e[..|a|] == a;
    assert e[n + 1..] == Elems(s.right) && e[|a| + 1..] == b;
  }

  /** The in-order sequence around the node at `p`. */
  lemma ElemsAround<A>(t: Tree<A>, p: Path, x: Tree<A>)
    requires Reaches(t, p) && x == At(t, p) && x.Node?
    ensures Elems(t) == (Before(t, p) + Elems(x.left)) + [(x.id, x.key)] + (Elems(x.right) + After(t, p))
  {
    ElemsSplit(t, p);
    var b, l, m, r, a := Before(t, p), Elems(x.left), [(x.id, x.key)], Elems(x.right), After(t, p);
    assert Elems(x) == l + m + r;
    Regroup(b, l, m, r, a);
  }

  lemma Regroup<T>(b: seq<T>, l: seq<T>, m: seq<T>, r: seq<T>, a: seq<T>)
    ensures b + (l + m + r) + a == (b + l) + m + (r + a)
  {
    assert b + (l + m + r) + a == b + l + m + r + a;
  }

  /** A tree with the in-order sequence of `t` whose root is the node `x` of `t`:
      what precedes `x` is on its left, what follows on its right. */
  lemma RootSplit<A>(s: Tree<A>, x: Tree<A>, b: seq<(nat, int)>, a: seq<(nat, int)>)
    requires Distinct(s) && s.Node? && x.Node? && s.id == x.id && s.key == x.key
    requires Elems(s) == (b + Elems(x.left)) + [(x.id, x.key)] + (Elems(x.right) + a)
    ensures Elems(s.left) == b + Elems(x.left)
    ensures Elems(s.right) == Elems(x.right) + a
  {
    RootPosition(s, b + Elems(x.left), Elems(x.right) + a);
  }

  /** Splaying the node at `p` to the root: everything before it ends up on the
      left, everything after it on the right. */
  lemma SplayedSplit<A>(t: Tree<A>, p: Path, s: Tree<A>)
    requires Distinct(t) && Reaches(t, p) && At(t, p).Node? && s == Splayed(t, p)
    ensures s.Node? && s.id == At(t, p).id && s.key == At(t, p).key
    ensures Distinct(s) && Ids(s) == Ids(t) && Elems(s) == Elems(t)
    ensures Elems(s.left) == Before(t, p) + Elems(At(t, p).left)
    ensures Elems(s.right) == Elems(At(t, p).right) + After(t, p)
  {
    SplayedSpec(t, p);
    ElemsAround(t, p, At(t, p));
    RootSplit(s, At(t, p), Before(t, p), After(t, p));
  }

  /** Find(root, key) on a whole tree: the node it stops on rises to the root,
      with the keys below `k` on its left and those above on its right. */
  lemma FoundSplit<A>(t: Tree<A>, k: int, p: Path)
    requires t.Node? && Distinct(t) && Ordered(t) && p == SearchPath(t, k)
    ensures Reaches(t, p) && At(t, p).Node? && Between(t, p, k)
    ensures var s := Splayed(t, p);
      s.Node? && s.id == At(t, p).id && s.key == At(t, p).key &&
      Distinct(s) && Ids(s) == Ids(t) && Elems(s) == Elems(t) &&
      Elems(s.left) == Before(t, p) + Elems(At(t, p).left) &&
      Elems(s.right) == Elems(At(t, p).right) + After(t, p)
  {
    SearchEnds(t, k);
    SplayedSplit(t, p, Splayed(t, p));
    SearchBetween(t, k);
  }

  // ---------------------------------------------------------------------
  // Split and Merge on trees

  /** A search tree of Splay: ids distinct and in-order keys strictly increasing. */
  ghost predicate SearchTree<A>(t: Tree<A>)
  {
    Distinct(t) && Increasing(Keys(t))
  }

  /** Split(root, key) after its Find: the node found heads the piece on its own
      side, or disappears when it holds the key itself. */
  function Halves<A>(s: Tree<A>, k: int): (Tree<A>, Tree<A>)
    requires s.Node?
  {
    if s.key == k then (s.left, s.right)
    else if s.key < k then (s.(right := Leaf), s.right)
    else (s.left, s.(left := Leaf))
  }

  /** Find(root, key): the walk for `k` and a splay of the node it stops on. */
  function Searched<A>(t: Tree<A>, k: int): (r: Tree<A>)
    ensures t.Node? <==> r.Node?
  {
    if t.Leaf? then t
    else
      SearchEnds(t, k);
      SplayedSpec(t, SearchPath(t, k));
      Splayed(t, SearchPath(t, k))
  }

  /** Split(root, key) on the tree `t`: a search for `k`, a splay, and a cut at the root. */
  function SplitOf<A>(t: Tree<A>, k: int): (Tree<A>, Tree<A>)
  {
    if t.Leaf? then (Leaf, Leaf) else Halves(Searched(t, k), k)
  }

  /** Merge(left, right): the least node of `r` is splayed to its root and
      takes `l` as its left subtree. */
  function Merged<A>(l: Tree<A>, r: Tree<A>): Tree<A>
  {
    if r.Leaf? then l
    else if l.Leaf? then r
    else
      SearchEnds(r, l.key);
      var s := Splayed(r, SearchPath(r, l.key));
      SplayedSpec(r, SearchPath(r, l.key));
      s.(left := l)
  }

  lemma IncreasingSkip(a: seq<int>, m: int, b: seq<int>)
    requires Increasing(a + [m] + b)
    ensures Increasing(a + b)
  {
    var s, s' := a + [m] + b, a + b;
    forall i, j | 0 <= i < j < |s'| ensures s'[i] < s'[j] {
      var i', j' := if i < |a| then i else i + 1, if j < |a| then j else j + 1;
      assert s'[i] == s[i'] && s'[j] == s[j'];
    }
  }

  lemma NodeKeys<A>(t: Tree<A>)
    requires t.Node?
    ensures Keys(t) == Keys(t.left) + [t.key] + Keys(t.right)
    ensures Keys(t.(left := Leaf)) == [t.key] + Keys(t.right)
    ensures Keys(t.(right := Leaf)) == Keys(t.left) + [t.key]
  {
    KeysNode(t);
    KeysNode(t.(left := Leaf));
    KeysNode(t.(right := Leaf));
  }

  /** Keys equal to those of a prefix of the in-order sequence. */
  lemma KeysSplit<A>(t: Tree<A>, p: Path)
    requires Reaches(t, p) && At(t, p).Node?
    ensures Keys(t) == KeysOf(Before(t, p)) + Keys(At(t, p).left) + [At(t, p).key] + Keys(At(t, p).right) + KeysOf(After(t, p))
  {
    var x := At(t, p);
    ElemsAround(t, p, x);
    KeysOf3(Before(t, p) + Elems(x.left), [(x.id, x.key)], Elems(x.right) + After(t, p));
    KeysOfAppend(Before(t, p), Elems(x.left));
    KeysOfAppend(Elems(x.right), After(t, p));
    KeysOfOne(x.id, x.key);
  }

  /** In a search tree the walk for a key it holds stops on that key, and the walk
      for a key it lacks stops elsewhere. */
  lemma SearchHit<A>(t: Tree<A>, k: int)
    requires t.Node? && SearchTree(t)
    ensures At(t, SearchPath(t, k)).Node?
    ensures At(t, SearchPath(t, k)).key == k <==> k in Keys(t)
  {
    var p := SearchPath(t, k);
    SearchEnds(t, k);
    IncreasingSorted(Keys(t));
    if k in Keys(t) {
      SearchFinds(t, k);
    }
    KeysSplit(t, p);
  }

  /** After the splay of Split's Find, the keys beside the root lie on the right
      side of `k`: the walk stopped on `k` or next to where `k` would go. */
  lemma SplitSides<A>(t: Tree<A>, k: int, p: Path, s: Tree<A>)
    requires t.Node? && SearchTree(t) && p == SearchPath(t, k)
    requires At(t, p).Node? && s == Splayed(t, p)
    ensures s.Node? && SearchTree(s) && Elems(s) == Elems(t) && Ids(s) == Ids(t)
    ensures s.id == At(t, p).id && s.key == At(t, p).key
    ensures s.key == k <==> k in Keys(t)
    ensures s.key < k ==> AllGt(Keys(s.right), k)
    ensures k < s.key ==> AllLt(Keys(s.left), k)
  {
    var x := At(t, p);
    IncreasingSorted(Keys(t));
    FoundSplit(t, k, p);
    SearchHit(t, k);
    SearchStop(t, k);
    assert Keys(s) == Keys(t);
    NodeKeys(s);
    if s.key < k {
      assert x.right.Leaf?;
      assert Elems(s.right) == After(t, p);
      forall i | 0 <= i < |Keys(s.right)| ensures k < Keys(s.right)[i] {
        assert Keys(s.right)[i] in Keys(s);
      }
    } else if k < s.key {
      assert x.left.Leaf?;
      assert Elems(s.left) == Before(t, p);
    }
  }

  /** What a cut piece must satisfy: a search tree below (`lo`) or above `k`. */
  ghost predicate Piece<A>(u: Tree<A>, k: int, lo: bool)
  {
    SearchTree(u) && (if lo then AllLt(Keys(u), k) else AllGt(Keys(u), k))
  }

  lemma PieceLeft<A>(s: Tree<A>, k: int)
    requires s.Node? && SearchTree(s) && s.key <= k
    ensures Piece(s.left, k, true) && AllLt(Keys(s.left), s.key)
    ensures Increasing(Keys(s.right)) && AllGt(Keys(s.right), s.key)
  {
    NodeKeys(s);
    IncreasingAround(Keys(s.left), s.key, Keys(s.right));
  }

  lemma PieceRight<A>(s: Tree<A>, k: int)
    requires s.Node? && SearchTree(s) && k <= s.key
    ensures Piece(s.right, k, false) && AllGt(Keys(s.right), s.key)
    ensures Increasing(Keys(s.left)) && AllLt(Keys(s.left), s.key)
  {
    NodeKeys(s);
    IncreasingAround(Keys(s.left), s.key, Keys(s.right));
  }

  /** Split when the root's key is below `k`: the root keeps its left subtree,
      and the piece stays below `k`. */
  lemma CutBelow<A>(s: Tree<A>, k: int, l: Tree<A>)
    requires s.Node? && SearchTree(s) && s.key < k && l == s.(right := Leaf)
    ensures Piece(l, k, true)
  {
    PieceLeft(s, k);
    assert Keys(l) == Keys(s.left) + [s.key] + [] by { NodeKeys(s); }
    IncreasingJoin(Keys(s.left), s.key, []);
  }

  /** Split when the root's key is above `k`: the root keeps its right subtree. */
  lemma CutAbove<A>(s: Tree<A>, k: int, r: Tree<A>)
    requires s.Node? && SearchTree(s) && k < s.key && r == s.(left := Leaf)
    ensures Piece(r, k, false)
  {
    PieceRight(s, k);
    assert Keys(r) == [] + [s.key] + Keys(s.right) by { NodeKeys(s); }
    IncreasingJoin([], s.key, Keys(s.right));
  }

  /** Cutting off the left child: the two parts share no id and keep the in-order sequence. */
  lemma CutLeft<A>(s: Tree<A>)
    requires s.Node? && Distinct(s)
    ensures var rest := s.(left := Leaf);
      Ids(s.left) !! Ids(rest) && Ids(s.left) <= Ids(s) && Ids(rest) <= Ids(s) &&
      Elems(s) == Elems(s.left) + Elems(rest)
  {
    CutSeqs(s);
    assert Ids(s.(left := Leaf)) == {s.id} + Ids(s.right);
  }

  /** Cutting off the right child, the mirror image of CutLeft. */
  lemma CutRight<A>(s: Tree<A>)
    requires s.Node? && Distinct(s)
    ensures var rest := s.(right := Leaf);
      Ids(s.right) !! Ids(rest) && Ids(s.right) <= Ids(s) && Ids(rest) <= Ids(s) &&
      Elems(s) == Elems(rest) + Elems(s.right)
  {
    CutSeqs(s);
    assert Ids(s.(right := Leaf)) == Ids(s.left) + {s.id};
  }

  /** The in-order sequences of a node with one child cut off. */
  lemma CutSeqs<A>(s: Tree<A>)
    requires s.Node?
    ensures Elems(s) == Elems(s.left) + Elems(s.(left := Leaf))
    ensures Elems(s) == Elems(s.(right := Leaf)) + Elems(s.right)
  {
    var l, top, r := Elems(s.left), [(s.id, s.key)], Elems(s.right);
    var a, b := s.(left := Leaf), s.(right := Leaf);
    assert a.Node? && a.left == Leaf && a.right == s.right && a.id == s.id && a.key == s.key;
    assert b.Node? && b.left == s.left && b.right == Leaf && b.id == s.id && b.key == s.key;
    assert Elems(a) == [] + top + r == top + r;
    assert Elems(b) == l + top + [] == l + top;
    Assoc(l, top, r);
  }

  lemma Assoc<T>(x: seq<T>, y: seq<T>, z: seq<T>)
    ensures x + y + z == x + (y + z)
  {
  }

  /** What Split promises about the in-order sequence `e` and the ids `ids` it
      cuts: two search trees below and above `k` made of those nodes, and, when
      `k` was present, its node `m` dropped between them. */
  ghost predicate Splits<A>(e: seq<(nat, int)>, ids: set<nat>, k: int, lo: Tree<A>, hi: Tree<A>, m: nat)
  {
    Piece(lo, k, true) && Piece(hi, k, false) &&
    Ids(lo) !! Ids(hi) && Ids(lo) <= ids && Ids(hi) <= ids &&
    if k in KeysOf(e) then e == Elems(lo) + [(m, k)] + Elems(hi) && m in ids && m !in Ids(lo) + Ids(hi)
    else e == Elems(lo) + Elems(hi)
  }

  lemma CutRoot<A>(s: Tree<A>, k: int)
    requires s.Node? && SearchTree(s) && s.key == k
    ensures Splits(Elems(s), Ids(s), k, s.left, s.right, s.id)
  {
    PieceLeft(s, k);
    PieceRight(s, k);
    NodeKeys(s);
  }

  lemma CutLow<A>(s: Tree<A>, k: int)
    requires s.Node? && SearchTree(s) && s.key < k && AllGt(Keys(s.right), k)
    ensures Splits(Elems(s), Ids(s), k, s.(right := Leaf), s.right, s.id)
  {
    CutBelow(s, k, s.(right := Leaf));
    CutRight(s);
    PieceLeft(s, k);
    NodeKeys(s);
    assert k !in Keys(s);
  }

  lemma CutHigh<A>(s: Tree<A>, k: int)
    requires s.Node? && SearchTree(s) && k < s.key && AllLt(Keys(s.left), k)
    ensures Splits(Elems(s), Ids(s), k, s.left, s.(left := Leaf), s.id)
  {
    CutAbove(s, k, s.(left := Leaf));
    CutLeft(s);
    PieceRight(s, k);
    NodeKeys(s);
    assert k !in Keys(s);
  }

  /** The two pieces of a cut at the root of a search tree. */
  lemma HalvesSpec<A>(s: Tree<A>, k: int)
    requires s.Node? && SearchTree(s)
    requires s.key < k ==> AllGt(Keys(s.right), k)
    requires k < s.key ==> AllLt(Keys(s.left), k)
    ensures Splits(Elems(s), Ids(s), k, Halves(s, k).0, Halves(s, k).1, s.id)
  {
    if s.key == k {
      CutRoot(s, k);
    } else if s.key < k {
      CutLow(s, k);
    } else {
      CutHigh(s, k);
    }
  }

  /** The node Split's Find stops on (any id for the empty tree). */
  function Found<A>(t: Tree<A>, k: int): nat
  {
    if t.Leaf? then 0
    else
      SearchEnds(t, k);
      At(t, SearchPath(t, k)).id
  }

  /** Split(root, key): the keys below `k` on the left, those above on the right,
      and every node but the one holding `k` in one of the two. */
  lemma SplitSpec<A>(t: Tree<A>, k: int)
    requires SearchTree(t)
    ensures Splits(Elems(t), Ids(t), k, SplitOf(t, k).0, SplitOf(t, k).1, Found(t, k))
  {
    if t.Node? {
      var p := SearchPath(t, k);
      SearchEnds(t, k);
      var s := Splayed(t, p);
      SplitSides(t, k, p, s);
      HalvesSpec(s, k);
    }
  }

  /** Merge(left, right) of two search trees whose keys are all below / above
      each other: the in-order sequence is the left one's followed by the right one's. */
  lemma MergedSpec<A>(l: Tree<A>, r: Tree<A>)
    requires SearchTree(l) && SearchTree(r) && Ids(l) !! Ids(r) && Increasing(Keys(l) + Keys(r))
    ensures SearchTree(Merged(l, r)) && Ids(Merged(l, r)) == Ids(l) + Ids(r)
    ensures Elems(Merged(l, r)) == Elems(l) + Elems(r)
  {
    if l.Node? && r.Node? {
      var p := SearchPath(r, l.key);
      SearchEnds(r, l.key);
      MinSplayed(l, r, p, Splayed(r, p));
    }
  }

  /** The root key of `l` is below every key of `r`. */
  lemma RootBelow<A>(l: Tree<A>, r: Tree<A>)
    requires l.Node? && Increasing(Keys(l) + Keys(r))
    ensures AllGt(Keys(r), l.key)
  {
    IncreasingParts(Keys(l), Keys(r));
    NodeKeys(l);
    assert l.key == Keys(l)[|Keys(l.left)|];
  }

  /** Splaying the walk for a key below all of `r` lifts its least node, which
      has no left child, so `l` can hang there. */
  lemma MinSplayed<A>(l: Tree<A>, r: Tree<A>, p: Path, s: Tree<A>)
    requires l.Node? && r.Node? && SearchTree(l) && SearchTree(r) && Ids(l) !! Ids(r)
    requires Increasing(Keys(l) + Keys(r))
    requires p == SearchPath(r, l.key) && At(r, p).Node? && s == Splayed(r, p)
    ensures s.Node? && s.left.Leaf? && SearchTree(s) && Ids(s) == Ids(r) && Elems(s) == Elems(r)
    ensures var m := s.(left := l);
      SearchTree(m) && Ids(m) == Ids(l) + Ids(r) && Elems(m) == Elems(l) + Elems(r)
  {
    RootBelow(l, r);
    SplitSides(r, l.key, p, s);
    NoneBelow(s, l.key);
    HangLeft(l, s);
  }

  /** A search tree whose keys all exceed `k`, with a root key above `k` and
      only keys below `k` on its left, has nothing on its left. */
  lemma NoneBelow<A>(s: Tree<A>, k: int)
    requires s.Node? && AllGt(Keys(s), k) && (k < s.key ==> AllLt(Keys(s.left), k))
    ensures s.left.Leaf?
  {
    NodeKeys(s);
    assert Keys(s)[|Keys(s.left)|] == s.key;
    CountElems(s.left);
    FirstOf(Keys(s.left), s.key, Keys(s.right));
  }

  lemma FirstOf(a: seq<int>, m: int, b: seq<int>)
    ensures |a| > 0 ==> (a + [m] + b)[0] == a[0]
  {
  }

  /** Hanging `l` as the empty left subtree of `s`, whose keys all exceed `l`'s. */
  lemma HangLeft<A>(l: Tree<A>, s: Tree<A>)
    requires s.Node? && s.left.Leaf? && SearchTree(l) && SearchTree(s) && Ids(l) !! Ids(s)
    requires Increasing(Keys(l) + Keys(s))
    ensures var m := s.(left := l);
      SearchTree(m) && Ids(m) == Ids(l) + Ids(s) && Elems(m) == Elems(l) + Elems(s)
  {
    HangShape(l, s, s.(left := l));
  }

  lemma HangShape<A>(l: Tree<A>, s: Tree<A>, m: Tree<A>)
    requires s.Node? && s.left.Leaf? && Distinct(l) && Distinct(s) && Ids(l) !! Ids(s)
    requires m == s.(left := l)
    ensures Distinct(m) && Ids(m) == Ids(l) + Ids(s) && Elems(m) == Elems(l) + Elems(s)
    ensures Keys(m) == Keys(l) + Keys(s)
  {
    var top := [(s.id, s.key)] + Elems(s.right);
    assert Elems(s) == top;
    assert Elems(m) == Elems(l) + top;
    assert Ids(s) == {s.id} + Ids(s.right);
    assert Ids(m) == Ids(l) + Ids(s);
    KeysOfAppend(Elems(l), Elems(s));
  }

  // ---------------------------------------------------------------------
  // Contents: the key -> payload map the tree stores

  ghost predicate IdsIn(e: seq<(nat, int)>, n: int)
  {
    forall i :: 0 <= i < |e| ==> e[i].0 < n
  }

  /** The map from each key of the in-order sequence `e` to the payload of its node. */
  ghost function MapOf<T>(e: seq<(nat, int)>, data: seq<T>): map<int, T>
    requires IdsIn(e, |data|)
    decreases |e|
  {
    if e == [] then map[]
    else MapOf(e[..|e| - 1], data)[e[|e| - 1].1 := data[e[|e| - 1].0]]
  }

  lemma {:induction false} MapOfAppend<T>(a: seq<(nat, int)>, b: seq<(nat, int)>, data: seq<T>)
    requires IdsIn(a + b, |data|)
    ensures IdsIn(a, |data|) && IdsIn(b, |data|)
    ensures MapOf(a + b, data) == MapOf(a, data) + MapOf(b, data)
    decreases |b|
  {
    assert forall i :: 0 <= i < |a| ==> (a + b)[i] == a[i];
    assert forall i :: 0 <= i < |b| ==> (a + b)[|a| + i] == b[i];
    if b == [] {
      assert a + b == a;
    } else {
      var b', z := b[..|b| - 1], b[|b| - 1];
      assert (a + b)[..|a + b| - 1] == a + b';
      assert (a + b)[|a + b| - 1] == z;
      MapOfAppend(a, b', data);
    }
  }

  /** The keys of the map are the keys of the sequence. */
  lemma {:induction false} MapOfKeys<T>(e: seq<(nat, int)>, data: seq<T>)
    requires IdsIn(e, |data|)
    ensures forall k :: k in MapOf(e, data) <==> k in KeysOf(e)
    decreases |e|
  {
    if e != [] {
      var e', z := e[..|e| - 1], e[|e| - 1];
      MapOfKeys(e', data);
      assert e == e' + [z];
      KeysOfAppend(e', [z]);
      KeysOfOne(z.0, z.1);
    }
  }

  /** Payloads beyond the ids of `e` do not matter. */
  lemma {:induction false} MapOfFrame<T>(e: seq<(nat, int)>, data: seq<T>, data': seq<T>)
    requires IdsIn(e, |data|) && |data| <= |data'|
    requires forall i :: 0 <= i < |data| ==> data'[i] == data[i]
    ensures IdsIn(e, |data'|) && MapOf(e, data') == MapOf(e, data)
    decreases |e|
  {
    if e != [] {
      MapOfFrame(e[..|e| - 1], data, data');
    }
  }

  /** One node between two runs of the in-order sequence. */
  lemma MapOfMid<T>(a: seq<(nat, int)>, i: nat, k: int, b: seq<(nat, int)>, data: seq<T>)
    requires IdsIn(a + [(i, k)] + b, |data|)
    ensures IdsIn(a, |data|) && IdsIn(b, |data|) && i < |data|
    ensures MapOf(a + [(i, k)] + b, data) == MapOf(a, data) + map[k := data[i]] + MapOf(b, data)
  {
    MapOfAppend(a + [(i, k)], b, data);
    MapOfAppend(a, [(i, k)], data);
    assert [(i, k)][..0] == [];
  }

  /** Every node of `t` has a payload among the first `n`. */
  ghost predicate Stored<A>(t: Tree<A>, n: int)
  {
    forall i :: i in Ids(t) ==> i < n
  }

  lemma StoredIdsIn<A>(t: Tree<A>, n: int)
    requires Stored(t, n)
    ensures IdsIn(Elems(t), n)
  {
    ElemIds(t);
  }

  /** The contents of a tree whose payloads are `data`. */
  ghost function TreeMap<A, T>(t: Tree<A>, data: seq<T>): map<int, T>
    requires Stored(t, |data|)
  {
    StoredIdsIn(t, |data|);
    MapOf(Elems(t), data)
  }

  lemma UpsertMid<T>(a: map<int, T>, m: map<int, T>, b: map<int, T>, k: int, v: T)
    requires k !in b && forall x :: x in m ==> x == k
    ensures a + map[k := v] + b == (a + m + b)[k := v]
  {
    var l, r := a + map[k := v] + b, (a + m + b)[k := v];
    forall x ensures x in l <==> x in r {
      assert x in l <==> x in a || x == k || x in b;
      assert x in r <==> x in a || x in m || x in b || x == k;
    }
    forall x | x in l ensures l[x] == r[x] {
      if x in b { } else if x == k { } else { assert x !in m; }
    }
  }

  lemma RemoveMid<T>(a: map<int, T>, b: map<int, T>, k: int, v: T)
    requires k !in a && k !in b
    ensures (a + map[k := v] + b) - {k} == a + b
  {
  }

  /** No key of a piece below (above) `k` is `k`. */
  lemma PieceLacks<A, T>(u: Tree<A>, k: int, lo: bool, data: seq<T>)
    requires Piece(u, k, lo) && IdsIn(Elems(u), |data|)
    ensures k !in MapOf(Elems(u), data)
  {
    MapOfKeys(Elems(u), data);
  }

  // ---------------------------------------------------------------------
  // Insert, Erase and Find on trees

  /** Insert(key, data): Split, then a new node `n` over the two pieces. */
  function Inserted(t: Shape, n: nat, k: int): Shape
  {
    var h := SplitOf(t, k);
    Node(n, k, (), h.0, h.1)
  }

  /** Erase(key): Find; when the root then holds the key, its two subtrees are
      merged; otherwise the tree stays as the search left it. */
  function Erased<A>(t: Tree<A>, k: int): Tree<A>
  {
    if t.Leaf? then t
    else
      var s := Searched(t, k);
      if s.key == k then Merged(s.left, s.right) else s
  }

  /** The new node over the two pieces of Split is a search tree. */
  lemma InsertedTree(t: Shape, n: nat, k: int)
    requires SearchTree(t) && Stored(t, n)
    ensures var u := Inserted(t, n, k);
      SearchTree(u) && Stored(u, n + 1) && Ids(u) <= Ids(t) + {n}
  {
    var h := SplitOf(t, k);
    SplitSpec(t, k);
    var u := Node(n, k, (), h.0, h.1);
    NodeKeys(u);
    IncreasingJoin(Keys(h.0), k, Keys(h.1));
  }

  /** The contents before a split, in terms of its pieces. */
  lemma SplitMap<A, T>(e: seq<(nat, int)>, ids: set<nat>, k: int, lo: Tree<A>, hi: Tree<A>, m: nat, data: seq<T>)
    requires Splits(e, ids, k, lo, hi, m) && IdsIn(e, |data|)
    ensures IdsIn(Elems(lo), |data|) && IdsIn(Elems(hi), |data|)
    ensures k in KeysOf(e) ==> m < |data|
    ensures MapOf(e, data) ==
      MapOf(Elems(lo), data) + (if k in KeysOf(e) then map[k := data[m]] else map[]) + MapOf(Elems(hi), data)
    ensures k !in MapOf(Elems(hi), data) && k !in MapOf(Elems(lo), data)
  {
    if k in KeysOf(e) {
      MapOfMid(Elems(lo), m, k, Elems(hi), data);
    } else {
      MapOfAppend(Elems(lo), Elems(hi), data);
      assert MapOf(Elems(lo), data) + map[] == MapOf(Elems(lo), data);
    }
    PieceLacks(hi, k, false, data);
    PieceLacks(lo, k, true, data);
  }

  /** The contents after Insert's new node `n` joins the pieces. */
  lemma JoinMap<A, T>(lo: Tree<A>, hi: Tree<A>, k: int, data: seq<T>, v: T)
    requires IdsIn(Elems(lo), |data|) && IdsIn(Elems(hi), |data|)
    ensures IdsIn(Elems(lo) + [(|data|, k)] + Elems(hi), |data| + 1)
    ensures MapOf(Elems(lo) + [(|data|, k)] + Elems(hi), data + [v]) ==
      MapOf(Elems(lo), data) + map[k := v] + MapOf(Elems(hi), data)
  {
    IdsInMid(Elems(lo), |data|, k, Elems(hi));
    MapOfMid(Elems(lo), |data|, k, Elems(hi), data + [v]);
    MapOfFrame(Elems(lo), data, data + [v]);
    MapOfFrame(Elems(hi), data, data + [v]);
  }

  /** A fresh id `n` placed between two sequences of ids below `n`. */
  lemma IdsInMid(a: seq<(nat, int)>, n: nat, k: int, b: seq<(nat, int)>)
    requires IdsIn(a, n) && IdsIn(b, n)
    ensures IdsIn(a + [(n, k)] + b, n + 1)
  {
    var e := a + [(n, k)] + b;
    forall i | 0 <= i < |e| ensures e[i].0 < n + 1 {
      if i < |a| { assert e[i] == a[i]; }
      else if i > |a| { assert e[i] == b[i - |a| - 1]; }
    }
  }

  /** Insert stores `v` under `k`, replacing what `k` held, and keeps every other key. */
  lemma InsertedMap<T>(t: Shape, k: int, data: seq<T>, v: T)
    requires SearchTree(t) && Stored(t, |data|)
    ensures Stored(Inserted(t, |data|, k), |data| + 1)
    ensures TreeMap(Inserted(t, |data|, k), data + [v]) == TreeMap(t, data)[k := v]
  {
    var n := |data|;
    var h := SplitOf(t, k);
    InsertedTree(t, n, k);
    SplitSpec(t, k);
    StoredIdsIn(t, n);
    SplitMap(Elems(t), Ids(t), k, h.0, h.1, Found(t, k), data);
    JoinMap(h.0, h.1, k, data, v);
    var a, b := MapOf(Elems(h.0), data), MapOf(Elems(h.1), data);
    UpsertMid(a, if k in Keys(t) then map[k := data[Found(t, k)]] else map[], b, k, v);
  }

  /** Find(key) on a search tree: the splay keeps the contents, and the new root
      holds `k` exactly when the tree does, with the payload stored under `k`. */
  lemma FoundSpec<A, T>(t: Tree<A>, k: int, data: seq<T>)
    requires t.Node? && SearchTree(t) && Stored(t, |data|)
    ensures At(t, SearchPath(t, k)).Node?
    ensures var s := Splayed(t, SearchPath(t, k));
      s.Node? && SearchTree(s) && Ids(s) == Ids(t) && Stored(s, |data|) &&
      TreeMap(s, data) == TreeMap(t, data) &&
      (s.key == k <==> k in TreeMap(t, data)) &&
      (s.key == k ==> s.id < |data| && TreeMap(t, data)[k] == data[s.id])
  {
    var p := SearchPath(t, k);
    SearchEnds(t, k);
    var s := Splayed(t, p);
    SplitSides(t, k, p, s);
    StoredIdsIn(t, |data|);
    MapOfKeys(Elems(t), data);
    if s.key == k {
      CutRoot(s, k);
      SplitMap(Elems(s), Ids(s), k, s.left, s.right, s.id, data);
      NodeKeys(s);
    }
  }

  /** Erase(key): the key leaves the contents, every other key keeps its payload
      (a missing key leaves them as they were). */
  lemma ErasedSpec<A, T>(t: Tree<A>, k: int, data: seq<T>)
    requires SearchTree(t) && Stored(t, |data|)
    ensures SearchTree(Erased(t, k)) && Ids(Erased(t, k)) <= Ids(t) && Stored(Erased(t, k), |data|)
    ensures TreeMap(Erased(t, k), data) == TreeMap(t, data) - {k}
  {
    StoredIdsIn(t, |data|);
    MapOfKeys(Elems(t), data);
    if t.Node? {
      var p := SearchPath(t, k);
      SearchEnds(t, k);
      var s := Splayed(t, p);
      SplitSides(t, k, p, s);
      if s.key == k {
        RootRemoved(s, k, data);
      } else {
        assert TreeMap(t, data) - {k} == TreeMap(t, data);
      }
    } else {
      assert TreeMap(t, data) - {k} == TreeMap(t, data);
    }
  }

  /** Merging the subtrees of a root holding `k` removes exactly `k`. */
  lemma RootRemoved<A, T>(s: Tree<A>, k: int, data: seq<T>)
    requires s.Node? && SearchTree(s) && s.key == k && Stored(s, |data|)
    ensures var u := Merged(s.left, s.right);
      SearchTree(u) && Ids(u) <= Ids(s) && Stored(u, |data|) &&
      TreeMap(u, data) == TreeMap(s, data) - {k}
  {
    StoredIdsIn(s, |data|);
    CutRoot(s, k);
    NodeKeys(s);
    IncreasingSkip(Keys(s.left), k, Keys(s.right));
    KeysOfAppend(Elems(s.left), Elems(s.right));
    MergedSpec(s.left, s.right);
    SplitMap(Elems(s), Ids(s), k, s.left, s.right, s.id, data);
    MapOfAppend(Elems(s.left), Elems(s.right), data);
    RemoveMid(MapOf(Elems(s.left), data), MapOf(Elems(s.right), data), k, data[s.id]);
  }
}
