/** OptimalBST (Optimal_Binary_Search_Tree/OptimalBST.h): a binary search tree
    built with the least weighted path length for given access frequencies,
    which then adapts: a successful search counts a visit at the node found
    and rotates it upward while that lowers the cached cost. */
module OptimalBSTs {
  import opened BinaryTrees
  import opened Arena
  import opened OptimalCosts

  /** The cache of Init after every interval of fewer than `len + 1` keys, and
      those of `len + 1` keys starting before `i`, were done, and the roots
      i, ..., r - 1 were tried for [i, i + len]: a finished cell holds the least
      cost and its first root, the current cell what the roots tried so far
      give, every other cell the UINT_MAX sentinel. */
  ghost predicate Filled(c: array2<Entry>, f: seq<nat>, len: int, i: int, r: int)
    reads c
  {
    c.Length0 == |f| && c.Length1 == |f| && 0 <= len && 0 <= i <= r <= i + len + 1 &&
    forall a, b :: 0 <= a < |f| && 0 <= b < |f| ==>
      c[a, b] ==
        if a <= b && (b - a < len || (b - a == len && a < i)) then Scan(Both, f, a, b + 1, b + 1)
        else if a == i && b == i + len then Scan(Both, f, a, b + 1, r)
        else Unset
  }

  /** A one-key interval: its only root, at the cost of its frequency. */
  lemma ScanOne(f: seq<nat>, a: int)
    requires 0 <= a < |f|
    ensures Scan(Both, f, a, a + 1, a + 1) == Entry(f[a], a)
  {
    assert Sum(f, a, a + 1) == f[a];
    assert Cand(Both, f, a, a + 1, a) == f[a];
  }

  /** The cache after the diagonal loop is the state before the intervals of two keys. */
  lemma FilledStart(c: array2<Entry>, f: seq<nat>)
    requires c.Length0 == |f| && c.Length1 == |f|
    requires forall a, b :: 0 <= a < |f| && 0 <= b < |f| ==>
      c[a, b] == if a == b then Entry(f[a], a) else Unset
    ensures Filled(c, f, 1, 0, 0)
  {
    forall a, b | 0 <= a < |f| && 0 <= b < |f|
      ensures c[a, b] ==
        if a <= b && (b - a < 1 || (b - a == 1 && a < 0)) then Scan(Both, f, a, b + 1, b + 1)
        else if a == 0 && b == 1 then Scan(Both, f, a, b + 1, 0)
        else Unset
    {
      if a == b { ScanOne(f, a); }
    }
  }

  /** The cost Init computes for the root `r` of [i, i + len] from the cells
      already finished is the candidate cost of that root. */
  lemma TryCost(c: array2<Entry>, f: seq<nat>, len: int, i: int, r: int)
    requires Filled(c, f, len, i, r) && r <= i + len < |f|
    ensures (r > i ==> c[i, r - 1].Entry?) && (r < i + len ==> c[r + 1, i + len].Entry?) &&
      (if r > i then c[i, r - 1].cost else 0) + (if r < i + len then c[r + 1, i + len].cost else 0) + Sum(f, i, i + len + 1)
      == Cand(Both, f, i, i + len + 1, r)
  {
    if r > i {
      assert c[i, r - 1] == Scan(Both, f, i, r, r);
    }
    if r < i + len {
      assert c[r + 1, i + len] == Scan(Both, f, r + 1, i + len + 1, i + len + 1);
    }
  }

  /** Once every root of [i, i + len] was tried, that cell is finished and the
      next interval of the same length starts. */
  lemma FilledCell(c: array2<Entry>, f: seq<nat>, len: int, i: int)
    requires Filled(c, f, len, i, i + len + 1) && i + len < |f|
    ensures Filled(c, f, len, i + 1, i + 1)
  {
  }

  /** Once every interval of `len + 1` keys is finished, the longer ones start. */
  lemma FilledLength(c: array2<Entry>, f: seq<nat>, len: int)
    requires Filled(c, f, len, |f| - len, |f| - len) && len < |f|
    ensures Filled(c, f, len + 1, 0, 0)
  {
  }

  /** The cache once Init's loops are done: every interval [a, b] holds its
      least cost and the first root that reaches it. */
  ghost predicate Solved(c: array2<Entry>, f: seq<nat>)
    reads c
  {
    c.Length0 == |f| && c.Length1 == |f| &&
    forall a, b :: 0 <= a <= b < |f| ==> c[a, b] == Scan(Both, f, a, b + 1, b + 1)
  }

  /** A node as Init allocates it: its key and frequency, cost 0, no links. */
  function Unlinked(k: int, freq: nat): Slot<Stat>
  {
    Slot(k, Stat(freq, 0), NIL, NIL, NIL)
  }

  /** The keys of the input pairs, in input order. */
  function KeysIn<T>(elements: seq<(int, T)>): (keys: seq<int>)
    ensures |keys| == |elements| && forall i :: 0 <= i < |elements| ==> keys[i] == elements[i].0
  {
    seq(|elements|, i requires 0 <= i < |elements| => elements[i].0)
  }

  /** The cells lo, ..., hi - 1 are still as Init allocated them. */
  ghost predicate FreshIn(s: seq<Slot<Stat>>, keys: seq<int>, f: seq<nat>, lo: int, hi: int)
  {
    |keys| == |f| == |s| && 0 <= lo <= hi <= |s| &&
    forall i :: lo <= i < hi ==> s[i] == Unlinked(keys[i], f[i])
  }

  /** `s'` differs from `s` at most in the cells lo, ..., hi - 1. */
  ghost predicate Outside(s: seq<Slot<Stat>>, s': seq<Slot<Stat>>, lo: int, hi: int)
  {
    |s'| == |s| && forall i :: 0 <= i < |s| && !(lo <= i < hi) ==> s'[i] == s[i]
  }

  /** buildTree's bookkeeping of untouched cells: after the root `r` of
      [lo, hi) took its cost and the left side [lo, r) was built, the right
      side is still fresh and the root cell still holds what was stored. */
  lemma BuildFrame(s0: seq<Slot<Stat>>, s1: seq<Slot<Stat>>, s2: seq<Slot<Stat>>, keys: seq<int>, f: seq<nat>, lo: int, r: int, hi: int)
    requires FreshIn(s0, keys, f, lo, hi) && lo <= r < hi
    requires |s1| == |s0| && forall i :: 0 <= i < |s0| && i != r ==> s1[i] == s0[i]
    ensures FreshIn(s1, keys, f, lo, r)
    ensures Outside(s1, s2, lo, r) ==> FreshIn(s2, keys, f, r + 1, hi) && s2[r] == s1[r] && Outside(s0, s2, lo, hi)
  {
  }

  /** Cells changed only inside two nested intervals changed only inside the outer one. */
  lemma OutsideTrans(s0: seq<Slot<Stat>>, s1: seq<Slot<Stat>>, s2: seq<Slot<Stat>>, lo: int, hi: int, lo': int, hi': int)
    requires Outside(s0, s1, lo, hi) && Outside(s1, s2, lo', hi') && lo <= lo' && hi' <= hi
    ensures Outside(s0, s2, lo, hi)
  {
  }

  /** Init's first loop: a node per input pair (its key, payload and
      frequency, cost 0, no links) and the one-key intervals of the cache. */
  method Allocate<T>(elements: seq<(int, T)>, frequency: seq<nat>) returns (nodes: seq<Slot<Stat>>, d: seq<T>, cache: array2<Entry>)
    requires |elements| == |frequency|
    ensures fresh(cache) && FreshIn(nodes, KeysIn(elements), frequency, 0, |nodes|)
    ensures |d| == |elements| && forall k :: 0 <= k < |d| ==> d[k] == elements[k].1
    ensures Filled(cache, frequency, 1, 0, 0)
  {
    var size := |elements|;
    ghost var keys := KeysIn(elements);
    nodes, d := [], [];
    cache := new Entry[size, size]((a, b) => Unset);
    var i := 0;
    while i < size
      invariant 0 <= i <= size && |nodes| == i && |d| == i
      invariant forall k :: 0 <= k < i ==> nodes[k] == Unlinked(keys[k], frequency[k]) && d[k] == elements[k].1
      invariant forall a, b :: 0 <= a < size && 0 <= b < size ==>
        cache[a, b] == if a == b && a < i then Entry(frequency[a], a) else Unset
    {
      nodes := nodes + [Unlinked(elements[i].0, frequency[i])];
      d := d + [elements[i].1];
      cache[i, i] := Entry(frequency[i], i);
      i := i + 1;
    }
    FilledStart(cache, frequency);
  }

  /** Init's innermost loop: every root of [i, i + length] is tried, and a
      strictly cheaper one replaces the cell's entry. */
  method TryRoots(cache: array2<Entry>, frequency: seq<nat>, length: int, i: int)
    requires Filled(cache, frequency, length, i, i) && i + length < |frequency|
    modifies cache
    ensures Filled(cache, frequency, length, i + 1, i + 1)
  {
    var j := i + length;
    var r := i;
    while r <= j
      invariant i <= r <= j + 1 && Filled(cache, frequency, length, i, r)
    {
      TryCost(cache, frequency, length, i, r);
      var cost := (if r > i then cache[i, r - 1].cost else 0) + (if r < j then cache[r + 1, j].cost else 0) + Sum(frequency, i, j + 1);
      if cache[i, j].Unset? || cost < cache[i, j].cost {
        cache[i, j] := Entry(cost, r);
      }
      r := r + 1;
    }
    FilledCell(cache, frequency, length, i);
  }

  /** Init's loops over the interval lengths 2, 3, ..., and the starts of
      each length: afterwards every interval holds its least cost and the
      first root reaching it. */
  method Tabulate(cache: array2<Entry>, frequency: seq<nat>)
    requires Filled(cache, frequency, 1, 0, 0)
    modifies cache
    ensures Solved(cache, frequency)
  {
    var size := |frequency|;
    var length := 1;
    while length < size
      invariant 1 <= length && (size > 0 ==> length <= size) && Filled(cache, frequency, length, 0, 0)
    {
      var i := 0;
      while i < size - length
        invariant 0 <= i <= size - length && Filled(cache, frequency, length, i, i)
      {
        TryRoots(cache, frequency, length, i);
        i := i + 1;
      }
      FilledLength(cache, frequency, length);
      length := length + 1;
    }
  }

  /** KeepParent on a node whose two sides are linked with no parent yet:
      the node's cell names both sides, and their roots name the node. */
  lemma LinkedJoin<A>(g: Tree<A>, s: seq<Slot<A>>, s': seq<Slot<A>>)
    requires g.Node? && Distinct(g) && Linked(g.left, NIL, s) && Linked(g.right, NIL, s)
    requires |s'| == |s| && g.id < |s| && s'[g.id] == Slot(g.key, g.info, NIL, Id(g.left), Id(g.right))
    requires g.left.Node? ==> s'[g.left.id] == s[g.left.id].(parent := g.id)
    requires g.right.Node? ==> s'[g.right.id] == s[g.right.id].(parent := g.id)
    requires forall i :: 0 <= i < |s| && i != g.id && i != Id(g.left) && i != Id(g.right) ==> s'[i] == s[i]
    ensures Linked(g, NIL, s')
  {
    if g.left.Node? {
      assert g.left.id != g.id && g.left.id !in Ids(g.right);
      LinkedReparent(g.left, NIL, s, g.id, s');
    }
    if g.right.Node? {
      assert g.right.id != g.id && g.right.id !in Ids(g.left);
      LinkedReparent(g.right, NIL, s, g.id, s');
    }
  }

  /** The built tree over a non-empty interval: its root is the cached root
      with the cached cost, its sides are built over the two sub-intervals,
      and their indices stay on their own side of the root. */
  lemma GrownNode(f: seq<nat>, keys: seq<int>, lo: int, hi: int, r: nat, cost: nat)
    requires 0 <= lo < hi <= |f| && |keys| == |f|
    requires Scan(Both, f, lo, hi, hi) == Entry(cost, r)
    ensures lo <= r < hi
    ensures Grown(f, keys, lo, hi) == Node(r, keys[r], Stat(f[r], cost), Grown(f, keys, lo, r), Grown(f, keys, r + 1, hi))
    ensures Distinct(Grown(f, keys, lo, hi))
    ensures forall i :: i in Ids(Grown(f, keys, lo, hi).left) ==> lo <= i < r
    ensures forall i :: i in Ids(Grown(f, keys, lo, hi).right) ==> r < i < hi
  {
    var g := Grown(f, keys, lo, hi);
    GrownSpec(f, keys, lo, hi);
    SpansDistinct(g, lo, hi);
    SpansDistinct(g.left, lo, g.id);
    SpansDistinct(g.right, g.id + 1, hi);
  }

  /** `root->left = ...; root->right = ...; KeepParent(root)` in the vector
      `nodes` of Init: the node `r` takes the two sides built for it, and
      they take it as their parent. */
  method Attach(nodes: seq<Slot<Stat>>, r: int, left: int, right: int, ghost g: Tree<Stat>) returns (nodes': seq<Slot<Stat>>)
    requires g.Node? && g.id == r && left == Id(g.left) && right == Id(g.right) && Distinct(g)
    requires Linked(g.left, NIL, nodes) && Linked(g.right, NIL, nodes)
    requires r < |nodes| && nodes[r] == Slot(g.key, g.info, NIL, NIL, NIL)
    ensures |nodes'| == |nodes| && Linked(g, NIL, nodes')
    ensures forall i :: 0 <= i < |nodes| && i != r && i != left && i != right ==> nodes'[i] == nodes[i]
  {
    nodes' := nodes[r := nodes[r].(left := left, right := right)];
    if left != NIL {
      nodes' := nodes'[left := nodes'[left].(parent := r)];
    }
    if right != NIL {
      nodes' := nodes'[right := nodes'[right].(parent := r)];
    }
    LinkedJoin(g, nodes, nodes');
  }

  /** buildTree(lo, hi - 1) over the vector `nodes`: the cached root of
      [lo, hi) takes the cached cost, its two sides are built below it, and
      KeepParent points the sides back at it.  Only the cells of the
      interval change, and they end up realising the tree Grown describes. */
  method Build(nodes: seq<Slot<Stat>>, c: array2<Entry>, ghost f: seq<nat>, ghost keys: seq<int>, lo: int, hi: int, ghost g: Tree<Stat>)
      returns (nodes': seq<Slot<Stat>>, r: int)
    requires Solved(c, f) && FreshIn(nodes, keys, f, lo, hi) && g == Grown(f, keys, lo, hi)
    ensures Outside(nodes, nodes', lo, hi) && Linked(g, NIL, nodes') && r == Id(g)
    decreases hi - lo
  {
    if lo == hi {
      return nodes, NIL;
    }
    var e := c[lo, hi - 1];
    assert e == Scan(Both, f, lo, hi, hi);
    r := e.root;
    GrownNode(f, keys, lo, hi, r, e.cost);
    var s1 := nodes[r := nodes[r].(info := nodes[r].info.(cost := e.cost))];
    BuildFrame(nodes, s1, s1, keys, f, lo, r, hi);
    var s2, left := Build(s1, c, f, keys, lo, r, g.left);
    BuildFrame(nodes, s1, s2, keys, f, lo, r, hi);
    var s3, right := Build(s2, c, f, keys, r + 1, hi, g.right);
    LinkedKeep(g.left, NIL, s2, s3);
    OutsideTrans(nodes, s2, s3, lo, hi, r + 1, hi);
    nodes' := Attach(s3, r, left, right, g);
  }

  class OptimalBST<T> {
    var slots: seq<Slot<Stat>>
    var data: seq<T>
    var root: int
    ghost var tree: Tree<Stat>

    /** The links realise `tree`, whose ids are distinct; `root` is its root. */
    ghost predicate LinkInv()
      reads this
    {
      Linked(tree, NIL, slots) && Distinct(tree) && root == Id(tree) && |data| == |slots|
    }

    /** ... and every node caches the weighted path length of its subtree. */
    ghost predicate Valid()
      reads this
    {
      LinkInv() && Exact(tree)
    }

    /** The node with index `x` sits at path `p`. */
    ghost predicate IsAt(x: int, p: Path)
      reads this
    {
      At(tree, p).Node? && At(tree, p).id == x
    }

    /** The (key, payload) pairs in order. */
    ghost function Contents(): seq<(int, T)>
      reads this
      requires LinkInv()
    {
      LinkedIds(tree, NIL, slots);
      ElemIds(tree);
      var e, d := Elems(tree), data;
      seq(|e|, i requires 0 <= i < |e| => (e[i].1, d[e[i].0]))
    }

    /** OptimalBST(): the empty tree. */
    constructor ()
      ensures Valid() && Contents() == [] && root == NIL
    {
      slots, data, root := [], [], NIL;
      tree := Leaf;
    }

    // -------------------------------------------------------------------
    // Node helpers

    /** Cost(node): the cached cost, 0 for a null node; with exact caches it
        is the subtree's weighted path length. */
    function Cost(c: int, ghost p: Path): (r: int)
      reads this
      requires LinkInv() && Reaches(tree, p) && c == Id(At(tree, p))
      ensures r == CostOf(At(tree, p))
      ensures Exact(At(tree, p)) ==> r == TreeCost(At(tree, p))
    {
      if c == NIL then 0
      else
        NodeInArena(tree, slots, p);
        VisitMass(At(tree, p));
        slots[c].info.cost
    }

    /** visitCount(), 0 for a null node: the node's cost less its children's;
        with exact caches it is the total frequency of the subtree. */
    function VisitCount(c: int, ghost p: Path): (r: int)
      reads this
      requires LinkInv() && Reaches(tree, p) && c == Id(At(tree, p))
      ensures r == Visit(At(tree, p))
      ensures Exact(At(tree, p)) ==> r == Mass(At(tree, p))
    {
      if c == NIL then 0
      else
        NodeInArena(tree, slots, p);
        AtChild(tree, p, L);
        AtChild(tree, p, R);
        VisitMass(At(tree, p));
        slots[c].info.cost - Cost(slots[c].left, p + [L]) - Cost(slots[c].right, p + [R])
    }

    /** The altCost and altParentCost that Optimize computes for the parent
        `y` at `q` and its child on side `e`. */
    function AltCosts(y: int, e: Dir, ghost q: Path): (r: (int, int))
      reads this
      requires LinkInv() && IsAt(y, q) && Child(At(tree, q), e).Node?
      ensures r == (AltCost(At(tree, q), e), AltParentCost(At(tree, q), e))
    {
      NodeInArena(tree, slots, q);
      AtChild(tree, q, e);
      AtChild(tree, q, Other(e));
      NodeInArena(tree, slots, q + [e]);
      AtChild(tree, q + [e], e);
      AtChild(tree, q + [e], Other(e));
      var n := Link(slots[y], e);
      var inner, outer, sib := Link(slots[n], Other(e)), Link(slots[n], e), Link(slots[y], Other(e));
      var altParent := slots[y].info.freq +
        VisitCount(inner, q + [e] + [Other(e)]) + VisitCount(sib, q + [Other(e)]) +
        Cost(inner, q + [e] + [Other(e)]) + Cost(sib, q + [Other(e)]);
      (VisitCount(y, q) + Cost(outer, q + [e] + [e]) + altParent, altParent)
    }

    /** Storing new counters in the node `x` at `p` (freq++ and cost++, or an
        assignment to cost). */
    method SetStat(x: int, a: Stat, ghost p: Path)
      requires LinkInv() && IsAt(x, p)
      modifies this
      ensures LinkInv() && tree == Put(old(tree), p, old(At(tree, p)).(info := a))
      ensures Reaches(tree, p) && IsAt(x, p) && At(tree, p) == old(At(tree, p)).(info := a)
      ensures 0 <= x < |old(slots)| && slots == old(slots)[x := old(slots)[x].(info := a)]
      ensures data == old(data) && root == old(root)
      ensures Elems(tree) == old(Elems(tree))
      ensures a.freq == old(slots)[x].info.freq ==> Counters(slots) == Counters(old(slots))
    {
      NodeInArena(tree, slots, p);
      var u := At(tree, p);
      if a.freq == slots[x].info.freq { CountersKeep(slots, slots[x := slots[x].(info := a)]); }
      LinkedRelabel(tree, slots, p, slots[x].key, a);
      assert u.(key := slots[x].key, info := a) == u.(info := a);
      DistinctAt(tree, p);
      DistinctPut(tree, p, u.(info := a));
      ElemsPut(tree, p, u.(info := a));
      AtPut(tree, p, u.(info := a));
      if p != [] { PutKeepsRoot(tree, p, u.(info := a)); }
      slots := slots[x := slots[x].(info := a)];
      tree := Put(tree, p, u.(info := a));
    }

    /** SetParent(child, parent): a null child is skipped. */
    method SetParent(child: int, parent: int)
      requires child == NIL || 0 <= child < |slots|
      modifies this
      ensures slots == if child == NIL then old(slots) else old(slots)[child := old(slots)[child].(parent := parent)]
      ensures data == old(data) && root == old(root) && tree == old(tree)
    {
      if child != NIL {
        slots := slots[child := slots[child].(parent := parent)];
      }
    }

    // -------------------------------------------------------------------
    // Rotations

    /** The pointer updates of RotateLeft (`d == L`) and RotateRight (`d == R`),
        in the source's order: the pivot takes the node's parent, the
        grandparent's link (or `root`) moves to the pivot, the pivot's inner
        child moves over to the node, and the node goes under the pivot. */
    method Relink(x: int, d: Dir)
      requires 0 <= x < |slots| && 0 <= Link(slots[x], Other(d)) < |slots|
      requires slots[x].parent != NIL ==> 0 <= slots[x].parent < |slots|
      requires var b := Link(slots[Link(slots[x], Other(d))], d); b != NIL ==> 0 <= b < |slots|
      modifies this
      ensures slots == RotateCells(old(slots), x, d)
      ensures root == if old(slots)[x].parent == NIL then Link(old(slots)[x], Other(d)) else old(root)
      ensures data == old(data) && tree == old(tree)
    {
      var y := Link(slots[x], Other(d));
      var b := Link(slots[y], d);
      var par := slots[x].parent;
      slots := slots[y := slots[y].(parent := par)];
      if par != NIL {
        if slots[par].left == x {
          slots := slots[par := slots[par].(left := y)];
        } else {
          slots := slots[par := slots[par].(right := y)];
        }
      } else {
        root := y;
      }
      slots := slots[x := SetLink(slots[x], Other(d), b)];
      if b != NIL {
        slots := slots[b := slots[b].(parent := x)];
      }
      slots := slots[x := slots[x].(parent := y)];
      slots := slots[y := SetLink(slots[y], d, x)];
    }

    /** RotateLeft (`d == L`) / RotateRight (`d == R`) at the node at `p`: the
        child on the other side rises into its place; keys and counters of
        every cell stay, and `root` changes only when the node was the root. */
    method Rotate(x: int, d: Dir, ghost p: Path)
      requires LinkInv() && IsAt(x, p) && Child(At(tree, p), Other(d)).Node?
      modifies this
      ensures LinkInv() && tree == RotAt(old(tree), p, d)
      ensures Reaches(tree, p) && At(tree, p) == Rot(old(At(tree, p)), d)
      ensures Elems(tree) == old(Elems(tree))
      ensures data == old(data) && |slots| == |old(slots)|
      ensures Counters(slots) == Counters(old(slots))
    {
      ghost var t, s := tree, slots;
      AtNodeReaches(tree, p);
      LinkedRotateCells(tree, slots, p, d);
      Relink(x, d);
      tree := RotAt(t, p, d);
      RotAtElemsOf(t, p, d);
      if p != [] { PutKeepsRoot(t, p, Rot(At(t, p), d)); }
      forall i | 0 <= i < |slots| ensures slots[i].key == s[i].key && slots[i].info == s[i].info {
        RotateCellsKeep(s, x, d, i);
      }
      CountersKeep(s, slots);
    }

    // -------------------------------------------------------------------
    // Init

    /** Init(elements, frequency), the constructor's work: a size mismatch
        throws and leaves the object as it was; otherwise every interval of
        keys gets its least cost and root in the cache (by growing length),
        and buildTree links the nodes into the tree the cache describes.
        That tree caches its costs exactly, keeps the input order, and no
        search tree over the same keys and frequencies costs less. */
    method Init(elements: seq<(int, T)>, frequency: seq<nat>) returns (thrown: bool)
      modifies this
      ensures thrown <==> |elements| != |frequency|
      ensures thrown ==> slots == old(slots) && data == old(data) && root == old(root) && tree == old(tree)
      ensures !thrown ==> Valid() && Contents() == elements
      ensures !thrown ==> tree == Grown(frequency, KeysIn(elements), 0, |frequency|)
      ensures !thrown ==> Spans(tree, 0, |frequency|) && Labelled(tree, frequency)
      ensures !thrown ==> forall t :: Spans(t, 0, |frequency|) && Labelled(t, frequency) ==> TreeCost(tree) <= TreeCost(t)
    {
      if |elements| != |frequency| {
        return true;
      }
      thrown := false;
      var size := |elements|;
      ghost var keys := KeysIn(elements);
      ghost var g := Grown(frequency, keys, 0, size);
      GrownSpec(frequency, keys, 0, size);
      SpansDistinct(g, 0, size);
      GrownElems(frequency, keys, 0, size);
      forall t | Spans(t, 0, size) && Labelled(t, frequency) ensures TreeCost(g) <= TreeCost(t) {
        OptLeast(t, frequency, 0, size);
      }
      if size == 0 {
        slots, data, root := [], [], NIL;
        tree := g;
        return;
      }
      var nodes, d, cache := Allocate(elements, frequency);
      Tabulate(cache, frequency);
      var built, top := Build(nodes, cache, frequency, keys, 0, size, g);
      slots, data, root := built, d, top;
      tree := g;
    }

    // -------------------------------------------------------------------
    // Optimize and Find

    /** The first step of Optimize: `node->parent->cost += costInc + 1`, after
        which the parent's cache is exact and the increment one level up is
        `costInc + 1`. */
    method Raise(x: int, inc: int, ghost p: Path) returns (par: int, e: Dir)
      requires LinkInv() && IsAt(x, p) && Pending(tree, p, inc) && p != []
      modifies this
      ensures LinkInv() && IsAt(x, p) && IsAt(par, Parent(p)) && Pending(tree, Parent(p), inc + 1)
      ensures e == Last(p) && Child(At(tree, Parent(p)), e) == At(tree, p)
      ensures 0 <= par < |slots| && slots[par].info.cost == At(tree, Parent(p)).info.cost
      ensures Elems(tree) == old(Elems(tree)) && Mass(tree) == old(Mass(tree))
      ensures TreeCost(tree) == old(TreeCost(tree))
      ensures data == old(data) && Counters(slots) == Counters(old(slots))
    {
      ghost var q := Parent(p);
      RaisePending(tree, p, inc);
      ParentAt(tree, p);
      NodeInArena(tree, slots, p);
      NodeInArena(tree, slots, q);
      par := slots[x].parent;
      e := if slots[par].left == x then L else R;
      SetStat(par, slots[par].info.(cost := slots[par].info.cost + inc + 1), q);
      AtChild(tree, q, e);
      assert p == q + [e];
      NodeInArena(tree, slots, p);
    }

    /** The rotation branch of Optimize: the child `x` on side `e` rises above
        `par` at `q` (RotateRight for a left child, RotateLeft for a right
        one), then `node->cost = altCost; parent->cost = altParentCost`. */
    method Lift(x: int, par: int, e: Dir, alt: int, altParent: int, ghost q: Path)
      requires LinkInv() && IsAt(par, q)
      requires Child(At(tree, q), e).Node? && Child(At(tree, q), e).id == x
      requires alt == AltCost(At(tree, q), e) && altParent == AltParentCost(At(tree, q), e)
      modifies this
      ensures LinkInv() && tree == Put(old(tree), q, Turned(old(At(tree, q)), e))
      ensures data == old(data) && Counters(slots) == Counters(old(slots))
    {
      ghost var t1 := tree;
      AtNodeReaches(tree, q);
      TurnedPut(t1, q, e);
      Rotate(par, Other(e), q);
      NodeInArena(tree, slots, q);
      SetStat(x, slots[x].info.(cost := alt), q);
      AtChild(tree, q, Other(e));
      NodeInArena(tree, slots, q + [Other(e)]);
      SetStat(par, slots[par].info.(cost := altParent), q + [Other(e)]);
    }

    /** The rotation branch with its bookkeeping: after the turn the place
        `q` holds `x`, and the cost there changed by `alt - cost`. */
    method Turn(x: int, par: int, e: Dir, h: int, alt: int, altParent: int, ghost q: Path) returns (grown: int)
      requires LinkInv() && IsAt(par, q) && Pending(tree, q, h)
      requires Child(At(tree, q), e).Node? && Child(At(tree, q), e).id == x
      requires alt == AltCost(At(tree, q), e) && altParent == AltParentCost(At(tree, q), e)
      requires alt < At(tree, q).info.cost
      modifies this
      ensures LinkInv() && IsAt(x, q) && Pending(tree, q, grown)
      ensures grown == h + alt - old(At(tree, q).info.cost)
      ensures Elems(tree) == old(Elems(tree)) && Mass(tree) == old(Mass(tree))
      ensures TreeCost(tree) < old(TreeCost(tree))
      ensures data == old(data) && Counters(slots) == Counters(old(slots))
    {
      NodeInArena(tree, slots, q);
      grown := h + alt - slots[par].info.cost;
      TurnPending(tree, q, h, e);
      Lift(x, par, e, alt, altParent, q);
    }

    /** One level of Optimize at the node `x` at `p`, which has a parent: the
        parent's cost grows, and the node rises above it when that pays.  The
        walk goes on from what is now at the parent's place, with the
        increment that place's cost really grew by. */
    method Step(x: int, inc: int, ghost p: Path) returns (next: int, grown: int, ghost q: Path)
      requires LinkInv() && IsAt(x, p) && Pending(tree, p, inc) && p != []
      modifies this
      ensures q == Parent(p) && LinkInv() && IsAt(next, q) && Pending(tree, q, grown)
      ensures Elems(tree) == old(Elems(tree)) && Mass(tree) == old(Mass(tree))
      ensures TreeCost(tree) <= old(TreeCost(tree))
      ensures data == old(data) && Counters(slots) == Counters(old(slots))
    {
      q := Parent(p);
      var par, e := Raise(x, inc, p);
      var ac := AltCosts(par, e, q);
      if slots[par].info.cost > ac.0 {
        grown := Turn(x, par, e, inc + 1, ac.0, ac.1, q);
        next := x;
      } else {
        grown := inc + 1;
        next := par;
      }
    }

    /** Optimize(node, costInc), with the increment passed up after a rotation
        corrected to what the subtree's cost really grew by: each parent on the
        way up adds the pending increment plus one to its cost, and its child
        rises above it whenever the rotated subtree would cost less.  Every
        cost cache ends exact, the order and the frequencies stay, and the
        tree's weighted path length never grows. */
    method Optimize(x: int, inc: int, ghost p: Path)
      requires LinkInv() && IsAt(x, p) && Pending(tree, p, inc)
      modifies this
      ensures Valid()
      ensures Elems(tree) == old(Elems(tree)) && Mass(tree) == old(Mass(tree))
      ensures TreeCost(tree) <= old(TreeCost(tree))
      ensures data == old(data) && Counters(slots) == Counters(old(slots))
      decreases |p|
    {
      NodeInArena(tree, slots, p);
      if slots[x].parent != NIL {
        var next, grown, q := Step(x, inc, p);
        Optimize(next, grown, q);
      }
    }

    /** The node found counts the visit (`freq++; cost++`) and Optimize(node)
        starts there with increment 1: the weighted path length grows by at
        most the node's depth. */
    method Hit(x: int, ghost p: Path)
      requires Valid() && IsAt(x, p)
      modifies this
      ensures Valid() && Elems(tree) == old(Elems(tree)) && data == old(data) && |slots| == |old(slots)|
      ensures 0 <= x < |slots|
      ensures forall i :: 0 <= i < |slots| ==>
        slots[i].key == old(slots[i].key) &&
        slots[i].info.freq == old(slots[i].info.freq) + (if i == x then 1 else 0)
      ensures TreeCost(tree) <= old(TreeCost(tree)) + |p| + 1
    {
      NodeInArena(tree, slots, p);
      BumpPending(tree, p);
      SetStat(x, Stat(slots[x].info.freq + 1, slots[x].info.cost + 1), p);
      Optimize(x, 1, p);
    }

    /** Find(node, key): the search from the node `x` at `p`; the node found
        counts a visit and is optimized upward.  On an ordered tree the search
        fails exactly when the key is absent. */
    method FindFrom(x: int, key: int, ghost p: Path) returns (r: int)
      requires Valid() && Reaches(tree, p) && x == Id(At(tree, p))
      modifies this
      ensures Valid() && Elems(tree) == old(Elems(tree)) && data == old(data) && |slots| == |old(slots)|
      ensures r == NIL ==> slots == old(slots) && tree == old(tree) && root == old(root)
      ensures r != NIL ==> 0 <= r < |slots| && slots[r].key == key && key in old(Keys(At(tree, p)))
      ensures forall i :: 0 <= i < |slots| ==>
        slots[i].key == old(slots[i].key) &&
        slots[i].info.freq == old(slots[i].info.freq) + (if i == r then 1 else 0)
      ensures Ordered(old(At(tree, p))) ==> (r != NIL <==> key in old(Keys(At(tree, p))))
      decreases Count(At(tree, p))
    {
      if x == NIL {
        return NIL;
      }
      NodeInArena(tree, slots, p);
      ghost var u := At(tree, p);
      KeysNode(u);
      if slots[x].key < key {
        AtChild(tree, p, R);
        r := FindFrom(slots[x].right, key, p + [R]);
        if Ordered(u) && key in Keys(u) { FindStep(u, key); }
      } else if slots[x].key > key {
        AtChild(tree, p, L);
        r := FindFrom(slots[x].left, key, p + [L]);
        if Ordered(u) && key in Keys(u) { FindStep(u, key); }
      } else {
        Hit(x, p);
        r := x;
      }
    }

    /** Find(key): the search from the root; the source's second key
        comparison never rejects what the search returns. */
    method Find(key: int) returns (r: int)
      requires Valid()
      modifies this
      ensures Valid() && Contents() == old(Contents()) && |slots| == |old(slots)|
      ensures r != NIL ==> 0 <= r < |slots| && slots[r].key == key
      ensures r == NIL ==> slots == old(slots) && tree == old(tree) && root == old(root)
      ensures forall i :: 0 <= i < |slots| ==>
        slots[i].key == old(slots[i].key) &&
        slots[i].info.freq == old(slots[i].info.freq) + (if i == r then 1 else 0)
      ensures Ordered(old(tree)) ==> (r != NIL <==> key in old(Keys(tree))) && Ordered(tree)
    {
      r := FindFrom(root, key, []);
      if r != NIL && slots[r].key != key {
        r := NIL;
      }
    }

    /** InOrder(node, func): the nodes below `x` in key order. */
    method InOrder(x: int, ghost p: Path) returns (visited: seq<int>)
      requires LinkInv() && Reaches(tree, p) && x == Id(At(tree, p))
      ensures |visited| == |Elems(At(tree, p))|
      ensures forall i :: 0 <= i < |visited| ==> visited[i] == Elems(At(tree, p))[i].0
      decreases Count(At(tree, p))
    {
      visited := [];
      if x != NIL {
        NodeInArena(tree, slots, p);
        AtChild(tree, p, L);
        AtChild(tree, p, R);
        var a := InOrder(slots[x].left, p + [L]);
        var b := InOrder(slots[x].right, p + [R]);
        visited := a + [x] + b;
        ghost var u := At(tree, p);
        assert Elems(u) == Elems(u.left) + [(x, u.key)] + Elems(u.right);
      }
    }
  }

  /** The key and the frequency of every cell. */
  function Counters(s: seq<Slot<Stat>>): (r: seq<(int, nat)>)
    ensures |r| == |s| && forall i :: 0 <= i < |s| ==> r[i] == (s[i].key, s[i].info.freq)
  {
    seq(|s|, i requires 0 <= i < |s| => (s[i].key, s[i].info.freq))
  }

  /** Cells with the same keys and frequencies have the same counters. */
  lemma CountersKeep(s: seq<Slot<Stat>>, s': seq<Slot<Stat>>)
    requires |s'| == |s| && forall i :: 0 <= i < |s| ==> s'[i].key == s[i].key && s'[i].info.freq == s[i].info.freq
    ensures Counters(s') == Counters(s)
  {
  }

  /** A rotation changes links only: every cell keeps its key and counters. */
  lemma RotateCellsKeep<A>(s: seq<Slot<A>>, x: int, d: Dir, i: int)
    requires 0 <= x < |s| && 0 <= Link(s[x], Other(d)) < |s|
    requires s[x].parent != NIL ==> 0 <= s[x].parent < |s|
    requires Link(s[Link(s[x], Other(d))], d) != NIL ==> 0 <= Link(s[Link(s[x], Other(d))], d) < |s|
    requires 0 <= i < |s|
    ensures |RotateCells(s, x, d)| == |s|
    ensures RotateCells(s, x, d)[i].key == s[i].key && RotateCells(s, x, d)[i].info == s[i].info
  {
  }
}
