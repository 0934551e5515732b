/** OptimalBSTree (Optimal_Binary_Search_Tree/Optimal_Tree.h): a static
    binary search tree built once with the least weighted path length for
    given access frequencies, then only searched.  Its Init fills the same
    interval table as OptimalBST's and links the nodes while it does so. */
module OptimalTrees {
  import opened BinaryTrees
  import opened OptimalCosts
  import opened Arena
  import opened OptimalBSTs

  class OptimalBSTree<T> {
    var slots: seq<Slot<Stat>>
    var data: seq<T>
    var root: int
    ghost var tree: Tree<Stat>

    /** The links realise `tree`, whose ids are distinct; `root` is its root;
        every node caches the weighted path length of its subtree. */
    ghost predicate Valid()
      reads this
    {
      Linked(tree, NIL, slots) && Distinct(tree) && root == Id(tree) && |data| == |slots| && Exact(tree)
    }

    /** The (key, payload) pairs in order. */
    ghost function Contents(): seq<(int, T)>
      reads this
      requires Valid()
    {
      LinkedIds(tree, NIL, slots);
      ElemIds(tree);
      var e, d := Elems(tree), data;
      seq(|e|, i requires 0 <= i < |e| => (e[i].1, d[e[i].0]))
    }

    /** Init(elements, frequency), the constructor's work, with the cost of a
        root adding both of its sides and the links made once the table is
        complete: a size mismatch throws and leaves the object as it was;
        otherwise the tree built keeps the input order, caches its costs
        exactly, and no search tree over the same keys and frequencies
        costs less. */
    method Init(elements: seq<(int, T)>, frequency: seq<nat>) returns (thrown: bool)
      modifies this
      ensures thrown <==> |elements| != |frequency|
      ensures thrown ==> slots == old(slots) && data == old(data) && root == old(root) && tree == old(tree)
      ensures !thrown ==> Valid() && Contents() == elements
      ensures !thrown ==> tree == Grown(frequency, KeysIn(elements), 0, |frequency|)
      ensures !thrown ==> Spans(tree, 0, |frequency|) && Labelled(tree, frequency)
      ensures !thrown ==> forall t :: Spans(t, 0, |frequency|) && Labelled(t, frequency) ==> TreeCost(tree) <= TreeCost(t)
    {
      if |elements| != |frequency| {
        return true;
      }
      thrown := false;
      var size := |elements|;
      ghost var keys := KeysIn(elements);
      ghost var g := Grown(frequency, keys, 0, size);
      GrownSpec(frequency, keys, 0, size);
      SpansDistinct(g, 0, size);
      GrownElems(frequency, keys, 0, size);
      forall t | Spans(t, 0, size) && Labelled(t, frequency) ensures TreeCost(g) <= TreeCost(t) {
        OptLeast(t, frequency, 0, size);
      }
      if size == 0 {
        slots, data, root := [], [], NIL;
        tree := g;
        return;
      }
      var nodes, d, cache := Allocate(elements, frequency);
      Tabulate(cache, frequency);
      var built, top := Build(nodes, cache, frequency, keys, 0, size, g);
      slots, data, root := built, d, top;
      tree := g;
    }

    /** Cost(node): the cached cost, 0 for a null node; the subtree's
        weighted path length. */
    function Cost(c: int, ghost p: Path): (r: int)
      reads this
      requires Valid() && Reaches(tree, p) && c == Id(At(tree, p))
      ensures r == TreeCost(At(tree, p))
    {
      if c == NIL then 0
      else
        NodeInArena(tree, slots, p);
        ExactAt(tree, p);
        VisitMass(At(tree, p));
        slots[c].info.cost
    }

    /** Find(node, key): right past smaller keys, left past greater ones.  A
        node it returns holds the key; on an ordered tree it returns null
        exactly when the key is absent. */
    function FindFrom(x: int, key: int, ghost p: Path): (r: int)
      reads this
      requires Valid() && Reaches(tree, p) && x == Id(At(tree, p))
      ensures r != NIL ==> 0 <= r < |slots| && slots[r].key == key && key in Keys(At(tree, p))
      ensures Ordered(At(tree, p)) ==> (r != NIL <==> key in Keys(At(tree, p)))
      decreases Count(At(tree, p))
    {
      if x == NIL then NIL
      else
        NodeInArena(tree, slots, p);
        KeysNode(At(tree, p));
        AtChild(tree, p, L);
        AtChild(tree, p, R);
        if slots[x].key < key then
          FindStepOf(At(tree, p), key);
          FindFrom(slots[x].right, key, p + [R])
        else if slots[x].key > key then
          FindStepOf(At(tree, p), key);
          FindFrom(slots[x].left, key, p + [L])
        else x
    }

    /** Find(key): the search from the root; the second key comparison never
        rejects what the search returns. */
    method Find(key: int) returns (r: int)
      requires Valid()
      ensures r != NIL ==> 0 <= r < |slots| && slots[r].key == key && key in Keys(tree)
      ensures Ordered(tree) ==> (r != NIL <==> key in Keys(tree))
    {
      r := FindFrom(root, key, []);
      if r != NIL && slots[r].key != key {
        r := NIL;
      }
    }

    /** InOrder(node, func): the nodes below `x` in key order. */
    function InOrder(x: int, ghost p: Path): (visited: seq<int>)
      reads this
      requires Valid() && Reaches(tree, p) && x == Id(At(tree, p))
      ensures |visited| == |Elems(At(tree, p))|
      ensures forall i :: 0 <= i < |visited| ==> visited[i] == Elems(At(tree, p))[i].0
      decreases Count(At(tree, p))
    {
      if x == NIL then []
      else
        NodeInArena(tree, slots, p);
        AtChild(tree, p, L);
        AtChild(tree, p, R);
        InOrder(slots[x].left, p + [L]) + [x] + InOrder(slots[x].right, p + [R])
    }
  }

  /** Find's step on an ordered tree: a key that is in it but not at its root
      is in the subtree the search moves to. */
  lemma FindStepOf<A>(t: Tree<A>, k: int)
    requires t.Node? && t.key != k
    ensures Ordered(t) && k in Keys(t) ==>
      k in Keys(Child(t, if t.key < k then R else L)) && Ordered(Child(t, if t.key < k then R else L))
  {
    if Ordered(t) && k in Keys(t) { FindStep(t, k); }
  }

  /** Exact caches hold below every node too. */
  lemma {:induction false} ExactAt(t: Tree<Stat>, p: Path)
    requires Exact(t)
    ensures Exact(At(t, p))
    decreases |p|
  {
    if p != [] && t.Node? {
      ExactAt(Child(t, p[0]), p[1..]);
    }
  }

  // ---------------------------------------------------------------------
  // Init as written

  /** The cost the cache holds for an interval not reached yet. */
  const UINT_MAX: nat := 0xFFFF_FFFF

  /** The state Init works on: the nodes (key, cost and links; the payload
      plays no part) and the cache of (cost, root node) pairs. */
  datatype Table = Table(nodes: seq<Slot<nat>>, cache: seq<seq<Entry>>)

  /** An index that is null or names one of the `n` nodes. */
  predicate InArena(x: int, n: nat)
  {
    x == NIL || 0 <= x < n
  }

  /** `n` nodes, an `n` by `n` cache, and every pointer names a node or is null. */
  ghost predicate Shaped(t: Table, n: nat)
  {
    |t.nodes| == n && |t.cache| == n &&
    (forall a :: 0 <= a < n ==> |t.cache[a]| == n) &&
    (forall a, b :: 0 <= a < n && 0 <= b < n && t.cache[a][b].Entry? ==> t.cache[a][b].root < n) &&
    (forall k :: 0 <= k < n ==> InArena(t.nodes[k].left, n) && InArena(t.nodes[k].right, n))
  }

  /** `cache[a][b].first`: UINT_MAX for a cell not reached yet. */
  function Held(e: Entry): nat
  {
    if e.Unset? then UINT_MAX else e.cost
  }

  /** `cache[a][b].second`: null for a cell not reached yet. */
  function Target(e: Entry): int
  {
    if e.Unset? then NIL else e.root
  }

  /** The nodes as Init allocates them, and the cache with its diagonal set. */
  function InitialTable(keys: seq<int>, f: seq<nat>): (t: Table)
    requires |keys| == |f|
    ensures Shaped(t, |f|)
  {
    var n := |f|;
    Table(seq(n, k requires 0 <= k < n => Slot(keys[k], 0, NIL, NIL, NIL)),
          seq(n, a requires 0 <= a < n => seq(n, b requires 0 <= b < n => if a == b then Entry(f[a], a) else Unset)))
  }

  /** The body of the innermost loop: the cost of the root `r` of [i, j] adds
      the frequencies to what the conditional expression yields, which is the
      left part's cost when there is a left part and the right part's only
      otherwise; a strictly cheaper root takes the cell, and its node is
      linked at once to the roots the cache holds for its two sides. */
  function TryAsWritten(t: Table, f: seq<nat>, i: int, j: int, r: int): (t': Table)
    requires Shaped(t, |f|) && 0 <= i <= r <= j < |f|
    ensures Shaped(t', |f|)
  {
    var c := t.cache;
    var cost := Sum(f, i, j + 1) + (if r > i then Held(c[i][r - 1]) else if r < j then Held(c[r + 1][j]) else 0);
    if cost < Held(c[i][j]) then
      var n := t.nodes[r].(left := if r > i then Target(c[i][r - 1]) else NIL,
                           right := if r < j then Target(c[r + 1][j]) else NIL,
                           info := cost);
      Table(t.nodes[r := n], c[i := c[i][j := Entry(cost, r)]])
    else t
  }

  /** KeepParent(node) for the node the cache holds, null included. */
  function KeepParentAsWritten(t: Table, x: int): (t': Table)
    requires Shaped(t, |t.nodes|) && InArena(x, |t.nodes|)
    ensures Shaped(t', |t.nodes|) && |t'.nodes| == |t.nodes|
  {
    if x == NIL then t
    else
      var l, r := t.nodes[x].left, t.nodes[x].right;
      var s1 := if l == NIL then t.nodes else t.nodes[l := t.nodes[l].(parent := x)];
      var s2 := if r == NIL then s1 else s1[r := s1[r].(parent := x)];
      t.(nodes := s2)
  }

  /** The roots r, ..., j of [i, j] tried in turn. */
  function RootsAsWritten(t: Table, f: seq<nat>, i: int, j: int, r: int): (t': Table)
    requires Shaped(t, |f|) && 0 <= i <= r <= j + 1 && j < |f|
    ensures Shaped(t', |f|)
    decreases j + 1 - r
  {
    if r > j then t else RootsAsWritten(TryAsWritten(t, f, i, j, r), f, i, j, r + 1)
  }

  /** One interval [i, j]: its roots tried in turn, then KeepParent on the
      root node the cache ends with. */
  function IntervalAsWritten(t: Table, f: seq<nat>, i: int, j: int): (t': Table)
    requires Shaped(t, |f|) && 0 <= i <= j < |f|
    ensures Shaped(t', |f|)
  {
    var t1 := RootsAsWritten(t, f, i, j, i);
    KeepParentAsWritten(t1, Target(t1.cache[i][j]))
  }

  /** The intervals [i, i + len], ... of one length.  */
  function RowsAsWritten(t: Table, f: seq<nat>, len: int, i: int): (t': Table)
    requires Shaped(t, |f|) && 0 <= len && 0 <= i <= |f| - len
    ensures Shaped(t', |f|)
    decreases |f| - len - i
  {
    if i == |f| - len then t else RowsAsWritten(IntervalAsWritten(t, f, i, i + len), f, len, i + 1)
  }

  /** The lengths len, len + 1, ..., |f| - 1. */
  function LengthsAsWritten(t: Table, f: seq<nat>, len: int): (t': Table)
    requires Shaped(t, |f|) && 1 <= len
    ensures Shaped(t', |f|)
    decreases |f| - len
  {
    if len >= |f| then t else LengthsAsWritten(RowsAsWritten(t, f, len, 0), f, len + 1)
  }

  /** Init as Optimal_Tree.h writes it: the nodes with their links, and the
      root node, `cache[0][size - 1].second` (null for no elements). */
  function InitAsWritten(keys: seq<int>, f: seq<nat>): (r: (seq<Slot<nat>>, int))
    requires |keys| == |f|
    ensures |r.0| == |f| && InArena(r.1, |f|)
  {
    if |f| == 0 then ([], NIL)
    else
      var t := LengthsAsWritten(InitialTable(keys, f), f, 1);
      (t.nodes, Target(t.cache[0][|f| - 1]))
  }

  /** Trying the roots of [i, j] changes no other cell of the cache and no
      link or cost of a node outside [i, j]. */
  lemma {:induction false} RootsFrame(t: Table, f: seq<nat>, i: int, j: int, r: int)
    requires Shaped(t, |f|) && 0 <= i <= r <= j + 1 && j < |f|
    ensures var u := RootsAsWritten(t, f, i, j, r);
      (forall a, b :: 0 <= a < |f| && 0 <= b < |f| && (a != i || b != j) ==> u.cache[a][b] == t.cache[a][b]) &&
      (forall k :: 0 <= k < |f| && !(r <= k <= j) ==>
        u.nodes[k].left == t.nodes[k].left && u.nodes[k].right == t.nodes[k].right && u.nodes[k].info == t.nodes[k].info)
    decreases j + 1 - r
  {
    if r <= j {
      RootsFrame(TryAsWritten(t, f, i, j, r), f, i, j, r + 1);
    }
  }

  /** One interval changes no other cell and no link or cost outside it. */
  lemma IntervalFrame(t: Table, f: seq<nat>, i: int, j: int)
    requires Shaped(t, |f|) && 0 <= i <= j < |f|
    ensures var u := IntervalAsWritten(t, f, i, j);
      (forall a, b :: 0 <= a < |f| && 0 <= b < |f| && (a != i || b != j) ==> u.cache[a][b] == t.cache[a][b]) &&
      (forall k :: 0 <= k < |f| && !(i <= k <= j) ==>
        u.nodes[k].left == t.nodes[k].left && u.nodes[k].right == t.nodes[k].right && u.nodes[k].info == t.nodes[k].info)
  {
    RootsFrame(t, f, i, j, i);
  }

  /** [0, 1] with frequencies 1, 1: the root 0 wins at cost 3 (the root 1
      ties) and takes node 1 as its right child. */
  lemma FirstPair(t: Table, f: seq<nat>)
    requires |f| == 3 && f[0] == 1 && f[1] == 1 && Shaped(t, 3)
    requires t.cache[0][0] == Entry(1, 0) && t.cache[1][1] == Entry(1, 1) && t.cache[0][1] == Unset
    ensures var u := IntervalAsWritten(t, f, 0, 1);
      u.cache[0][1] == Entry(3, 0) && u.nodes[0].right == 1
  {
    assert Sum(f, 0, 2) == 2;
    var a1 := TryAsWritten(t, f, 0, 1, 0);
    assert a1.cache[0][1] == Entry(3, 0) && a1.nodes[0].right == 1;
    assert TryAsWritten(a1, f, 0, 1, 1) == a1;
    assert RootsAsWritten(a1, f, 0, 1, 2) == a1;
  }

  /** [1, 2] with frequencies 1, 1: the root 1 wins at cost 3. */
  lemma SecondPairEven(t: Table)
    requires Shaped(t, 3) && t.cache[1][1] == Entry(1, 1) && t.cache[2][2] == Entry(1, 2) && t.cache[1][2] == Unset
    ensures IntervalAsWritten(t, [1, 1, 1], 1, 2).cache[1][2] == Entry(3, 1)
  {
    var f := [1, 1, 1];
    assert Sum(f, 1, 3) == 2;
    var a1 := TryAsWritten(t, f, 1, 2, 1);
    assert a1.cache[1][2] == Entry(3, 1);
    assert TryAsWritten(a1, f, 1, 2, 2) == a1;
    assert RootsAsWritten(a1, f, 1, 2, 3) == a1;
  }

  /** [0, 2] with frequencies 1, 1, 1: the root 0 (cost 6) links node 1 as
      its right child; the root 1 (cost 4) then wins and links node 0 as its
      left child; the root 2 (cost 6) loses. */
  lemma TripleEven(t: Table)
    requires Shaped(t, 3) && t.cache[0][0] == Entry(1, 0) && t.cache[2][2] == Entry(1, 2)
    requires t.cache[0][1] == Entry(3, 0) && t.cache[1][2] == Entry(3, 1) && t.cache[0][2] == Unset
    ensures var u := IntervalAsWritten(t, [1, 1, 1], 0, 2);
      u.cache[0][2] == Entry(4, 1) && u.nodes[1].left == 0 && u.nodes[0].right == 1
  {
    var f := [1, 1, 1];
    assert Sum(f, 0, 3) == 3;
    var a1 := TryAsWritten(t, f, 0, 2, 0);
    assert a1.cache[0][2] == Entry(6, 0) && a1.nodes[0].right == 1 && a1.cache[0][0] == Entry(1, 0) && a1.cache[0][1] == Entry(3, 0);
    var a2 := TryAsWritten(a1, f, 0, 2, 1);
    assert a2.cache[0][2] == Entry(4, 1) && a2.nodes[1].left == 0 && a2.nodes[0].right == 1 && a2.cache[0][1] == Entry(3, 0);
    assert TryAsWritten(a2, f, 0, 2, 2) == a2;
    assert RootsAsWritten(a2, f, 0, 2, 3) == a2;
    assert RootsAsWritten(t, f, 0, 2, 0) == a2;
  }

  /** Init's three intervals on three keys, in the order it visits them. */
  lemma ThreeKeys(keys: seq<int>, f: seq<nat>)
    requires |keys| == |f| == 3
    ensures var t0 := InitialTable(keys, f);
      var t1 := IntervalAsWritten(t0, f, 0, 1);
      var t2 := IntervalAsWritten(t1, f, 1, 2);
      InitAsWritten(keys, f) == (IntervalAsWritten(t2, f, 0, 2).nodes, Target(IntervalAsWritten(t2, f, 0, 2).cache[0][2]))
  {
    var t0 := InitialTable(keys, f);
    var t1 := IntervalAsWritten(t0, f, 0, 1);
    var t2 := IntervalAsWritten(t1, f, 1, 2);
    var t3 := IntervalAsWritten(t2, f, 0, 2);
    assert RowsAsWritten(t2, f, 1, 2) == t2;
    assert RowsAsWritten(t1, f, 1, 1) == t2;
    assert RowsAsWritten(t0, f, 1, 0) == t2;
    assert RowsAsWritten(t3, f, 2, 1) == t3;
    assert RowsAsWritten(t2, f, 2, 0) == t3;
    assert LengthsAsWritten(t3, f, 3) == t3;
    assert LengthsAsWritten(t2, f, 2) == t3;
    assert LengthsAsWritten(t0, f, 1) == t3;
  }

  /** Three keys of equal frequency: node 0 is tried as the root of all three
      and takes node 1 as its right child; node 1 then wins and takes node 0
      as its left child.  The links returned form a cycle 1 -> 0 -> 1, so no
      tree is built at all. */
  lemma InitAsWrittenCycle()
    ensures var r := InitAsWritten([10, 20, 30], [1, 1, 1]);
      r.1 == 1 && r.0[1].left == 0 && r.0[0].right == 1
  {
    var keys, f := [10, 20, 30], [1, 1, 1];
    ThreeKeys(keys, f);
    var t0 := InitialTable(keys, f);
    assert t0.cache[0][0] == Entry(1, 0) && t0.cache[1][1] == Entry(1, 1) && t0.cache[2][2] == Entry(1, 2);
    assert t0.cache[0][1] == Unset && t0.cache[1][2] == Unset && t0.cache[0][2] == Unset;
    FirstPair(t0, f);
    IntervalFrame(t0, f, 0, 1);
    var t1 := IntervalAsWritten(t0, f, 0, 1);
    SecondPairEven(t1);
    IntervalFrame(t1, f, 1, 2);
    var t2 := IntervalAsWritten(t1, f, 1, 2);
    TripleEven(t2);
  }

  /** [1, 2] with frequencies 1, 10: the root 1 (cost 21) gives way to the
      root 2 (cost 12). */
  lemma SecondPairHeavy(t: Table)
    requires Shaped(t, 3) && t.cache[1][1] == Entry(1, 1) && t.cache[2][2] == Entry(10, 2) && t.cache[1][2] == Unset
    ensures IntervalAsWritten(t, [1, 1, 10], 1, 2).cache[1][2] == Entry(12, 2)
  {
    var f := [1, 1, 10];
    assert Sum(f, 1, 3) == 11;
    var a1 := TryAsWritten(t, f, 1, 2, 1);
    assert a1.cache[1][2] == Entry(21, 1) && a1.cache[1][1] == Entry(1, 1);
    var a2 := TryAsWritten(a1, f, 1, 2, 2);
    assert a2.cache[1][2] == Entry(12, 2);
    assert RootsAsWritten(a2, f, 1, 2, 3) == a2;
    assert RootsAsWritten(t, f, 1, 2, 1) == a2;
  }

  /** [0, 2] with frequencies 1, 1, 10: the root 0 (cost 24), then the root 1
      at cost 13 because its right part's 10 is dropped; the root 2 (cost
      15) loses. */
  lemma TripleHeavy(t: Table)
    requires Shaped(t, 3) && t.cache[0][0] == Entry(1, 0) && t.cache[2][2] == Entry(10, 2)
    requires t.cache[0][1] == Entry(3, 0) && t.cache[1][2] == Entry(12, 2) && t.cache[0][2] == Unset
    ensures var u := IntervalAsWritten(t, [1, 1, 10], 0, 2);
      u.cache[0][2] == Entry(13, 1) && u.nodes[1].info == 13
  {
    var f := [1, 1, 10];
    assert Sum(f, 0, 3) == 12;
    var a1 := TryAsWritten(t, f, 0, 2, 0);
    assert a1.cache[0][2] == Entry(24, 0) && a1.cache[0][0] == Entry(1, 0) && a1.cache[0][1] == Entry(3, 0);
    var a2 := TryAsWritten(a1, f, 0, 2, 1);
    assert a2.cache[0][2] == Entry(13, 1) && a2.nodes[1].info == 13 && a2.cache[0][1] == Entry(3, 0);
    assert TryAsWritten(a2, f, 0, 2, 2) == a2;
    assert RootsAsWritten(a2, f, 0, 2, 3) == a2;
    assert RootsAsWritten(t, f, 0, 2, 0) == a2;
  }

  /** The interval table on frequencies 1, 1, 10 under the two readings of
      the cost: FirstOnly, the reading of the conditional expression, picks
      the root 1 at cost 13; Both picks the root 2 at cost 15. */
  lemma HeavyTables()
    ensures Opt(FirstOnly, [1, 1, 10], 0, 3) == 13 && Best(FirstOnly, [1, 1, 10], 0, 3) == 1
    ensures Opt(Both, [1, 1, 10], 0, 3) == 15 && Best(Both, [1, 1, 10], 0, 3) == 2
  {
    var f := [1, 1, 10];
    assert Sum(f, 0, 1) == 1 && Sum(f, 1, 2) == 1 && Sum(f, 2, 3) == 10;
    assert Sum(f, 0, 2) == 2 && Sum(f, 1, 3) == 11 && Sum(f, 0, 3) == 12;
    assert Opt(Both, f, 0, 1) == 1 && Opt(Both, f, 1, 2) == 1 && Opt(Both, f, 2, 3) == 10;
    assert Opt(Both, f, 0, 2) == 3 && Opt(Both, f, 1, 3) == 12;
    assert Opt(FirstOnly, f, 0, 1) == 1 && Opt(FirstOnly, f, 1, 2) == 1 && Opt(FirstOnly, f, 2, 3) == 10;
    assert Opt(FirstOnly, f, 0, 2) == 3 && Opt(FirstOnly, f, 1, 3) == 12;
  }

  /** Frequencies 1, 1, 10: the conditional expression drops the right part's
      cost of the root 1, which then looks cheapest (13, the FirstOnly
      optimum) although the least weighted path length is 15, reached at the
      root 2; no search tree over these keys costs 13. */
  lemma InitAsWrittenUnderestimates()
    ensures var r := InitAsWritten([10, 20, 30], [1, 1, 10]);
      r.1 == 1 && r.0[1].info == 13 && Opt(FirstOnly, [1, 1, 10], 0, 3) == 13
    ensures forall t :: Spans(t, 0, 3) && Labelled(t, [1, 1, 10]) ==> 15 <= TreeCost(t)
  {
    HeavyRun();
    HeavyTables();
    HeavyLeast();
  }

  /** The as-written run on frequencies 1, 1, 10, cell by cell. */
  lemma HeavyRun()
    ensures var r := InitAsWritten([10, 20, 30], [1, 1, 10]);
      r.1 == 1 && r.0[1].info == 13
  {
    var keys, f := [10, 20, 30], [1, 1, 10];
    ThreeKeys(keys, f);
    var t0 := InitialTable(keys, f);
    assert t0.cache[0][0] == Entry(1, 0) && t0.cache[1][1] == Entry(1, 1) && t0.cache[2][2] == Entry(10, 2);
    assert t0.cache[0][1] == Unset && t0.cache[1][2] == Unset && t0.cache[0][2] == Unset;
    FirstPair(t0, f);
    IntervalFrame(t0, f, 0, 1);
    var t1 := IntervalAsWritten(t0, f, 0, 1);
    SecondPairHeavy(t1);
    IntervalFrame(t1, f, 1, 2);
    var t2 := IntervalAsWritten(t1, f, 1, 2);
    TripleHeavy(t2);
  }

  /** No search tree over frequencies 1, 1, 10 costs less than 15. */
  lemma HeavyLeast()
    ensures forall t :: Spans(t, 0, 3) && Labelled(t, [1, 1, 10]) ==> 15 <= TreeCost(t)
  {
    HeavyTables();
    forall t | Spans(t, 0, 3) && Labelled(t, [1, 1, 10]) ensures 15 <= TreeCost(t) {
      OptLeast(t, [1, 1, 10], 0, 3);
    }
  }

}
