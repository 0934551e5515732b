/** The binomial heap: a list of binomial trees of ascending order, each in
    min-heap order, and the index of the tree whose root is the smallest.
    A tree owns its nodes outright (each node holds its children by unique
    ownership), so nodes are values here; the heap's own state -- the tree
    list and the minimum index -- is a class whose methods replace it. */
module BinomialHeaps {

  datatype Option<T> = None | Some(value: T)

  /** What a call that may throw gives back. */
  datatype Outcome<T> = Ok(value: T) | Throws

  datatype Node = Node(value: int, children: seq<Node>)

  /** A tree: its root (None once the tree has been moved from) and its order. */
  datatype Tree = Tree(root: Option<Node>, order: nat)

  /** The values a node holds, its own and its descendants'. */
  function Values(n: Node): multiset<int>
    decreases n
  {
    multiset{n.value} + ChildValues(n.children)
  }

  function ChildValues(cs: seq<Node>): multiset<int>
    decreases cs
  {
    if cs == [] then multiset{} else ChildValues(cs[..|cs| - 1]) + Values(cs[|cs| - 1])
  }

  function TreeValues(t: Tree): multiset<int>
  {
    if t.root.Some? then Values(t.root.value) else multiset{}
  }

  function TreesValues(ts: seq<Tree>): multiset<int>
  {
    if ts == [] then multiset{} else TreesValues(ts[..|ts| - 1]) + TreeValues(ts[|ts| - 1])
  }

  /** A binomial tree of order k: k children, the i-th of order i. */
  ghost predicate Binomial(n: Node, k: nat)
  {
    |n.children| == k && forall i :: 0 <= i < k ==> Binomial(n.children[i], i)
  }

  /** No child is smaller than its parent. */
  ghost predicate HeapOrdered(n: Node)
  {
    forall i :: 0 <= i < |n.children| ==> n.value <= n.children[i].value && HeapOrdered(n.children[i])
  }

  ghost predicate WellFormedTree(t: Tree)
  {
    t.root.Some? && Binomial(t.root.value, t.order) && HeapOrdered(t.root.value)
  }

  ghost predicate WellFormed(ts: seq<Tree>)
  {
    forall i :: 0 <= i < |ts| ==> WellFormedTree(ts[i])
  }

  predicate Rooted(ts: seq<Tree>)
  {
    forall i :: 0 <= i < |ts| ==> ts[i].root.Some?
  }

  /** Orders strictly ascending along the list. */
  predicate Ascending(ts: seq<Tree>)
  {
    forall i, j :: 0 <= i < j < |ts| ==> ts[i].order < ts[j].order
  }

  function Key(t: Tree): int
    requires t.root.Some?
  {
    t.root.value.value
  }

  /** Node::append: the new child goes after the others. */
  function AppendChild(n: Node, c: Node): Node
  {
    Node(n.value, n.children + [c])
  }

  lemma AppendChildValues(n: Node, c: Node)
    ensures Values(AppendChild(n, c)) == Values(n) + Values(c)
  {
    var r := AppendChild(n, c);
    assert r.children[..|r.children| - 1] == n.children;
  }

  /** BinomialTree::append: `other`'s root becomes the last child, the order rises. */
  function TreeAppend(t: Tree, other: Tree): (r: Tree)
    requires t.root.Some? && other.root.Some?
    ensures r.root.Some? && Key(r) == Key(t) && r.order == t.order + 1
  {
    Tree(Some(AppendChild(t.root.value, other.root.value)), t.order + 1)
  }

  /** BinomialTree::Merge. */
  function TreeMerge(first: Tree, second: Tree): (r: Outcome<Tree>)
    ensures r.Throws? <==> first.order != second.order
    ensures r.Ok? && first.root.None? ==> r.value == second
    ensures r.Ok? && first.root.Some? && second.root.None? ==> r.value == first
    ensures r.Ok? && first.root.Some? && second.root.Some? ==>
      (r.value.root.Some? && r.value.order == first.order + 1 &&
       Key(r.value) == (if Key(first) < Key(second) then Key(first) else Key(second)))
  {
    if first.order != second.order then Throws
    else if first.root.None? then Ok(second)
    else if second.root.None? then Ok(first)
    else if first.root.value.value < second.root.value.value then Ok(TreeAppend(first, second))
    else Ok(TreeAppend(second, first))
  }

  /** Linking keeps every value of both trees. */
  lemma TreeMergeValues(first: Tree, second: Tree)
    requires first.order == second.order
    ensures TreeValues(TreeMerge(first, second).value) == TreeValues(first) + TreeValues(second)
  {
    if first.root.Some? && second.root.Some? {
      AppendChildValues(first.root.value, second.root.value);
      AppendChildValues(second.root.value, first.root.value);
    }
  }

  /** Linking two well-formed trees of one order gives a well-formed tree of
      the next order whose root is the smaller of the two roots; on a tie
      the second root is the parent. */
  lemma TreeMergeWellFormed(first: Tree, second: Tree)
    requires WellFormedTree(first) && WellFormedTree(second) && first.order == second.order
    ensures TreeMerge(first, second).Ok?
    ensures WellFormedTree(TreeMerge(first, second).value)
    ensures Key(first) == Key(second) ==> TreeMerge(first, second).value.root.value.children == second.root.value.children + [first.root.value]
  {
    var p, c := first.root.value, second.root.value;
    if !(p.value < c.value) {
      p, c := c, p;
    }
    var n := AppendChild(p, c);
    assert n.children[|p.children|] == c;
    assert forall i :: 0 <= i < |p.children| ==> n.children[i] == p.children[i];
    assert Binomial(n, first.order + 1);
    assert HeapOrdered(n);
  }

  /** Every value of a heap-ordered node is at least its root. */
  lemma {:induction false} RootIsMin(n: Node, v: int)
    requires HeapOrdered(n) && v in Values(n)
    ensures n.value <= v
    decreases n, 1
  {
    if v != n.value {
      assert n.children[..|n.children|] == n.children;
      ChildrenAboveRoot(n, |n.children|, v);
    }
  }

  lemma {:induction false} ChildrenAboveRoot(n: Node, k: nat, v: int)
    requires HeapOrdered(n) && k <= |n.children| && v in ChildValues(n.children[..k])
    ensures n.value <= v
    decreases n, 0, k
  {
    var cs := n.children[..k];
    assert cs[..k - 1] == n.children[..k - 1];
    if v in Values(cs[k - 1]) {
      RootIsMin(n.children[k - 1], v);
    } else {
      ChildrenAboveRoot(n, k - 1, v);
    }
  }

  // ---------------------------------------------------------------- heap state

  datatype Heap = Heap(trees: seq<Tree>, minTreeIndex: int)

  /** The minimum index is -1 exactly for the empty list and a position otherwise. */
  predicate Indexed(h: Heap)
  {
    (h.trees == [] <==> h.minTreeIndex == -1) && (h.trees != [] ==> 0 <= h.minTreeIndex < |h.trees|)
  }

  /** The tree the minimum index names has the smallest root. */
  predicate MinIndexed(h: Heap)
    requires Indexed(h) && Rooted(h.trees)
  {
    h.trees != [] ==> forall k :: 0 <= k < |h.trees| ==> Key(h.trees[h.minTreeIndex]) <= Key(h.trees[k])
  }

  ghost predicate ValidHeap(h: Heap)
  {
    Indexed(h) && Rooted(h.trees) && WellFormed(h.trees) && Ascending(h.trees) && MinIndexed(h)
  }

  function HeapValues(h: Heap): multiset<int>
  {
    TreesValues(h.trees)
  }

  /** First: the root of the tree the minimum index names. */
  function FirstOf(h: Heap): int
    requires Indexed(h) && Rooted(h.trees) && h.trees != []
  {
    Key(h.trees[h.minTreeIndex])
  }

  /** append: the tree goes last; it becomes the minimum when it is the only
      tree or its root is strictly below First. */
  function AddTree(h: Heap, t: Tree): (r: Heap)
    requires Indexed(h) && Rooted(h.trees) && t.root.Some?
    ensures Indexed(r) && Rooted(r.trees) && r.trees == h.trees + [t]
    ensures r.minTreeIndex == |h.trees| <==> h.trees == [] || Key(t) < FirstOf(h)
    ensures MinIndexed(h) ==> MinIndexed(r)
  {
    var ts := h.trees + [t];
    if h.minTreeIndex == -1 || Key(t) < FirstOf(h) then Heap(ts, |h.trees|) else Heap(ts, h.minTreeIndex)
  }

  /** appendOrMerge, with the source's fall-through: on an empty list the
      tree is appended and then, moved from, linked with the last tree.
      `fixMin` also moves the minimum index onto a linked tree whose new
      root is below First; the source does not (fixMin == false). */
  function AddOrMerge(h: Heap, t: Tree, fixMin: bool): (r: Heap)
    requires Indexed(h) && Rooted(h.trees) && t.root.Some?
    requires h.trees != [] ==> h.trees[|h.trees| - 1].order <= t.order
    ensures Indexed(r) && Rooted(r.trees) && r.trees != [] && r.trees[|r.trees| - 1].order <= t.order + 1
  {
    if h.trees == [] then
      // append, then the moved-from tree is not above the last one: linked with it
      var h1 := AddTree(h, t);
      var moved := Tree(None, t.order);
      var last := h1.trees[0];
      Heap([TreeMerge(moved, last).value], h1.minTreeIndex)
    else
      var last := h.trees[|h.trees| - 1];
      if t.order > last.order then
        AddTree(h, t)
      else
        var m := TreeMerge(t, last).value;
        var ts := h.trees[..|h.trees| - 1] + [m];
        if fixMin && Key(m) < FirstOf(h) then Heap(ts, |ts| - 1) else Heap(ts, h.minTreeIndex)
  }

  /** appendOrMerge appends a tree above the last order and otherwise links
      it with the last tree, which it replaces. */
  lemma AddOrMergeShape(h: Heap, t: Tree, fixMin: bool)
    requires Indexed(h) && Rooted(h.trees) && t.root.Some?
    requires h.trees != [] ==> h.trees[|h.trees| - 1].order <= t.order
    ensures var r := AddOrMerge(h, t, fixMin);
      (h.trees == [] || h.trees[|h.trees| - 1].order < t.order ==> r.trees == h.trees + [t]) &&
      (h.trees != [] && h.trees[|h.trees| - 1].order == t.order ==>
         r.trees == h.trees[..|h.trees| - 1] + [TreeMerge(t, h.trees[|h.trees| - 1]).value])
  {
  }

  /** appendOrMerge adds exactly the tree's values. */
  lemma AddOrMergeValues(h: Heap, t: Tree, fixMin: bool)
    requires Indexed(h) && Rooted(h.trees) && t.root.Some?
    requires h.trees != [] ==> h.trees[|h.trees| - 1].order <= t.order
    ensures TreesValues(AddOrMerge(h, t, fixMin).trees) == TreesValues(h.trees) + TreeValues(t)
  {
    var r := AddOrMerge(h, t, fixMin);
    if h.trees == [] || h.trees[|h.trees| - 1].order < t.order {
      assert r.trees == h.trees + [t];
      TreesValuesAppend(h.trees, t);
    } else {
      var last := h.trees[|h.trees| - 1];
      var m := TreeMerge(t, last).value;
      var us := h.trees[..|h.trees| - 1];
      assert r.trees == us + [m] && h.trees == us + [last];
      TreeMergeValues(t, last);
      TreesValuesAppend(us, m);
      TreesValuesAppend(us, last);
      Rearrange3(TreesValues(r.trees), TreesValues(h.trees), TreesValues(us), TreeValues(m), TreeValues(last), TreeValues(t));
    }
  }

  lemma Rearrange3(r: multiset<int>, h: multiset<int>, u: multiset<int>, m: multiset<int>, l: multiset<int>, t: multiset<int>)
    requires r == u + m && h == u + l && m == t + l
    ensures r == h + t
  {
  }

  lemma TreesValuesAppend(ts: seq<Tree>, t: Tree)
    ensures TreesValues(ts + [t]) == TreesValues(ts) + TreeValues(t)
  {
    assert (ts + [t])[..|ts|] == ts;
  }

  lemma TreesValuesPrefix(ts: seq<Tree>, i: nat)
    requires i < |ts|
    ensures TreesValues(ts[..i + 1]) == TreesValues(ts[..i]) + TreeValues(ts[i])
  {
    assert ts[..i + 1][..i] == ts[..i];
  }

  /** The source's fall-through does no harm: on an empty list appendOrMerge
      is append. */
  lemma AddOrMergeEmpty(t: Tree, fixMin: bool)
    requires t.root.Some?
    ensures AddOrMerge(Heap([], -1), t, fixMin) == AddTree(Heap([], -1), t) == Heap([t], 0)
  {
  }

  /** Linking keeps every tree well formed, the list ascending and, with the
      correction, the minimum index right. */
  lemma AddOrMergeValid(h: Heap, t: Tree, fixMin: bool)
    requires Indexed(h) && Rooted(h.trees) && WellFormed(h.trees) && Ascending(h.trees) && WellFormedTree(t)
    requires h.trees != [] ==> h.trees[|h.trees| - 1].order <= t.order
    ensures WellFormed(AddOrMerge(h, t, fixMin).trees) && Ascending(AddOrMerge(h, t, fixMin).trees)
    ensures fixMin && MinIndexed(h) ==> MinIndexed(AddOrMerge(h, t, fixMin))
  {
    var r := AddOrMerge(h, t, fixMin);
    if h.trees == [] || h.trees[|h.trees| - 1].order < t.order {
      AppendValid(h.trees, t);
      if h.trees == [] {
        AddOrMergeEmpty(t, fixMin);
      } else {
        assert r == AddTree(h, t);
      }
    } else {
      var us := h.trees[..|h.trees| - 1];
      var last := h.trees[|h.trees| - 1];
      assert h.trees == us + [last];
      LinkLastValid(us, last, t);
      if fixMin && MinIndexed(h) {
        LinkMinIndexed(h, t);
      }
    }
  }

  /** A tree above every order of a valid list extends it. */
  lemma AppendValid(ts: seq<Tree>, t: Tree)
    requires WellFormed(ts) && Ascending(ts) && WellFormedTree(t)
    requires ts != [] ==> ts[|ts| - 1].order < t.order
    ensures WellFormed(ts + [t]) && Ascending(ts + [t])
  {
    var xs := ts + [t];
    assert forall i :: 0 <= i < |ts| ==> xs[i] == ts[i];
    forall i | 0 <= i < |ts| ensures ts[i].order < t.order {
      if i < |ts| - 1 {
        assert ts[i].order < ts[|ts| - 1].order;
      }
    }
  }

  /** Linking a tree with the last one of a valid list, of the same order,
      leaves a valid list. */
  lemma LinkLastValid(us: seq<Tree>, last: Tree, t: Tree)
    requires WellFormed(us + [last]) && Ascending(us + [last]) && WellFormedTree(t) && t.order == last.order
    ensures WellFormed(us + [TreeMerge(t, last).value]) && Ascending(us + [TreeMerge(t, last).value])
  {
    var xs := us + [last];
    assert xs[|us|] == last;
    TreeMergeWellFormed(t, last);
    var m := TreeMerge(t, last).value;
    var ys := us + [m];
    assert forall i :: 0 <= i < |us| ==> xs[i] == us[i] && ys[i] == us[i];
    assert forall i :: 0 <= i < |us| ==> us[i].order < last.order by {
      forall i | 0 <= i < |us| ensures us[i].order < last.order {
        assert xs[i].order < xs[|us|].order;
      }
    }
  }

  /** With the correction, linking keeps the minimum index right. */
  lemma LinkMinIndexed(h: Heap, t: Tree)
    requires Indexed(h) && Rooted(h.trees) && MinIndexed(h) && t.root.Some? && h.trees != []
    requires h.trees[|h.trees| - 1].order == t.order
    ensures MinIndexed(AddOrMerge(h, t, true))
  {
    var r := AddOrMerge(h, t, true);
    var n := |h.trees|;
    var m := TreeMerge(t, h.trees[n - 1]).value;
    assert r.trees == h.trees[..n - 1] + [m];
    assert forall k :: 0 <= k < n - 1 ==> r.trees[k] == h.trees[k];
    assert Key(m) <= Key(h.trees[n - 1]);
  }

  // ---------------------------------------------------------------- heap merge

  /** Nothing left to consume is below the order of the last tree built. */
  predicate Ready(acc: Heap, a: seq<Tree>, b: seq<Tree>, i: nat, j: nat)
  {
    acc.trees != [] ==>
      (i < |a| ==> acc.trees[|acc.trees| - 1].order <= a[i].order) &&
      (j < |b| ==> acc.trees[|acc.trees| - 1].order <= b[j].order)
  }

  predicate MergeReq(a: seq<Tree>, b: seq<Tree>, i: nat, j: nat, acc: Heap)
  {
    Rooted(a) && Rooted(b) && Ascending(a) && Ascending(b) && i <= |a| && j <= |b| &&
    Indexed(acc) && Rooted(acc.trees) && Ready(acc, a, b, i, j)
  }

  /** Where Merge stands: the next positions in the two lists and the heap built so far. */
  datatype Cursor = Cursor(i: nat, j: nat, acc: Heap)

  /** One round of Merge's loops: the lower-order tree of the two is
      appended or linked with the last one; two of one order are linked and
      appended; once one list is used up, the next tree of the other is
      appended or linked. */
  function MergeStep(a: seq<Tree>, b: seq<Tree>, i: nat, j: nat, acc: Heap, fixMin: bool): (c: Cursor)
    requires MergeReq(a, b, i, j, acc) && (i < |a| || j < |b|)
    ensures MergeReq(a, b, c.i, c.j, c.acc)
    ensures i <= c.i && j <= c.j && i + j < c.i + c.j
  {
    NextReady(a, b, i, j, acc, fixMin);
    if i < |a| && j < |b| && a[i].order == b[j].order then
      Cursor(i + 1, j + 1, AddTree(acc, TreeMerge(a[i], b[j]).value))
    else if i < |a| && (j == |b| || a[i].order < b[j].order) then
      Cursor(i + 1, j, AddOrMerge(acc, a[i], fixMin))
    else
      Cursor(i, j + 1, AddOrMerge(acc, b[j], fixMin))
  }

  /** The rest of Merge from positions i and j with `acc` built so far. */
  function MergeFrom(a: seq<Tree>, b: seq<Tree>, i: nat, j: nat, acc: Heap, fixMin: bool): (r: Heap)
    requires MergeReq(a, b, i, j, acc)
    ensures Indexed(r) && Rooted(r.trees)
    decreases |a| - i + |b| - j
  {
    if i == |a| && j == |b| then acc
    else
      var c := MergeStep(a, b, i, j, acc, fixMin);
      MergeFrom(a, b, c.i, c.j, c.acc, fixMin)
  }

  /** BinomialHeap::Merge of two tree lists. */
  function MergeHeaps(a: seq<Tree>, b: seq<Tree>, fixMin: bool): Heap
    requires Rooted(a) && Rooted(b) && Ascending(a) && Ascending(b)
  {
    MergeFrom(a, b, 0, 0, Heap([], -1), fixMin)
  }

  /** Each step of Merge leaves what the next step needs. */
  lemma NextReady(a: seq<Tree>, b: seq<Tree>, i: nat, j: nat, acc: Heap, fixMin: bool)
    requires MergeReq(a, b, i, j, acc)
    ensures i < |a| && j < |b| && a[i].order == b[j].order ==>
      MergeReq(a, b, i + 1, j + 1, AddTree(acc, TreeMerge(a[i], b[j]).value))
    ensures i < |a| && (j == |b| || a[i].order < b[j].order) ==>
      MergeReq(a, b, i + 1, j, AddOrMerge(acc, a[i], fixMin))
    ensures j < |b| && (i == |a| || b[j].order < a[i].order) ==>
      MergeReq(a, b, i, j + 1, AddOrMerge(acc, b[j], fixMin))
  {
    if i + 1 < |a| {
      assert a[i].order < a[i + 1].order;
    }
    if j + 1 < |b| {
      assert b[j].order < b[j + 1].order;
    }
  }

  /** std::for_each of appendOrMerge over the trees of `rest` from position k on. */
  predicate EachReady(acc: Heap, rest: seq<Tree>, k: nat)
  {
    Indexed(acc) && Rooted(acc.trees) && Rooted(rest) && Ascending(rest) && k <= |rest| &&
    (acc.trees != [] && k < |rest| ==> acc.trees[|acc.trees| - 1].order <= rest[k].order)
  }

  function AddEach(acc: Heap, rest: seq<Tree>, k: nat, fixMin: bool): (r: Heap)
    requires EachReady(acc, rest, k)
    ensures Indexed(r) && Rooted(r.trees)
    decreases |rest| - k
  {
    if k == |rest| then acc
    else
      assert k + 1 < |rest| ==> rest[k].order < rest[k + 1].order;
      AddEach(AddOrMerge(acc, rest[k], fixMin), rest, k + 1, fixMin)
  }

  /** One turn of the for_each: the tail after appending or linking rest[k]. */
  lemma AddEachNext(acc: Heap, rest: seq<Tree>, k: nat, fixMin: bool)
    requires Indexed(acc) && Rooted(acc.trees) && Rooted(rest) && Ascending(rest) && k < |rest|
    requires acc.trees != [] ==> acc.trees[|acc.trees| - 1].order <= rest[k].order
    ensures var next := AddOrMerge(acc, rest[k], fixMin);
      EachReady(next, rest, k + 1) &&
      AddEach(acc, rest, k, fixMin) == AddEach(next, rest, k + 1, fixMin)
  {
    if k + 1 < |rest| {
      assert rest[k].order < rest[k + 1].order;
    }
  }

  /** Once the first list is used up, the rest of Merge appends or links
      each tree left in the second, in order. */
  lemma {:induction false} MergeFromRestOfSecond(a: seq<Tree>, b: seq<Tree>, j: nat, acc: Heap, fixMin: bool)
    requires MergeReq(a, b, |a|, j, acc)
    ensures MergeFrom(a, b, |a|, j, acc, fixMin) == AddEach(acc, b, j, fixMin)
    decreases |b| - j
  {
    if j < |b| {
      var next := AddOrMerge(acc, b[j], fixMin);
      MergeFromSecond(a, b, |a|, j, acc, next, fixMin);
      MergeFromRestOfSecond(a, b, j + 1, next, fixMin);
    }
  }

  /** Once the second list is used up, likewise with the first. */
  lemma {:induction false} MergeFromRestOfFirst(a: seq<Tree>, b: seq<Tree>, i: nat, acc: Heap, fixMin: bool)
    requires MergeReq(a, b, i, |b|, acc)
    ensures MergeFrom(a, b, i, |b|, acc, fixMin) == AddEach(acc, a, i, fixMin)
    decreases |a| - i
  {
    if i < |a| {
      var next := AddOrMerge(acc, a[i], fixMin);
      MergeFromFirst(a, b, i, |b|, acc, next, fixMin);
      MergeFromRestOfFirst(a, b, i + 1, next, fixMin);
    }
  }

  /** The rest of Merge is the rest after one round. */
  lemma MergeFromStep(a: seq<Tree>, b: seq<Tree>, i: nat, j: nat, acc: Heap, fixMin: bool)
    requires MergeReq(a, b, i, j, acc) && (i < |a| || j < |b|)
    ensures var c := MergeStep(a, b, i, j, acc, fixMin);
      MergeFrom(a, b, i, j, acc, fixMin) == MergeFrom(a, b, c.i, c.j, c.acc, fixMin)
  {
  }

  /** Merge's rounds, one per kind: the rest of Merge after the round is
      the rest before it, where `next` is the heap the round leaves. */
  lemma MergeFromFirst(a: seq<Tree>, b: seq<Tree>, i: nat, j: nat, acc: Heap, next: Heap, fixMin: bool)
    requires MergeReq(a, b, i, j, acc) && i < |a| && (j == |b| || a[i].order < b[j].order)
    requires next == AddOrMerge(acc, a[i], fixMin)
    ensures MergeReq(a, b, i + 1, j, next)
    ensures MergeFrom(a, b, i, j, acc, fixMin) == MergeFrom(a, b, i + 1, j, next, fixMin)
  {
    NextReady(a, b, i, j, acc, fixMin);
    assert MergeStep(a, b, i, j, acc, fixMin) == Cursor(i + 1, j, next);
  }

  lemma MergeFromSecond(a: seq<Tree>, b: seq<Tree>, i: nat, j: nat, acc: Heap, next: Heap, fixMin: bool)
    requires MergeReq(a, b, i, j, acc) && j < |b| && (i == |a| || b[j].order < a[i].order)
    requires next == AddOrMerge(acc, b[j], fixMin)
    ensures MergeReq(a, b, i, j + 1, next)
    ensures MergeFrom(a, b, i, j, acc, fixMin) == MergeFrom(a, b, i, j + 1, next, fixMin)
  {
    NextReady(a, b, i, j, acc, fixMin);
    assert MergeStep(a, b, i, j, acc, fixMin) == Cursor(i, j + 1, next);
  }

  lemma MergeFromLink(a: seq<Tree>, b: seq<Tree>, i: nat, j: nat, acc: Heap, next: Heap, fixMin: bool)
    requires MergeReq(a, b, i, j, acc) && i < |a| && j < |b| && a[i].order == b[j].order
    requires next == AddTree(acc, TreeMerge(a[i], b[j]).value)
    ensures MergeReq(a, b, i + 1, j + 1, next)
    ensures MergeFrom(a, b, i, j, acc, fixMin) == MergeFrom(a, b, i + 1, j + 1, next, fixMin)
  {
    NextReady(a, b, i, j, acc, fixMin);
    assert MergeStep(a, b, i, j, acc, fixMin) == Cursor(i + 1, j + 1, next);
  }

  /** A step keeps the trees well formed and ascending, and with the
      correction the minimum index right. */
  lemma StepValid(a: seq<Tree>, b: seq<Tree>, i: nat, j: nat, acc: Heap, fixMin: bool)
    requires MergeReq(a, b, i, j, acc) && (i < |a| || j < |b|)
    requires WellFormed(a) && WellFormed(b) && WellFormed(acc.trees) && Ascending(acc.trees)
    ensures var c := MergeStep(a, b, i, j, acc, fixMin);
      WellFormed(c.acc.trees) && Ascending(c.acc.trees) && (fixMin && MinIndexed(acc) ==> MinIndexed(c.acc))
  {
    if i < |a| && j < |b| && a[i].order == b[j].order {
      TreeMergeWellFormed(a[i], b[j]);
      var m := TreeMerge(a[i], b[j]).value;
      assert WellFormed(AddTree(acc, m).trees);
    } else if i < |a| && (j == |b| || a[i].order < b[j].order) {
      AddOrMergeValid(acc, a[i], fixMin);
    } else {
      AddOrMergeValid(acc, b[j], fixMin);
    }
  }

  /** A step moves one or two trees' values from the lists into the heap:
      the heap holds the values of the trees consumed so far. */
  lemma StepValues(a: seq<Tree>, b: seq<Tree>, i: nat, j: nat, acc: Heap, fixMin: bool)
    requires MergeReq(a, b, i, j, acc) && (i < |a| || j < |b|)
    requires TreesValues(acc.trees) == TreesValues(a[..i]) + TreesValues(b[..j])
    ensures var c := MergeStep(a, b, i, j, acc, fixMin);
      TreesValues(c.acc.trees) == TreesValues(a[..c.i]) + TreesValues(b[..c.j])
  {
    if i < |a| && j < |b| && a[i].order == b[j].order {
      StepLinkValues(a, b, i, j, acc, fixMin);
    } else if i < |a| && (j == |b| || a[i].order < b[j].order) {
      StepFirstValues(a, b, i, j, acc, fixMin);
    } else {
      StepSecondValues(a, b, i, j, acc, fixMin);
    }
  }

  lemma StepLinkValues(a: seq<Tree>, b: seq<Tree>, i: nat, j: nat, acc: Heap, fixMin: bool)
    requires MergeReq(a, b, i, j, acc) && i < |a| && j < |b| && a[i].order == b[j].order
    requires TreesValues(acc.trees) == TreesValues(a[..i]) + TreesValues(b[..j])
    ensures var c := MergeStep(a, b, i, j, acc, fixMin);
      TreesValues(c.acc.trees) == TreesValues(a[..c.i]) + TreesValues(b[..c.j])
  {
    assert a[i].root.Some?;
    LinkValues(a, b, i, j, acc);
  }

  lemma StepFirstValues(a: seq<Tree>, b: seq<Tree>, i: nat, j: nat, acc: Heap, fixMin: bool)
    requires MergeReq(a, b, i, j, acc) && i < |a| && (j == |b| || a[i].order < b[j].order)
    requires TreesValues(acc.trees) == TreesValues(a[..i]) + TreesValues(b[..j])
    ensures var c := MergeStep(a, b, i, j, acc, fixMin);
      TreesValues(c.acc.trees) == TreesValues(a[..c.i]) + TreesValues(b[..c.j])
  {
    assert a[i].root.Some?;
    NextValues(a, b, i, j, acc, fixMin);
  }

  lemma StepSecondValues(a: seq<Tree>, b: seq<Tree>, i: nat, j: nat, acc: Heap, fixMin: bool)
    requires MergeReq(a, b, i, j, acc) && j < |b| && (i == |a| || b[j].order < a[i].order)
    requires TreesValues(acc.trees) == TreesValues(a[..i]) + TreesValues(b[..j])
    ensures var c := MergeStep(a, b, i, j, acc, fixMin);
      TreesValues(c.acc.trees) == TreesValues(a[..c.i]) + TreesValues(b[..c.j])
  {
    assert b[j].root.Some?;
    NextValues(b, a, j, i, acc, fixMin);
  }

  lemma LinkValues(a: seq<Tree>, b: seq<Tree>, i: nat, j: nat, acc: Heap)
    requires i < |a| && j < |b| && a[i].order == b[j].order && a[i].root.Some?
    requires Indexed(acc) && Rooted(acc.trees)
    requires TreesValues(acc.trees) == TreesValues(a[..i]) + TreesValues(b[..j])
    ensures TreesValues(AddTree(acc, TreeMerge(a[i], b[j]).value).trees) == TreesValues(a[..i + 1]) + TreesValues(b[..j + 1])
  {
    var m := TreeMerge(a[i], b[j]).value;
    TreeMergeValues(a[i], b[j]);
    TreesValuesAppend(acc.trees, m);
    TreesValuesPrefix(a, i);
    TreesValuesPrefix(b, j);
    Rearrange2(TreesValues(acc.trees + [m]), TreesValues(acc.trees), TreesValues(a[..i]), TreesValues(b[..j]),
      TreeValues(a[i]), TreeValues(b[j]), TreesValues(a[..i + 1]), TreesValues(b[..j + 1]));
  }

  lemma NextValues(a: seq<Tree>, b: seq<Tree>, i: nat, j: nat, acc: Heap, fixMin: bool)
    requires i < |a| && j <= |b| && a[i].root.Some? && Indexed(acc) && Rooted(acc.trees)
    requires acc.trees != [] ==> acc.trees[|acc.trees| - 1].order <= a[i].order
    requires TreesValues(acc.trees) == TreesValues(a[..i]) + TreesValues(b[..j])
    ensures TreesValues(AddOrMerge(acc, a[i], fixMin).trees) == TreesValues(a[..i + 1]) + TreesValues(b[..j])
    ensures TreesValues(AddOrMerge(acc, a[i], fixMin).trees) == TreesValues(b[..j]) + TreesValues(a[..i + 1])
  {
    AddOrMergeValues(acc, a[i], fixMin);
    TreesValuesPrefix(a, i);
    Rearrange1(TreesValues(AddOrMerge(acc, a[i], fixMin).trees), TreesValues(acc.trees), TreesValues(a[..i]),
      TreesValues(b[..j]), TreeValues(a[i]), TreesValues(a[..i + 1]));
  }

  lemma Rearrange1(after: multiset<int>, before: multiset<int>, x: multiset<int>, y: multiset<int>,
                   t: multiset<int>, x2: multiset<int>)
    requires after == before + t && before == x + y && x2 == x + t
    ensures after == x2 + y && after == y + x2
  {
  }

  lemma Rearrange2(after: multiset<int>, before: multiset<int>, x: multiset<int>, y: multiset<int>,
                   s: multiset<int>, t: multiset<int>, x2: multiset<int>, y2: multiset<int>)
    requires after == before + (s + t) && before == x + y && x2 == x + s && y2 == y + t
    ensures after == x2 + y2
  {
  }

  /** Merge builds a list of well-formed trees of strictly ascending order,
      so no link is ever asked of trees of different orders; with the
      correction the minimum index is right. */
  lemma {:induction false} MergeFromValid(a: seq<Tree>, b: seq<Tree>, i: nat, j: nat, acc: Heap, fixMin: bool)
    requires MergeReq(a, b, i, j, acc)
    requires WellFormed(a) && WellFormed(b) && WellFormed(acc.trees) && Ascending(acc.trees)
    ensures var r := MergeFrom(a, b, i, j, acc, fixMin);
      WellFormed(r.trees) && Ascending(r.trees) && (fixMin && MinIndexed(acc) ==> MinIndexed(r))
    decreases |a| - i + |b| - j
  {
    if i < |a| || j < |b| {
      var c := MergeStep(a, b, i, j, acc, fixMin);
      StepValid(a, b, i, j, acc, fixMin);
      MergeFromValid(a, b, c.i, c.j, c.acc, fixMin);
    }
  }

  /** Merge holds every value of both lists. */
  lemma {:induction false} MergeFromValues(a: seq<Tree>, b: seq<Tree>, i: nat, j: nat, acc: Heap, fixMin: bool)
    requires MergeReq(a, b, i, j, acc)
    requires TreesValues(acc.trees) == TreesValues(a[..i]) + TreesValues(b[..j])
    ensures TreesValues(MergeFrom(a, b, i, j, acc, fixMin).trees) == TreesValues(a) + TreesValues(b)
    decreases |a| - i + |b| - j
  {
    if i < |a| || j < |b| {
      var c := MergeStep(a, b, i, j, acc, fixMin);
      StepValues(a, b, i, j, acc, fixMin);
      MergeFromValues(a, b, c.i, c.j, c.acc, fixMin);
    } else {
      assert a[..i] == a && b[..j] == b;
    }
  }

  /** The corrected Merge of two valid tree lists is a valid heap holding
      the values of both. */
  lemma MergeHeapsValid(a: seq<Tree>, b: seq<Tree>)
    requires Rooted(a) && Rooted(b) && Ascending(a) && Ascending(b) && WellFormed(a) && WellFormed(b)
    ensures ValidHeap(MergeHeaps(a, b, true))
    ensures HeapValues(MergeHeaps(a, b, true)) == TreesValues(a) + TreesValues(b)
  {
    MergeFromValid(a, b, 0, 0, Heap([], -1), true);
    assert a[..0] == [] && b[..0] == [];
    MergeFromValues(a, b, 0, 0, Heap([], -1), true);
  }

  /** First of a valid heap is its least value. */
  lemma FirstIsMin(h: Heap)
    requires ValidHeap(h) && h.trees != []
    ensures FirstOf(h) in HeapValues(h)
    ensures forall v :: v in HeapValues(h) ==> FirstOf(h) <= v
  {
    InValues(h.trees, h.minTreeIndex);
    TreesMin(h.trees, FirstOf(h));
  }

  /** Every value of a heap-ordered tree is at least its root. */
  lemma TreeAbove(t: Tree, x: int)
    requires t.root.Some? && HeapOrdered(t.root.value) && x <= Key(t)
    ensures forall v :: v in TreeValues(t) ==> x <= v
  {
    forall v | v in TreeValues(t) ensures x <= v {
      RootIsMin(t.root.value, v);
    }
  }

  lemma {:induction false} TreesMin(ts: seq<Tree>, x: int)
    requires Rooted(ts)
    requires forall i :: 0 <= i < |ts| ==> HeapOrdered(ts[i].root.value) && x <= Key(ts[i])
    ensures forall v :: v in TreesValues(ts) ==> x <= v
  {
    if ts != [] {
      var init, last := ts[..|ts| - 1], ts[|ts| - 1];
      assert forall i :: 0 <= i < |init| ==> init[i] == ts[i];
      TreesMin(init, x);
      TreeAbove(last, x);
    }
  }


  lemma {:induction false} InValues(ts: seq<Tree>, k: nat)
    requires k < |ts| && ts[k].root.Some?
    ensures Key(ts[k]) in TreesValues(ts)
  {
    if k < |ts| - 1 {
      InValues(ts[..|ts| - 1], k);
    }
  }

  /** As written (no fix of the minimum index when linking), Merge of
      [t0, t1, t2] with [u] -- orders 0, 1, 2 and 1 -- reports t0's root as
      First even though t2's root is smaller: t2 is linked with the last
      tree on the path that does not look at the minimum index. */
  lemma MergeStaleMin(t0: Tree, t1: Tree, t2: Tree, u: Tree)
    requires t0.root.Some? && t1.root.Some? && t2.root.Some? && u.root.Some?
    requires t0.order == 0 && t1.order == 1 && t2.order == 2 && u.order == 1
    requires Key(t0) <= Key(t1) && Key(t0) <= Key(u) && Key(t2) < Key(t0)
    ensures var h := MergeHeaps([t0, t1, t2], [u], false);
      Indexed(h) && Rooted(h.trees) && h.trees != [] && FirstOf(h) == Key(t0) &&
      Key(t2) in HeapValues(h) && Key(t2) < FirstOf(h)
  {
    StaleMinRounds(t0, t1, t2, u);
    StaleMinLast(t0, TreeMerge(t1, u).value, t2);
  }

  /** The first two rounds: t0 alone, then t1 and u linked and appended;
      then the rest of the first list. */
  lemma StaleMinRounds(t0: Tree, t1: Tree, t2: Tree, u: Tree)
    requires t0.root.Some? && t1.root.Some? && t2.root.Some? && u.root.Some?
    requires t0.order == 0 && t1.order == 1 && t2.order == 2 && u.order == 1
    requires Key(t0) <= Key(t1) && Key(t0) <= Key(u)
    ensures MergeHeaps([t0, t1, t2], [u], false) == AddOrMerge(Heap([t0, TreeMerge(t1, u).value], 0), t2, false)
  {
    var a, b := [t0, t1, t2], [u];
    var h2 := Heap([t0, TreeMerge(t1, u).value], 0);
    StaleMinFirstRounds(t0, t1, t2, u);
    MergeFromRestOfFirst(a, b, 2, h2, false);
    var h3 := AddOrMerge(h2, t2, false);
    assert AddEach(h2, a, 2, false) == AddEach(h3, a, 3, false) == h3;
  }

  lemma StaleMinFirstRounds(t0: Tree, t1: Tree, t2: Tree, u: Tree)
    requires t0.root.Some? && t1.root.Some? && t2.root.Some? && u.root.Some?
    requires t0.order == 0 && t1.order == 1 && t2.order == 2 && u.order == 1
    requires Key(t0) <= Key(t1) && Key(t0) <= Key(u)
    ensures var h2 := Heap([t0, TreeMerge(t1, u).value], 0);
      MergeReq([t0, t1, t2], [u], 2, 1, h2) &&
      MergeHeaps([t0, t1, t2], [u], false) == MergeFrom([t0, t1, t2], [u], 2, 1, h2, false)
  {
    var a, b := [t0, t1, t2], [u];
    var h1 := Heap([t0], 0);
    var h2 := Heap([t0, TreeMerge(t1, u).value], 0);
    StaleMinFirstRound(t0, t1, t2, u);
    assert h2 == AddTree(h1, TreeMerge(t1, u).value);
    MergeFromLink(a, b, 1, 0, h1, h2, false);
  }

  lemma StaleMinFirstRound(t0: Tree, t1: Tree, t2: Tree, u: Tree)
    requires t0.root.Some? && t1.root.Some? && t2.root.Some? && u.root.Some?
    requires t0.order == 0 && t1.order == 1 && t2.order == 2 && u.order == 1
    ensures MergeReq([t0, t1, t2], [u], 1, 0, Heap([t0], 0))
    ensures MergeHeaps([t0, t1, t2], [u], false) == MergeFrom([t0, t1, t2], [u], 1, 0, Heap([t0], 0), false)
  {
    AddOrMergeEmpty(t0, false);
    MergeFromFirst([t0, t1, t2], [u], 0, 0, Heap([], -1), Heap([t0], 0), false);
  }

  /** The last round links t2 with the last tree and keeps the index at t0. */
  lemma StaleMinLast(t0: Tree, m: Tree, t2: Tree)
    requires t0.root.Some? && m.root.Some? && t2.root.Some? && m.order == t2.order
    requires Key(t2) < Key(t0) <= Key(m)
    ensures var h := AddOrMerge(Heap([t0, m], 0), t2, false);
      Indexed(h) && Rooted(h.trees) && h.trees != [] && FirstOf(h) == Key(t0) &&
      Key(t2) in HeapValues(h) && Key(t2) < FirstOf(h)
  {
    var h := AddOrMerge(Heap([t0, m], 0), t2, false);
    AddOrMergeShape(Heap([t0, m], 0), t2, false);
    assert h.trees == [t0, TreeMerge(t2, m).value] && h.minTreeIndex == 0;
    InValues(h.trees, 1);
  }

  /** The same on a concrete input: roots 1, 9, 0 of orders 0, 1, 2 merged
      with a root 8 of order 1 give First 1 while 0 is held. */
  lemma MergeKeepsStaleMin()
    ensures var a := [Tree(Some(Node(1, [])), 0),
                      Tree(Some(Node(9, [Node(10, [])])), 1),
                      Tree(Some(Node(0, [Node(2, []), Node(3, [Node(4, [])])])), 2)];
            var b := [Tree(Some(Node(8, [Node(11, [])])), 1)];
            var h := MergeHeaps(a, b, false);
            Indexed(h) && Rooted(h.trees) && h.trees != [] && FirstOf(h) == 1 && 0 in HeapValues(h)
  {
    MergeStaleMin(Tree(Some(Node(1, [])), 0),
                  Tree(Some(Node(9, [Node(10, [])])), 1),
                  Tree(Some(Node(0, [Node(2, []), Node(3, [Node(4, [])])])), 2),
                  Tree(Some(Node(8, [Node(11, [])])), 1));
  }

  /** The heap the roots constructor builds: root i as a tree of order i. */
  function RootTrees(roots: seq<Node>): (ts: seq<Tree>)
    ensures |ts| == |roots| && Rooted(ts) && Ascending(ts)
    ensures forall i :: 0 <= i < |ts| ==> ts[i].order == i && ts[i].root.value == roots[i]
  {
    seq(|roots|, i requires 0 <= i < |roots| => Tree(Some(roots[i]), i))
  }

  /** The children of a well-formed node are themselves a valid tree list. */
  lemma ChildrenWellFormed(n: Node, k: nat)
    requires Binomial(n, k) && HeapOrdered(n)
    ensures WellFormed(RootTrees(n.children))
  {
    var ts := RootTrees(n.children);
    forall i | 0 <= i < |ts| ensures WellFormedTree(ts[i]) {
      assert ts[i].root.value == n.children[i] && ts[i].order == i;
    }
  }

  /** The children's trees hold the node's values but its own. */
  lemma ChildrenTreesValues(n: Node)
    ensures Values(n) == multiset{n.value} + TreesValues(RootTrees(n.children))
  {
    RootsValues(RootTrees(n.children), n.children);
  }

  /** Trees rooted at the given nodes, in order, hold the nodes' values. */
  lemma {:induction false} RootsValues(ts: seq<Tree>, cs: seq<Node>)
    requires |ts| == |cs| && forall i :: 0 <= i < |ts| ==> ts[i].root == Some(cs[i])
    ensures TreesValues(ts) == ChildValues(cs)
  {
    if ts != [] {
      RootsValues(ts[..|ts| - 1], cs[..|cs| - 1]);
    }
  }

  /** Pop: the least tree leaves the list, its children form a heap of
      their own, and the two are merged; a minimum index of -1 throws, which
      covers the empty heap and a heap FromRoots built but nothing merged into. */
  function Popped(h: Heap, fixMin: bool): (r: Outcome<Heap>)
    requires (h.minTreeIndex == -1 || 0 <= h.minTreeIndex < |h.trees|) && Rooted(h.trees) && Ascending(h.trees)
    ensures r.Throws? <==> h.minTreeIndex == -1
  {
    if h.minTreeIndex == -1 then Throws
    else
      var minTree := h.trees[h.minTreeIndex];
      var rest := h.trees[..h.minTreeIndex] + h.trees[h.minTreeIndex + 1..];
      assert forall i :: 0 <= i < |rest| ==> rest[i] == h.trees[if i < h.minTreeIndex then i else i + 1];
      Ok(MergeHeaps(rest, RootTrees(minTree.root.value.children), fixMin))
  }

  /** Pop of a valid heap takes out exactly its least value and leaves a valid heap. */
  lemma PopValid(h: Heap)
    requires ValidHeap(h) && h.trees != []
    ensures Popped(h, true).Ok? && ValidHeap(Popped(h, true).value)
    ensures HeapValues(h) == HeapValues(Popped(h, true).value) + multiset{FirstOf(h)}
  {
    var k := h.minTreeIndex;
    var root := h.trees[k].root.value;
    var rest := h.trees[..k] + h.trees[k + 1..];
    var cts := RootTrees(root.children);
    RemoveValid(h.trees, k);
    ChildrenWellFormed(root, h.trees[k].order);
    MergeHeapsValid(rest, cts);
    TreesValuesRemove(h.trees, k);
    ChildrenTreesValues(root);
    assert Popped(h, true) == Ok(MergeHeaps(rest, cts, true));
  }

  /** Taking one tree out of a valid list leaves a valid list. */
  lemma RemoveValid(ts: seq<Tree>, k: nat)
    requires k < |ts| && Rooted(ts) && WellFormed(ts) && Ascending(ts)
    ensures var rest := ts[..k] + ts[k + 1..];
      Rooted(rest) && WellFormed(rest) && Ascending(rest)
  {
    var rest := ts[..k] + ts[k + 1..];
    assert forall i :: 0 <= i < |rest| ==> rest[i] == ts[if i < k then i else i + 1];
  }

  lemma TreesValuesRemove(ts: seq<Tree>, k: nat)
    requires k < |ts|
    ensures TreesValues(ts) == TreesValues(ts[..k] + ts[k + 1..]) + TreeValues(ts[k])
  {
    var xs, ys := ts[..k + 1], ts[k + 1..];
    assert ts == xs + ys && xs[..k] == ts[..k];
    TreesConcat(xs, ys);
    TreesConcat(ts[..k], ys);
    TreesValuesPrefix(ts, k);
  }

  lemma {:induction false} TreesConcat(xs: seq<Tree>, ys: seq<Tree>)
    ensures TreesValues(xs + ys) == TreesValues(xs) + TreesValues(ys)
  {
    if ys == [] {
      assert xs + ys == xs;
    } else {
      var zs := xs + ys;
      assert zs[..|zs| - 1] == xs + ys[..|ys| - 1] && zs[|zs| - 1] == ys[|ys| - 1];
      TreesConcat(xs, ys[..|ys| - 1]);
    }
  }

  /** Push: a one-node heap merged in. */
  function Pushed(h: Heap, value: int, fixMin: bool): Heap
    requires Rooted(h.trees) && Ascending(h.trees)
  {
    MergeHeaps(h.trees, [Tree(Some(Node(value, [])), 0)], fixMin)
  }

  /** Push of a valid heap adds exactly the value and leaves a valid heap. */
  lemma PushValid(h: Heap, value: int)
    requires ValidHeap(h)
    ensures ValidHeap(Pushed(h, value, true))
    ensures HeapValues(Pushed(h, value, true)) == HeapValues(h) + multiset{value}
  {
    var t := Tree(Some(Node(value, [])), 0);
    assert Binomial(t.root.value, 0) && HeapOrdered(t.root.value);
    MergeHeapsValid(h.trees, [t]);
    assert [t][..0] == [] && Values(t.root.value) == multiset{value};
  }

  // ---------------------------------------------------------------- the class

  class BinomialHeap {
    var trees: seq<Tree>
    var minTreeIndex: int

    function State(): Heap
      reads this
    {
      Heap(trees, minTreeIndex)
    }

    constructor ()
      ensures State() == Heap([], -1)
    {
      trees, minTreeIndex := [], -1;
    }

    /** A heap of one value. */
    constructor Single(value: int)
      ensures State() == Heap([Tree(Some(Node(value, [])), 0)], 0)
    {
      trees, minTreeIndex := [Tree(Some(Node(value, [])), 0)], 0;
    }

    /** The roots constructor: orders 0, 1, 2, ... in the given order; the
        minimum index is left at -1. */
    constructor FromRoots(roots: seq<Node>)
      ensures State() == Heap(RootTrees(roots), -1)
    {
      var ts := [];
      var order := 0;
      while order < |roots|
        invariant 0 <= order <= |roots|
        invariant ts == RootTrees(roots)[..order]
      {
        ts := ts + [Tree(Some(roots[order]), order)];
        order := order + 1;
      }
      assert RootTrees(roots)[..|roots|] == RootTrees(roots);
      trees, minTreeIndex := ts, -1;
    }

    function First(): (v: int)
      reads this
      requires Indexed(State()) && Rooted(trees) && trees != []
      ensures ValidHeap(State()) ==> v in HeapValues(State()) && forall w :: w in HeapValues(State()) ==> v <= w
    {
      assert ValidHeap(State()) ==>
          (FirstOf(State()) in HeapValues(State()) &&
           forall w :: w in HeapValues(State()) ==> FirstOf(State()) <= w) by {
        if ValidHeap(State()) { FirstIsMin(State()); }
      }
      FirstOf(State())
    }

    method Append(tree: Tree)
      requires Indexed(State()) && Rooted(trees) && tree.root.Some?
      modifies this
      ensures State() == AddTree(old(State()), tree)
    {
      trees := trees + [tree];
      if minTreeIndex == -1 || Key(tree) < Key(trees[minTreeIndex]) {
        minTreeIndex := |trees| - 1;
      }
    }

    /** appendOrMerge with the minimum index kept right on the linking path. */
    method AppendOrMerge(tree: Tree)
      requires Indexed(State()) && Rooted(trees) && tree.root.Some?
      requires trees != [] ==> trees[|trees| - 1].order <= tree.order
      modifies this
      ensures State() == AddOrMerge(old(State()), tree, true)
    {
      var t := tree;
      if trees == [] {
        Append(t);
        t := Tree(None, t.order);
      }
      var last := trees[|trees| - 1];
      if t.order > last.order {
        Append(t);
      } else {
        var m := TreeMerge(t, last).value;
        trees := trees[|trees| - 1 := m];
        if t.root.Some? && Key(m) < Key(trees[minTreeIndex]) {
          minTreeIndex := |trees| - 1;
        }
      }
    }

    /** Merge: a fresh heap built from the two lists; neither operand changes. */
    static method Merge(first: BinomialHeap, second: BinomialHeap) returns (result: BinomialHeap)
      requires Rooted(first.trees) && Rooted(second.trees) && Ascending(first.trees) && Ascending(second.trees)
      ensures fresh(result) && result.State() == MergeHeaps(first.trees, second.trees, true)
    {
      var a, b := first.trees, second.trees;
      result := new BinomialHeap();
      var i: nat, j: nat := 0, 0;
      while i < |a| && j < |b|
        invariant fresh(result) && MergeReq(a, b, i, j, result.State())
        invariant MergeFrom(a, b, i, j, result.State(), true) == MergeHeaps(a, b, true)
        decreases |a| - i + |b| - j
      {
        MergeFromStep(a, b, i, j, result.State(), true);
        i, j := result.MergeRound(a, b, i, j);
      }
      // once one list is used up, the rest of the other
      MergeRest(result, a, b, i, j);
    }

    /** The end of Merge: once one list is used up, the trees left in the
        other are appended or linked in turn. */
    static method MergeRest(result: BinomialHeap, a: seq<Tree>, b: seq<Tree>, i: nat, j: nat)
      requires MergeReq(a, b, i, j, result.State()) && (i == |a| || j == |b|)
      modifies result
      ensures result.State() == MergeFrom(a, b, i, j, old(result.State()), true)
    {
      if j < |b| {
        MergeFromRestOfSecond(a, b, j, result.State(), true);
        result.AppendOrMergeEach(b, j);
      } else {
        MergeFromRestOfFirst(a, b, i, result.State(), true);
        result.AppendOrMergeEach(a, i);
      }
    }

    /** One pass of the body of Merge's first loop: the lower-order tree of
        the two is appended or linked with the last one; two trees of one
        order are linked and the result appended. */
    method MergeRound(a: seq<Tree>, b: seq<Tree>, i: nat, j: nat) returns (i': nat, j': nat)
      requires MergeReq(a, b, i, j, State()) && i < |a| && j < |b|
      modifies this
      ensures Cursor(i', j', State()) == MergeStep(a, b, i, j, old(State()), true)
    {
      NextReady(a, b, i, j, State(), true);
      if a[i].order < b[j].order {
        AppendOrMerge(a[i]);
        i', j' := i + 1, j;
      } else if a[i].order > b[j].order {
        AppendOrMerge(b[j]);
        i', j' := i, j + 1;
      } else {
        Append(TreeMerge(a[i], b[j]).value);
        i', j' := i + 1, j + 1;
      }
    }

    /** std::for_each of appendOrMerge over the trees of `rest` from position k0 on. */
    method AppendOrMergeEach(rest: seq<Tree>, k0: nat)
      requires EachReady(State(), rest, k0)
      modifies this
      ensures State() == AddEach(old(State()), rest, k0, true)
    {
      ghost var goal := AddEach(State(), rest, k0, true);
      var k := k0;
      while k < |rest|
        invariant k0 <= k <= |rest| && EachReady(State(), rest, k)
        invariant AddEach(State(), rest, k, true) == goal
        decreases |rest| - k
      {
        AddEachNext(State(), rest, k, true);
        AppendOrMerge(rest[k]);
        k := k + 1;
      }
    }

    method Push(value: int)
      requires Rooted(trees) && Ascending(trees)
      modifies this
      ensures State() == Pushed(old(State()), value, true)
    {
      var heap := new BinomialHeap.Single(value);
      var merged := Merge(this, heap);
      trees, minTreeIndex := merged.trees, merged.minTreeIndex;
    }

    /** Pop: `thrown` when the minimum index is -1 (an empty heap, or one
      FromRoots built), which changes nothing. */
    method Pop() returns (thrown: bool)
      requires (minTreeIndex == -1 || 0 <= minTreeIndex < |trees|) && Rooted(trees) && Ascending(trees)
      modifies this
      ensures thrown <==> old(minTreeIndex) == -1
      ensures thrown ==> State() == old(State())
      ensures !thrown ==> State() == Popped(old(State()), true).value
    {
      if minTreeIndex == -1 {
        return true;
      }
      var minTree := trees[minTreeIndex];
      trees := trees[..minTreeIndex] + trees[minTreeIndex + 1..];
      var heap := new BinomialHeap.FromRoots(minTree.root.value.children);
      var merged := Merge(this, heap);
      trees, minTreeIndex := merged.trees, merged.minTreeIndex;
      thrown := false;
    }
  }
}
