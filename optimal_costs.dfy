/** The arithmetic behind OptimalBST and OptimalBSTree: the dynamic programme
    over key intervals, the tree it describes, and the proof that its cost is
    the least weighted path length of any search tree over the interval. */
module OptimalCosts {
  import opened BinaryTrees

  /** The two counters of a node: its access frequency and the cached cost of
      its subtree (an integer: Optimize adds signed amounts to it). */
  datatype Stat = Stat(freq: nat, cost: int)

  /** frequency[lo] + ... + frequency[hi - 1], the accumulate over an interval. */
  function Sum(f: seq<nat>, lo: int, hi: int): nat
    requires 0 <= lo <= hi <= |f|
    decreases hi - lo
  {
    if lo == hi then 0 else Sum(f, lo, hi - 1) + f[hi - 1]
  }

  /** How a root's candidate cost adds up its two sides: `Both` adds the two
      cached halves; `FirstOnly` is the reading the C++ grammar gives the
      conditional expression of Optimal_Tree.h, where a root with a left part
      contributes that part only. */
  datatype Rule = Both | FirstOnly

  /** One cell of the cache: no candidate yet (the UINT_MAX sentinel), or the
      least cost so far and the root that gave it. */
  datatype Entry = Unset | Entry(cost: nat, root: nat)

  /** The cost of the interval [lo, hi) under root `r`: every key of the
      interval sits one level below the root of its side. */
  function Cand(rule: Rule, f: seq<nat>, lo: int, hi: int, r: int): nat
    requires 0 <= lo <= r < hi <= |f|
    decreases hi - lo, 0
  {
    Sum(f, lo, hi) +
    match rule
    case Both => Opt(rule, f, lo, r) + Opt(rule, f, r + 1, hi)
    case FirstOnly =>
      if r > lo then Opt(rule, f, lo, r) else if r < hi - 1 then Opt(rule, f, r + 1, hi) else 0
  }

  /** The update of a cell by one candidate: only a strictly smaller cost
      replaces what the cell holds. */
  function Improve(e: Entry, c: nat, r: nat): (e': Entry)
    ensures e'.Entry? && (e' == Entry(c, r) || e' == e)
    ensures e'.cost <= c && (e.Entry? ==> e'.cost <= e.cost)
    ensures e.Entry? && e'.cost < e.cost ==> e' == Entry(c, r)
  {
    if e.Unset? || c < e.cost then Entry(c, r) else e
  }

  /** The cell of [lo, hi) after the roots lo, ..., r - 1 were tried in turn. */
  function Scan(rule: Rule, f: seq<nat>, lo: int, hi: int, r: int): (e: Entry)
    requires 0 <= lo <= r <= hi <= |f|
    ensures r > lo ==> e.Entry? && lo <= e.root < r
    decreases hi - lo, 1, r - lo
  {
    if r == lo then Unset else Improve(Scan(rule, f, lo, hi, r - 1), Cand(rule, f, lo, hi, r - 1), r - 1)
  }

  /** The cost the cache holds for [lo, hi) once every root was tried (an empty
      side counts 0). */
  function Opt(rule: Rule, f: seq<nat>, lo: int, hi: int): nat
    requires 0 <= lo <= hi <= |f|
    decreases hi - lo, 2
  {
    if lo == hi then 0 else Scan(rule, f, lo, hi, hi).cost
  }

  /** The root the cache holds for [lo, hi). */
  function Best(rule: Rule, f: seq<nat>, lo: int, hi: int): (r: nat)
    requires 0 <= lo < hi <= |f|
    ensures lo <= r < hi
  {
    Scan(rule, f, lo, hi, hi).root
  }

  /** After the roots lo, ..., r - 1, the cell holds the least of their costs,
      at the first root that reaches it. */
  lemma {:induction false} ScanSpec(rule: Rule, f: seq<nat>, lo: int, hi: int, r: int)
    requires 0 <= lo < r <= hi <= |f|
    ensures var e := Scan(rule, f, lo, hi, r);
      e.cost == Cand(rule, f, lo, hi, e.root) &&
      (forall k :: lo <= k < r ==> e.cost <= Cand(rule, f, lo, hi, k)) &&
      (forall k :: lo <= k < e.root ==> e.cost < Cand(rule, f, lo, hi, k))
    decreases r
  {
    if r - 1 > lo {
      ScanSpec(rule, f, lo, hi, r - 1);
    }
  }

  /** Opt is the least candidate cost, reached first at Best. */
  lemma OptSpec(rule: Rule, f: seq<nat>, lo: int, hi: int)
    requires 0 <= lo < hi <= |f|
    ensures Opt(rule, f, lo, hi) == Cand(rule, f, lo, hi, Best(rule, f, lo, hi))
    ensures forall k :: lo <= k < hi ==> Opt(rule, f, lo, hi) <= Cand(rule, f, lo, hi, k)
    ensures forall k :: lo <= k < Best(rule, f, lo, hi) ==> Opt(rule, f, lo, hi) < Cand(rule, f, lo, hi, k)
  {
    ScanSpec(rule, f, lo, hi, hi);
  }

  // ---------------------------------------------------------------------
  // Weighted path length

  /** Σ freq × depth over the nodes of `t`, its root at depth `d`. */
  function Depthed(t: Tree<Stat>, d: nat): nat
  {
    if t.Leaf? then 0 else t.info.freq * d + Depthed(t.left, d + 1) + Depthed(t.right, d + 1)
  }

  /** The weighted path length of `t`, the root at depth 1: the expected number
      of comparisons of a search that the frequencies describe. */
  function TreeCost(t: Tree<Stat>): nat
  {
    Depthed(t, 1)
  }

  /** Σ freq over the nodes of `t`. */
  function Mass(t: Tree<Stat>): nat
  {
    if t.Leaf? then 0 else t.info.freq + Mass(t.left) + Mass(t.right)
  }

  lemma {:induction false} DepthShift(t: Tree<Stat>, d: nat)
    ensures Depthed(t, d + 1) == Depthed(t, d) + Mass(t)
  {
    if t.Node? {
      DepthShift(t.left, d + 1);
      DepthShift(t.right, d + 1);
      assert t.info.freq * (d + 1) == t.info.freq * d + t.info.freq;
    }
  }

  /** A subtree's cost is its mass plus the costs of its two sides; this is the
      recurrence of the cache and of visitCount. */
  lemma CostSplit(t: Tree<Stat>)
    requires t.Node?
    ensures TreeCost(t) == Mass(t) + TreeCost(t.left) + TreeCost(t.right)
  {
    DepthShift(t.left, 1);
    DepthShift(t.right, 1);
  }

  /** Every node caches the cost of its own subtree. */
  ghost predicate Exact(t: Tree<Stat>)
  {
    t.Leaf? || (t.info.cost == TreeCost(t) && Exact(t.left) && Exact(t.right))
  }

  /** The in-order indices of `t` are exactly lo, ..., hi - 1. */
  ghost predicate Spans<A>(t: Tree<A>, lo: int, hi: int)
  {
    if t.Leaf? then lo == hi
    else lo <= t.id < hi && Spans(t.left, lo, t.id) && Spans(t.right, t.id + 1, hi)
  }

  /** Every node carries the frequency the input gives its index. */
  ghost predicate Labelled(t: Tree<Stat>, f: seq<nat>)
  {
    t.Leaf? || (t.id < |f| && t.info.freq == f[t.id] && Labelled(t.left, f) && Labelled(t.right, f))
  }

  lemma {:induction false} SumSplit(f: seq<nat>, lo: int, m: int, hi: int)
    requires 0 <= lo <= m <= hi <= |f|
    ensures Sum(f, lo, hi) == Sum(f, lo, m) + Sum(f, m, hi)
    decreases hi - m
  {
    if m < hi {
      SumSplit(f, lo, m, hi - 1);
    }
  }

  lemma {:induction false} SpansBounds<A>(t: Tree<A>, lo: int, hi: int)
    requires Spans(t, lo, hi)
    ensures lo <= hi && Count(t) == hi - lo
  {
    if t.Node? {
      SpansBounds(t.left, lo, t.id);
      SpansBounds(t.right, t.id + 1, hi);
    }
  }

  /** The mass of a labelled tree over [lo, hi) is the interval's frequency sum. */
  lemma {:induction false} MassSpan(t: Tree<Stat>, f: seq<nat>, lo: int, hi: int)
    requires Spans(t, lo, hi) && Labelled(t, f) && 0 <= lo && hi <= |f|
    ensures lo <= hi && Mass(t) == Sum(f, lo, hi)
  {
    SpansBounds(t, lo, hi);
    if t.Node? {
      SpansBounds(t.left, lo, t.id);
      SpansBounds(t.right, t.id + 1, hi);
      MassSpan(t.left, f, lo, t.id);
      MassSpan(t.right, f, t.id + 1, hi);
      SumSplit(f, lo, t.id, hi);
      SumSplit(f, t.id, t.id + 1, hi);
    }
  }

  /** No search tree over the keys [lo, hi) has a smaller weighted path length
      than the cached optimum. */
  lemma {:induction false} OptLeast(t: Tree<Stat>, f: seq<nat>, lo: int, hi: int)
    requires Spans(t, lo, hi) && Labelled(t, f) && 0 <= lo && hi <= |f|
    ensures lo <= hi && Opt(Both, f, lo, hi) <= TreeCost(t)
  {
    SpansBounds(t, lo, hi);
    if t.Node? {
      SpansBounds(t.left, lo, t.id);
      SpansBounds(t.right, t.id + 1, hi);
      OptLeast(t.left, f, lo, t.id);
      OptLeast(t.right, f, t.id + 1, hi);
      CostSplit(t);
      MassSpan(t, f, lo, hi);
      OptSpec(Both, f, lo, hi);
      assert Opt(Both, f, lo, hi) <= Cand(Both, f, lo, hi, t.id);
    }
  }

  /** The tree buildTree makes over [lo, hi): the cached root, carrying the
      interval's cached cost, over the trees of its two sides. */
  function Grown(f: seq<nat>, keys: seq<int>, lo: int, hi: int): Tree<Stat>
    requires 0 <= lo <= hi <= |f| && |keys| == |f|
    decreases hi - lo
  {
    if lo == hi then Leaf
    else
      var r := Best(Both, f, lo, hi);
      Node(r, keys[r], Stat(f[r], Opt(Both, f, lo, hi)), Grown(f, keys, lo, r), Grown(f, keys, r + 1, hi))
  }

  /** The built tree is a tree over [lo, hi) whose weighted path length is the
      optimum, and every node caches its own subtree's cost. */
  lemma {:induction false} GrownSpec(f: seq<nat>, keys: seq<int>, lo: int, hi: int)
    requires 0 <= lo <= hi <= |f| && |keys| == |f|
    ensures var t := Grown(f, keys, lo, hi);
      Spans(t, lo, hi) && Labelled(t, f) && Exact(t) && TreeCost(t) == Opt(Both, f, lo, hi)
    decreases hi - lo
  {
    if lo < hi {
      var r := Best(Both, f, lo, hi);
      var t := Grown(f, keys, lo, hi);
      GrownSpec(f, keys, lo, r);
      GrownSpec(f, keys, r + 1, hi);
      CostSplit(t);
      MassSpan(t.left, f, lo, r);
      MassSpan(t.right, f, r + 1, hi);
      SumSplit(f, lo, r, hi);
      SumSplit(f, r, r + 1, hi);
      OptSpec(Both, f, lo, hi);
    }
  }

  /** The built tree is optimal: no search tree over the same keys and
      frequencies has a smaller weighted path length. */
  lemma GrownOptimal(f: seq<nat>, keys: seq<int>, t: Tree<Stat>)
    requires |keys| == |f| && Spans(t, 0, |f|) && Labelled(t, f)
    ensures TreeCost(Grown(f, keys, 0, |f|)) <= TreeCost(t)
  {
    GrownSpec(f, keys, 0, |f|);
    OptLeast(t, f, 0, |f|);
  }

  /** The in-order sequence of the built tree is the input order. */
  lemma {:induction false} GrownElems(f: seq<nat>, keys: seq<int>, lo: int, hi: int)
    requires 0 <= lo <= hi <= |f| && |keys| == |f|
    ensures var e := Elems(Grown(f, keys, lo, hi));
      |e| == hi - lo && forall i :: 0 <= i < |e| ==> e[i] == (lo + i, keys[lo + i])
    decreases hi - lo
  {
    if lo < hi {
      var r := Best(Both, f, lo, hi);
      GrownElems(f, keys, lo, r);
      GrownElems(f, keys, r + 1, hi);
      var a, b := Elems(Grown(f, keys, lo, r)), Elems(Grown(f, keys, r + 1, hi));
      var e := a + [(r, keys[r])] + b;
      forall i | 0 <= i < |e| ensures e[i] == (lo + i, keys[lo + i]) {
        if i < |a| { assert e[i] == a[i]; }
        else if i > |a| { assert e[i] == b[i - |a| - 1]; }
      }
    }
  }

  /** Spanning trees use each index once. */
  lemma {:induction false} SpansDistinct<A>(t: Tree<A>, lo: int, hi: int)
    requires Spans(t, lo, hi)
    ensures Distinct(t) && forall i :: i in Ids(t) ==> lo <= i < hi
  {
    if t.Node? {
      SpansDistinct(t.left, lo, t.id);
      SpansDistinct(t.right, t.id + 1, hi);
    }
  }

  // ---------------------------------------------------------------------
  // Find's counters and Optimize's rotations

  /** Cost(node): the cached cost, 0 for an absent node. */
  function CostOf(t: Tree<Stat>): int
  {
    if t.Leaf? then 0 else t.info.cost
  }

  /** visitCount(): the cached cost less the children's, 0 for an absent node. */
  function Visit(t: Tree<Stat>): int
  {
    if t.Leaf? then 0 else t.info.cost - CostOf(t.left) - CostOf(t.right)
  }

  /** Where every cost is cached exactly, a node's visit count is the total
      frequency of its subtree. */
  lemma VisitMass(t: Tree<Stat>)
    ensures Exact(t) ==> CostOf(t) == TreeCost(t) && Visit(t) == Mass(t)
  {
    if t.Node? {
      CostSplit(t);
    }
  }

  /** The counters after a successful search: `freq++; cost++`. */
  function Bumped(x: Tree<Stat>): (r: Tree<Stat>)
    requires x.Node?
    ensures r.Node? && r.id == x.id && r.key == x.key && r.left == x.left && r.right == x.right
    ensures r.info.freq == x.info.freq + 1 && r.info.cost == x.info.cost + 1
  {
    x.(info := Stat(x.info.freq + 1, x.info.cost + 1))
  }

  /** The node with a new cached cost. */
  function Recost(x: Tree<Stat>, c: int): Tree<Stat>
    requires x.Node?
  {
    x.(info := x.info.(cost := c))
  }

  /** The state Optimize expects at the node at `p` with increment `g`: the
      subtree there is a node, it and every subtree hanging off the path to it
      cache their costs exactly, and the ancestor `k` levels up caches `g + k`
      less than its subtree's cost. */
  ghost predicate Pending(t: Tree<Stat>, p: Path, g: int)
    decreases |p|
  {
    if p == [] then t.Node? && Exact(t)
    else
      t.Node? && TreeCost(t) == t.info.cost + g + |p| &&
      Exact(Child(t, Other(p[0]))) && Pending(Child(t, p[0]), p[1..], g)
  }

  /** The node Optimize stands at is there and caches its cost exactly. */
  lemma {:induction false} PendingAt(t: Tree<Stat>, p: Path, g: int)
    requires Pending(t, p, g)
    ensures Reaches(t, p) && At(t, p).Node? && Exact(At(t, p))
    decreases |p|
  {
    if p != [] {
      PendingAt(Child(t, p[0]), p[1..], g);
    }
  }

  /** The cost a rotation of the child on side `e` above `x` gives the node
      that goes down (altParentCost): its own frequency, the visit counts and
      cached costs of its two new children. */
  function AltParentCost(x: Tree<Stat>, e: Dir): int
    requires x.Node? && Child(x, e).Node?
  {
    var inner, sib := Child(Child(x, e), Other(e)), Child(x, Other(e));
    x.info.freq + Visit(inner) + Visit(sib) + CostOf(inner) + CostOf(sib)
  }

  /** The cost of the subtree after that rotation (altCost). */
  function AltCost(x: Tree<Stat>, e: Dir): int
    requires x.Node? && Child(x, e).Node?
  {
    Visit(x) + CostOf(Child(Child(x, e), e)) + AltParentCost(x, e)
  }

  /** The subtree after Optimize rotated the child on side `e` above `x` and
      stored the two costs it computed. */
  function Turned(x: Tree<Stat>, e: Dir): (u: Tree<Stat>)
    requires x.Node? && Child(x, e).Node?
    ensures u.Node? && Child(u, Other(e)).Node? && u.id == Child(x, e).id
  {
    var y := Rot(x, Other(e));
    var down := Child(y, Other(e));
    Recost(WithChild(y, Other(e), Recost(down, AltParentCost(x, e))), AltCost(x, e))
  }

  /** Where `x` caches its costs exactly, so does the turned subtree, whose
      cost is altCost; the rotation keeps the nodes and their order. */
  lemma TurnedSpec(x: Tree<Stat>, e: Dir)
    requires x.Node? && Child(x, e).Node? && Exact(x)
    ensures var u := Turned(x, e);
      Exact(u) && Mass(u) == Mass(x) && TreeCost(u) == AltCost(x, e) &&
      Elems(u) == Elems(x) && Ids(u) == Ids(x) && Count(u) == Count(x) &&
      (Distinct(x) ==> Distinct(u))
  {
    var n := Child(x, e);
    var a, b, c := Child(n, e), Child(n, Other(e)), Child(x, Other(e));
    VisitMass(x);
    VisitMass(a);
    VisitMass(b);
    VisitMass(c);
    var y := Rot(x, Other(e));
    RotElems(x, Other(e));
    var down := Recost(Child(y, Other(e)), AltParentCost(x, e));
    var u := Turned(x, e);
    assert down == Node(x.id, x.key, Stat(x.info.freq, AltParentCost(x, e)),
                        if e == L then b else c, if e == L then c else b);
    CostSplit(down);
    assert u == Node(n.id, n.key, Stat(n.info.freq, AltCost(x, e)),
                     if e == L then a else down, if e == L then down else a);
    CostSplit(u);
    CostSplit(x);
    CostSplit(n);
    assert Ids(down) == Ids(Child(y, Other(e))) && Elems(down) == Elems(Child(y, Other(e)));
    assert Elems(u) == Elems(y) && Ids(u) == Ids(y) by { if e == L { } else { } }
  }

  /** A successful search starts Optimize at the found node with increment 1:
      the node's own subtree grew by one, each ancestor by one more per level. */
  lemma {:induction false} BumpPending(t: Tree<Stat>, p: Path)
    requires Exact(t) && At(t, p).Node?
    ensures var t' := Put(t, p, Bumped(At(t, p)));
      Pending(t', p, 1) && TreeCost(t') == TreeCost(t) + |p| + 1 && Mass(t') == Mass(t) + 1
    decreases |p|
  {
    if p == [] {
      CostSplit(t);
      CostSplit(Bumped(t));
    } else {
      var c := Child(t, p[0]);
      BumpPending(c, p[1..]);
      CostSplit(t);
      CostSplit(Put(t, p, Bumped(At(t, p))));
    }
  }

  /** Optimize without a rotation: the parent adds `g + 1` to its cost, which
      is then exact, and the pending increment one level up is `g + 1`. */
  lemma {:induction false} RaisePending(t: Tree<Stat>, p: Path, g: int)
    requires Pending(t, p, g) && p != []
    ensures At(t, Parent(p)).Node? && Child(At(t, Parent(p)), Last(p)).Node?
    ensures var q := Parent(p); var x := At(t, q);
      var t' := Put(t, q, Recost(x, x.info.cost + g + 1));
      Pending(t', q, g + 1) && Exact(At(t', q)) &&
      TreeCost(t') == TreeCost(t) && Mass(t') == Mass(t) && Elems(t') == Elems(t)
    decreases |p|
  {
    var d := p[0];
    var c := Child(t, d);
    if |p| == 1 {
      assert Parent(p) == [] && Last(p) == d;
      CostSplit(t);
      CostSplit(Recost(t, t.info.cost + g + 1));
    } else {
      var q := Parent(p[1..]);
      RaisePending(c, p[1..], g);
      assert Parent(p) == [d] + q && Last(p) == Last(p[1..]);
      assert Parent(p)[0] == d && Parent(p)[1..] == q;
      var x := At(c, q);
      var c' := Put(c, q, Recost(x, x.info.cost + g + 1));
      RaiseAbove(t, d, c');
    }
  }

  /** Swapping the child on side `d` for one of the same cost, mass and
      in-order sequence changes neither the whole tree's cost, mass nor
      in-order sequence. */
  lemma RaiseAbove(t: Tree<Stat>, d: Dir, c': Tree<Stat>)
    requires t.Node? && TreeCost(c') == TreeCost(Child(t, d))
    requires Mass(c') == Mass(Child(t, d)) && Elems(c') == Elems(Child(t, d))
    ensures var t' := WithChild(t, d, c');
      TreeCost(t') == TreeCost(t) && Mass(t') == Mass(t) && Elems(t') == Elems(t)
  {
    var t' := WithChild(t, d, c');
    CostSplit(t);
    CostSplit(t');
  }

  /** Replacing the subtree at `q` by an exactly cached one of the same mass
      shifts the pending increment there, and the whole tree's cost, by the
      change of that subtree's cost. */
  lemma {:induction false} ReplacePending(t: Tree<Stat>, q: Path, h: int, u: Tree<Stat>)
    requires Pending(t, q, h) && u.Node? && Exact(u) && Mass(u) == Mass(At(t, q))
    ensures var t' := Put(t, q, u); var delta := TreeCost(u) - TreeCost(At(t, q));
      Pending(t', q, h + delta) && TreeCost(t') == TreeCost(t) + delta && Mass(t') == Mass(t)
    decreases |q|
  {
    if q != [] {
      var c := Child(t, q[0]);
      ReplacePending(c, q[1..], h, u);
      CostSplit(t);
      CostSplit(Put(t, q, u));
    }
  }

  /** The parent of a node reached by `p` is a node, and the node is its child
      on the side of the last step. */
  lemma ParentAt<A>(t: Tree<A>, p: Path)
    requires p != [] && At(t, p).Node?
    ensures Reaches(t, p) && Reaches(t, Parent(p)) && At(t, Parent(p)).Node?
    ensures Child(At(t, Parent(p)), Last(p)) == At(t, p)
  {
    AtNodeReaches(t, p);
    ReachesPrefix(t, p, |p| - 1);
    assert p[..|p|] == p;
  }

  /** Rotating at `q` and then storing the two new costs node by node, as
      Optimize does, puts the turned subtree at `q`. */
  lemma TurnedPut(t: Tree<Stat>, q: Path, e: Dir)
    requires Reaches(t, q) && At(t, q).Node? && Child(At(t, q), e).Node?
    ensures var x := At(t, q); var t2 := RotAt(t, q, Other(e));
      var t3 := Put(t2, q, Recost(Rot(x, Other(e)), AltCost(x, e)));
      Reaches(t3, q + [Other(e)]) && At(t3, q + [Other(e)]).Node? &&
      Put(t3, q + [Other(e)], Recost(At(t3, q + [Other(e)]), AltParentCost(x, e))) ==
        Put(t, q, Turned(x, e))
  {
    var x := At(t, q);
    var y := Rot(x, Other(e));
    AtPut(t, q, y);
    var y1 := Recost(y, AltCost(x, e));
    PutPut(t, q, y, y1);
    AtPut(t, q, y1);
    var t3 := Put(t, q, y1);
    AtAppend(t3, q, [Other(e)]);
    ReachesAppend(t3, q, [Other(e)]);
    var v := Recost(Child(y1, Other(e)), AltParentCost(x, e));
    PutAppend(t3, q, [Other(e)], v);
    PutPut(t, q, y1, Put(y1, [Other(e)], v));
    assert Put(y1, [Other(e)], v) == Turned(x, e);
  }

  /** The rotation of Optimize leaves the walk pending one level up with the
      increment changed by altCost less the parent's cost, the whole tree's
      weighted path length changed by the same amount, and the order and the
      frequencies as they were. */
  lemma TurnPending(t: Tree<Stat>, q: Path, h: int, e: Dir)
    requires Pending(t, q, h) && At(t, q).Node? && Child(At(t, q), e).Node?
    ensures var x := At(t, q); var t' := Put(t, q, Turned(x, e));
      Pending(t', q, h + AltCost(x, e) - x.info.cost) &&
      TreeCost(t') == TreeCost(t) + AltCost(x, e) - x.info.cost &&
      Elems(t') == Elems(t) && Mass(t') == Mass(t) &&
      Reaches(t', q) && At(t', q) == Turned(x, e)
  {
    var x := At(t, q);
    PendingAt(t, q, h);
    TurnedSpec(x, e);
    ReplacePending(t, q, h, Turned(x, e));
    ElemsPut(t, q, Turned(x, e));
    AtPut(t, q, Turned(x, e));
  }

  /** Optimize as OptimalBST.h writes it, on values: the parent adds
      `costInc + 1` to its cost, the child on side `e` rises when that makes
      the subtree cheaper, and the walk goes on one level up; after a rotation
      the increment passed up stays `costInc`, although the subtree's cost grew
      by `costInc + 1` less the saving. */
  function OptimizedAsWritten(t: Tree<Stat>, p: Path, inc: int): Tree<Stat>
    requires At(t, p).Node?
    decreases |p|
  {
    if p == [] then t
    else
      ParentAt(t, p);
      var q, e := Parent(p), Last(p);
      var x := At(t, q);
      var x1 := Recost(x, x.info.cost + inc + 1);
      var t1 := Put(t, q, x1);
      AtPut(t, q, x1);
      if x1.info.cost > AltCost(x1, e) then
        var u := Turned(x1, e);
        AtPut(t1, q, u);
        OptimizedAsWritten(Put(t1, q, u), q, inc)
      else
        OptimizedAsWritten(t1, q, inc + 1)
  }

  /** Optimize's walk in OptimizeAsWrittenStale, one level at a time. */
  lemma StaleWalk()
    ensures var b0 := Node(1, 20, Stat(2, 2), Leaf, Leaf);
      var t0 := Node(3, 40, Stat(100, 109), Node(2, 30, Stat(1, 6), Node(0, 10, Stat(1, 3), Leaf, b0), Leaf), Leaf);
      var u2 := Node(1, 20, Stat(2, 6), Node(0, 10, Stat(1, 1), Leaf, Leaf), Node(2, 30, Stat(1, 1), Leaf, Leaf));
      OptimizedAsWritten(t0, [L, L, R], 1) == Node(3, 40, Stat(100, 111), u2, Leaf)
  {
    var b0 := Node(1, 20, Stat(2, 2), Leaf, Leaf);
    var t0 := Node(3, 40, Stat(100, 109), Node(2, 30, Stat(1, 6), Node(0, 10, Stat(1, 3), Leaf, b0), Leaf), Leaf);
    // 20 rises above 10: the subtree of 10 goes from 5 to 4
    var u1 := Node(1, 20, Stat(2, 4), Node(0, 10, Stat(1, 1), Leaf, Leaf), Leaf);
    assert Turned(Node(0, 10, Stat(1, 5), Leaf, b0), R) == u1;
    var t1 := Node(3, 40, Stat(100, 109), Node(2, 30, Stat(1, 6), u1, Leaf), Leaf);
    assert [L, L, R][..2] == [L, L];
    assert OptimizedAsWritten(t0, [L, L, R], 1) == OptimizedAsWritten(t1, [L, L], 1);
    // 20 rises above 30: the subtree goes from 8 to 6, a saving of 2
    var u2 := Node(1, 20, Stat(2, 6), Node(0, 10, Stat(1, 1), Leaf, Leaf), Node(2, 30, Stat(1, 1), Leaf, Leaf));
    assert Turned(Node(2, 30, Stat(1, 8), u1, Leaf), L) == u2;
    var t2 := Node(3, 40, Stat(100, 109), u2, Leaf);
    assert [L, L][..1] == [L];
    assert OptimizedAsWritten(t1, [L, L], 1) == OptimizedAsWritten(t2, [L], 1);
  }

  /** The tree Init builds for keys 10, 20, 30, 40 with frequencies 0, 0, 0,
      100, after finds of 30, 10 and 20: 40 over 30 over 10, with 20 right of
      10, every cost exact. The next find of 20 rotates 20 above 10, saving 2,
      yet the levels above are told that their subtree grew by the full
      increment, and the root caches 111 for a tree whose cost is 110. */
  lemma OptimizeAsWrittenStale()
    ensures var b := Node(1, 20, Stat(1, 1), Leaf, Leaf);
      var t := Node(3, 40, Stat(100, 109), Node(2, 30, Stat(1, 6), Node(0, 10, Stat(1, 3), Leaf, b), Leaf), Leaf);
      var u := OptimizedAsWritten(Put(t, [L, L, R], Bumped(At(t, [L, L, R]))), [L, L, R], 1);
      Exact(t) && u.Node? && u.info.cost == 111 && TreeCost(u) == 110 && !Exact(u)
  {
    var b := Node(1, 20, Stat(1, 1), Leaf, Leaf);
    var t := Node(3, 40, Stat(100, 109), Node(2, 30, Stat(1, 6), Node(0, 10, Stat(1, 3), Leaf, b), Leaf), Leaf);
    var b0 := Node(1, 20, Stat(2, 2), Leaf, Leaf);
    assert Put(t, [L, L, R], Bumped(At(t, [L, L, R]))) ==
      Node(3, 40, Stat(100, 109), Node(2, 30, Stat(1, 6), Node(0, 10, Stat(1, 3), Leaf, b0), Leaf), Leaf);
    StaleWalk();
    var u2 := Node(1, 20, Stat(2, 6), Node(0, 10, Stat(1, 1), Leaf, Leaf), Node(2, 30, Stat(1, 1), Leaf, Leaf));
    assert TreeCost(u2) == 6;
    assert Depthed(u2, 2) == 10;
    assert Exact(t.left.left);

  }
}
