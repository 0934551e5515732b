/** The persistent binary search tree: nodes are never changed after they
    are made, and Insert and Erase copy the search path into fresh nodes
    (MakeNode), sharing every other subtree with the version they started
    from.  Dafny datatype values are immutable, so the old version staying
    intact is built into the model; what is proved is what each new version
    holds. */
module Persistent {

  /** A node pointer: `Nil` is nullptr. */
  datatype PTree<T> = Nil | Node(key: int, data: T, left: PTree<T>, right: PTree<T>)

  function Keys<T>(t: PTree<T>): set<int>
  {
    if t.Nil? then {} else Keys(t.left) + {t.key} + Keys(t.right)
  }

  /** Every key left of a node is smaller, every key right of it larger. */
  ghost predicate IsBST<T>(t: PTree<T>)
  {
    t.Nil? ||
    ((forall k :: k in Keys(t.left) ==> k < t.key) &&
     (forall k :: k in Keys(t.right) ==> t.key < k) &&
     IsBST(t.left) && IsBST(t.right))
  }

  /** The key -> data map a search tree stands for. */
  ghost function Contents<T>(t: PTree<T>): map<int, T>
  {
    if t.Nil? then map[] else (Contents(t.left) + Contents(t.right))[t.key := t.data]
  }

  /** MakeNode: a fresh copy of `root`'s key and data over new children. */
  function MakeNode<T>(root: PTree<T>, left: PTree<T>, right: PTree<T>): (r: PTree<T>)
    requires root.Node?
    ensures r.Node? && r.key == root.key && r.data == root.data && r.left == left && r.right == right
    ensures Keys(r) == Keys(left) + {root.key} + Keys(right)
  {
    Node(root.key, root.data, left, right)
  }

  /** Insert: a new leaf for an absent key; a present key returns the subtree as it is. */
  function InsertIn<T>(root: PTree<T>, key: int, data: T): (r: PTree<T>)
    ensures Keys(r) == Keys(root) + {key}
  {
    if root.Nil? then Node(key, data, Nil, Nil)
    else if root.key > key then MakeNode(root, InsertIn(root.left, key, data), root.right)
    else if root.key < key then MakeNode(root, root.left, InsertIn(root.right, key, data))
    else root
  }

  /** FindMinNode: the subtree without its leftmost node, and that node. */
  function TakeMin<T>(node: PTree<T>): (r: (PTree<T>, PTree<T>))
    requires node.Node?
    ensures r.1.Node? && r.1.key in Keys(node)
    ensures Keys(r.0) + {r.1.key} == Keys(node)
  {
    if node.left.Nil? then (node.right, node)
    else
      var (rest, min) := TakeMin(node.left);
      (MakeNode(node, rest, node.right), min)
  }

  function EraseIn<T>(root: PTree<T>, key: int): (r: PTree<T>)
    ensures Keys(r) <= Keys(root)
  {
    if root.Nil? then Nil
    else if root.key > key then MakeNode(root, EraseIn(root.left, key), root.right)
    else if root.key < key then MakeNode(root, root.left, EraseIn(root.right, key))
    else if root.left.Nil? then root.right
    else if root.right.Nil? then root.left
    else
      var (rightBranch, minNode) := TakeMin(root.right);
      MakeNode(minNode, root.left, rightBranch)
  }

  /** Find: the node holding `key`, or Nil. */
  function FindIn<T>(root: PTree<T>, key: int): (r: PTree<T>)
    ensures r.Nil? || (r.key == key && key in Keys(root))
  {
    if root.Nil? then Nil
    else if root.key < key then FindIn(root.right, key)
    else if root.key > key then FindIn(root.left, key)
    else root
  }

  /** One version of the tree: the class holds nothing but its root. */
  datatype PersistentBST<T> = PersistentBST(root: PTree<T>)
  {
    /** The new version holds `key -> data` besides the old entries; a present
        key keeps its old data. */
    function Insert(key: int, data: T): (v: PersistentBST<T>)
      ensures Keys(v.root) == Keys(root) + {key}
      ensures IsBST(root) ==>
        (IsBST(v.root) &&
         Contents(v.root) == if key in Contents(root) then Contents(root) else Contents(root)[key := data])
    {
      assert IsBST(root) ==> IsBST(InsertIn(root, key, data)) by {
        if IsBST(root) { InsertOrdered(root, key, data); }
      }
      assert IsBST(root) ==>
        (Contents(InsertIn(root, key, data)) ==
         if key in Contents(root) then Contents(root) else Contents(root)[key := data]) by {
        if IsBST(root) { InsertContents(root, key, data); }
      }
      PersistentBST(InsertIn(root, key, data))
    }

    /** The new version holds the old entries but the one of `key`. */
    function Erase(key: int): (v: PersistentBST<T>)
      ensures Keys(v.root) <= Keys(root)
      ensures IsBST(root) ==> IsBST(v.root) && Contents(v.root) == Contents(root) - {key}
    {
      assert IsBST(root) ==> IsBST(EraseIn(root, key)) && Contents(EraseIn(root, key)) == Contents(root) - {key} by {
        if IsBST(root) { EraseOrdered(root, key); EraseContents(root, key); }
      }
      PersistentBST(EraseIn(root, key))
    }

    /** The node of `key`, or Nil exactly when the key is absent. */
    function Find(key: int): (r: PTree<T>)
      ensures r.Nil? || (r.key == key && key in Keys(root))
      ensures IsBST(root) ==>
        ((r.Node? <==> key in Contents(root)) && (r.Node? ==> r.data == Contents(root)[key]))
    {
      assert IsBST(root) ==>
        ((FindIn(root, key).Node? <==> key in Contents(root)) &&
         (FindIn(root, key).Node? ==> FindIn(root, key).data == Contents(root)[key])) by {
        ContentsKeys(root);
        if IsBST(root) { FindBST(root, key); }
      }
      FindIn(root, key)
    }

    /** Empty exactly when the version holds no key. */
    function Empty(): (b: bool)
      ensures b <==> Keys(root) == {}
    {
      root == Nil
    }
  }

  // ---------------------------------------------------------------------
  // Search-tree facts

  lemma ContentsKeys<T>(t: PTree<T>)
    ensures Contents(t).Keys == Keys(t)
  {
  }

  /** Inserting a present key gives back the very same subtree. */
  lemma {:induction false} InsertPresent<T>(t: PTree<T>, key: int, data: T)
    requires IsBST(t) && key in Keys(t)
    ensures InsertIn(t, key, data) == t
  {
    if t.key > key {
      assert key !in Keys(t.right);
      InsertPresent(t.left, key, data);
    } else if t.key < key {
      assert key !in Keys(t.left);
      InsertPresent(t.right, key, data);
    }
  }

  // Map facts the search-tree proofs rest on: the node's own entry, the left
  // entries and the right entries are three disjoint parts.

  lemma UpdateLeft<T>(a: map<int, T>, b: map<int, T>, k: int, d: T, tk: int, td: T)
    requires k !in b && k != tk
    ensures (a[k := d] + b)[tk := td] == ((a + b)[tk := td])[k := d]
  {
  }

  lemma UpdateRight<T>(a: map<int, T>, b: map<int, T>, k: int, d: T, tk: int, td: T)
    requires k != tk
    ensures (a + b[k := d])[tk := td] == ((a + b)[tk := td])[k := d]
  {
  }

  lemma RemoveLeft<T>(a: map<int, T>, b: map<int, T>, k: int, tk: int, td: T)
    requires k !in b && k != tk
    ensures (a - {k} + b)[tk := td] == (a + b)[tk := td] - {k}
  {
  }

  lemma RemoveRight<T>(a: map<int, T>, b: map<int, T>, k: int, tk: int, td: T)
    requires k !in a && k != tk
    ensures (a + (b - {k}))[tk := td] == (a + b)[tk := td] - {k}
  {
  }

  lemma RemoveTop<T>(a: map<int, T>, b: map<int, T>, tk: int, td: T)
    requires tk !in a && tk !in b
    ensures (a + b)[tk := td] - {tk} == a + b
  {
  }

  lemma UpdateUnion<T>(a: map<int, T>, b: map<int, T>, mk: int, md: T)
    requires mk !in a
    ensures a + b[mk := md] == (a + b)[mk := md]
  {
  }

  /** Insert keeps the search order. */
  lemma {:induction false} InsertOrdered<T>(t: PTree<T>, key: int, data: T)
    requires IsBST(t)
    ensures IsBST(InsertIn(t, key, data))
  {
    if t.Node? {
      if t.key > key {
        InsertOrdered(t.left, key, data);
      } else if t.key < key {
        InsertOrdered(t.right, key, data);
      }
    }
  }

  /** Insert adds `key -> data` when the key is new, and changes nothing otherwise. */
  lemma {:induction false} InsertContents<T>(t: PTree<T>, key: int, data: T)
    requires IsBST(t)
    ensures Contents(InsertIn(t, key, data)) ==
            if key in Contents(t) then Contents(t) else Contents(t)[key := data]
  {
    ContentsKeys(t);
    if t.Node? {
      ContentsKeys(t.left);
      ContentsKeys(t.right);
      var l, r := Contents(t.left), Contents(t.right);
      if t.key > key {
        InsertContents(t.left, key, data);
        assert key !in Keys(t.right);
        if key !in Keys(t.left) {
          UpdateLeft(l, r, key, data, t.key, t.data);
        }
      } else if t.key < key {
        InsertContents(t.right, key, data);
        assert key !in Keys(t.left);
        if key !in Keys(t.right) {
          UpdateRight(l, r, key, data, t.key, t.data);
        }
      }
    }
  }

  /** TakeMin in a search tree: the taken node holds the smallest key, and the rest
      is a search tree of the remaining entries. */
  lemma {:induction false} TakeMinBST<T>(t: PTree<T>)
    requires t.Node? && IsBST(t)
    ensures var (rest, min) := TakeMin(t);
      IsBST(rest) && min.key !in Keys(rest) && (forall k :: k in Keys(rest) ==> min.key < k) &&
      Contents(t) == Contents(rest)[min.key := min.data]
  {
    if t.left.Node? {
      TakeMinBST(t.left);
      var (rest, min) := TakeMin(t.left);
      ContentsKeys(rest);
      ContentsKeys(t.right);
      assert min.key < t.key && min.key !in Keys(t.right);
      UpdateLeft(Contents(rest), Contents(t.right), min.key, min.data, t.key, t.data);
      assert TakeMin(t).0 == Node(t.key, t.data, rest, t.right);
    } else {
      ContentsKeys(t.right);
    }
  }

  /** Erase keeps the search order and removes exactly the key `key`. */
  lemma {:induction false} EraseOrdered<T>(t: PTree<T>, key: int)
    requires IsBST(t)
    ensures IsBST(EraseIn(t, key)) && Keys(EraseIn(t, key)) == Keys(t) - {key}
  {
    if t.Node? {
      if t.key > key {
        EraseOrdered(t.left, key);
      } else if t.key < key {
        EraseOrdered(t.right, key);
      } else if t.left.Node? && t.right.Node? {
        TakeMinBST(t.right);
        var (rest, min) := TakeMin(t.right);
        assert min.key in Keys(t.right);
        forall k | k in Keys(t.left) ensures k < min.key { }
      }
    }
  }

  /** Erase removes exactly the entry of `key`. */
  lemma {:induction false} EraseContents<T>(t: PTree<T>, key: int)
    requires IsBST(t)
    ensures Contents(EraseIn(t, key)) == Contents(t) - {key}
  {
    if t.Node? {
      ContentsKeys(t.left);
      ContentsKeys(t.right);
      var l, r := Contents(t.left), Contents(t.right);
      if t.key > key {
        EraseContents(t.left, key);
        assert key !in Keys(t.right);
        RemoveLeft(l, r, key, t.key, t.data);
      } else if t.key < key {
        EraseContents(t.right, key);
        assert key !in Keys(t.left);
        RemoveRight(l, r, key, t.key, t.data);
      } else {
        assert t.key !in Keys(t.left) && t.key !in Keys(t.right);
        RemoveTop(l, r, t.key, t.data);
        if t.left.Node? && t.right.Node? {
          TakeMinBST(t.right);
          var (rest, min) := TakeMin(t.right);
          ContentsKeys(rest);
          assert min.key in Keys(t.right) && min.key !in Keys(t.left);
          UpdateUnion(l, Contents(rest), min.key, min.data);
        }
      }
    }
  }

  /** Erasing an absent key rebuilds an equal tree. */
  lemma {:induction false} EraseAbsent<T>(t: PTree<T>, key: int)
    requires key !in Keys(t)
    ensures EraseIn(t, key) == t
  {
    if t.Node? {
      if t.key > key { EraseAbsent(t.left, key); }
      else if t.key < key { EraseAbsent(t.right, key); }
    }
  }

  /** In a search tree Find succeeds exactly for the present keys, with their data. */
  lemma {:induction false} FindBST<T>(t: PTree<T>, key: int)
    requires IsBST(t)
    ensures FindIn(t, key).Node? <==> key in Keys(t)
    ensures key in Contents(t) ==> FindIn(t, key).Node? && FindIn(t, key).data == Contents(t)[key]
  {
    ContentsKeys(t);
    if t.Node? {
      ContentsKeys(t.left);
      ContentsKeys(t.right);
      if t.key < key {
        assert key !in Keys(t.left);
        FindBST(t.right, key);
      } else if t.key > key {
        assert key !in Keys(t.right);
        FindBST(t.left, key);
      }
    }
  }
}
