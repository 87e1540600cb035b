/**
  `BTree` of src/btree.ts on values: the empty tree its constructor builds,
  insertion with the root split that grows the tree by one level, and the
  search that returns the key found or nothing. The imperative
  `BTrees.BTree` is proved to compute these.
 */
module BTreeModel {
  import opened Wrappers
  import opened Seqs
  import opened Trees
  import NodeModel

  /** The constructor's root: an empty leaf of degree `t`. */
  function Empty(t: int): (r: Tree)
    ensures WellFormed(r) && HasHeight(r, 0) && r.t == t
    ensures InOrder(r) == []
  {
    Tree(t, [], [], true)
  }

  /** A root is full when it holds `2 * t - 1` keys, `t` being the tree's degree. */
  predicate IsFull(t: int, root: Tree)
  {
    |root.keys| == 2 * t - 1
  }

  /**
    `BTree.insert`: a full root goes under a new empty internal root of
    degree `t`, which splits it and then takes `k`; any other root takes
    `k` itself.
   */
  function Insert(t: int, root: Tree, k: int): (r: Tree)
    requires WellFormed(root)
    ensures IsFull(t, root) ==> r.t == t && !r.isLeaf
    ensures !IsFull(t, root) ==> r.t == root.t && r.isLeaf == root.isLeaf
  {
    if IsFull(t, root) then
      var s := Tree(t, [], [root], false);
      NodeModel.SplitChildWellFormed(s, 0);
      NodeModel.InsertNonfull(NodeModel.SplitChild(s, 0), k)
    else
      NodeModel.InsertNonfull(root, k)
  }

  /**
    Inserting into a tree with a full root grows it by one level: the new
    root ends up with the old root's median as its one key and two
    children, as neither half of the split is full for the descent.
   */
  lemma InsertGrowsRoot(t: int, root: Tree, k: int)
    requires WellFormed(root) && IsFull(t, root)
    ensures var r := Insert(t, root, k);
      && |r.keys| == 1 && |r.children| == 2 && !r.isLeaf && r.t == t
      && r.keys[0] == root.keys[t - 1]
  {
    var s := Tree(t, [], [root], false);
    NodeModel.SplitChildShape(s, 0);
    NodeModel.SplitChildWellFormed(s, 0);
    NodeModel.HalvesShape(root, t);
    var n := NodeModel.SplitChild(s, 0);
    var i := UpperIndex(n.keys, k);
    assert |n.children[i].keys| == t - 1;
    assert NodeModel.PrepareDescent(n, k) == (n, i);
  }

  /**
    The node insertion descends from: a full root under a new empty root of
    degree `t`, split there; any other root as it is. It has the root's
    keys in order, every leaf one level deeper exactly when the root was full.
   */
  lemma {:induction false} InsertStart(t: int, root: Tree, h: nat)
    requires WellFormed(root) && HasHeight(root, h) && root.t == t
    ensures var n := if IsFull(t, root) then NodeModel.SplitChild(Tree(t, [], [root], false), 0) else root;
      && WellFormed(n) && n.t == t && InOrder(n) == InOrder(root)
      && HasHeight(n, if IsFull(t, root) then h + 1 else h)
  {
    if IsFull(t, root) {
      var s := Tree(t, [], [root], false);
      assert WellFormed(s) && HasHeight(s, h + 1);
      NodeModel.SplitChildWellFormed(s, 0);
      NodeModel.SplitChildHeight(s, 0, h + 1);
      NodeModel.SplitChildInOrder(s, 0);
      SingleChildInOrder(s);
    }
  }

  /**
    Insertion keeps the invariants of a tree whose root has the tree's
    degree: well-formed, sorted in-order keys, every leaf at the same depth
    (one level deeper exactly when the root was full), and the same root
    degree.
   */
  lemma InsertInvariants(t: int, root: Tree, k: int, h: nat)
    requires WellFormed(root) && Sorted(InOrder(root)) && HasHeight(root, h) && root.t == t
    ensures var r := Insert(t, root, k);
      && WellFormed(r) && r.t == t
      && Sorted(InOrder(r))
      && HasHeight(r, if IsFull(t, root) then h + 1 else h)
  {
    var n := if IsFull(t, root) then NodeModel.SplitChild(Tree(t, [], [root], false), 0) else root;
    InsertStart(t, root, h);
    assert Insert(t, root, k) == NodeModel.InsertNonfull(n, k);
    NodeModel.InsertNonfullWellFormed(n, k);
    NodeModel.InsertNonfullSorted(n, k);
    NodeModel.InsertNonfullHeight(n, k, if IsFull(t, root) then h + 1 else h);
  }

  /** Insertion adds exactly one `k` to the keys of the tree. */
  lemma InsertAddsKey(t: int, root: Tree, k: int, h: nat)
    requires WellFormed(root) && HasHeight(root, h) && root.t == t
    ensures multiset(InOrder(Insert(t, root, k))) == multiset(InOrder(root)) + multiset{k}
  {
    var n := if IsFull(t, root) then NodeModel.SplitChild(Tree(t, [], [root], false), 0) else root;
    InsertStart(t, root, h);
    assert Insert(t, root, k) == NodeModel.InsertNonfull(n, k);
    NodeModel.InsertNonfullKeys(n, k);
  }

  /**
    On a sorted tree, insertion puts `k` into the in-order walk right after
    every key not greater than it, exactly as inserting into one sorted list.
   */
  lemma InsertPlacesKey(t: int, root: Tree, k: int, h: nat)
    requires WellFormed(root) && Sorted(InOrder(root)) && HasHeight(root, h) && root.t == t
    ensures var s := InOrder(root);
      InOrder(Insert(t, root, k)) == InsertAt(s, UpperIndex(s, k), k)
  {
    InsertInvariants(t, root, k, h);
    InsertAddsKey(t, root, k, h);
    SortedWithOneMore(InOrder(root), InOrder(Insert(t, root, k)), k);
  }

  /** `BTree.search`: the key the node search lands on, or nothing. */
  function Find(root: Tree, k: int): (r: Option<int>)
    requires WellFormed(root)
    ensures r.Some? ==> r.value == k
    ensures r.None? <==> NodeModel.Search(root, k).None?
  {
    match NodeModel.Search(root, k)
    case Some((node, i)) => Some(node.keys[i])
    case None => None
  }

  /** On a sorted tree, search returns `k` exactly when the tree holds it. */
  lemma FindIsMembership(root: Tree, k: int)
    requires WellFormed(root) && Sorted(InOrder(root))
    ensures Find(root, k) == if k in InOrder(root) then Some(k) else None
  {
    NodeModel.SearchFindsPresentKeys(root, k);
  }

  /**
    Search in a sorted tree holding one more `k` than another: it finds `k`,
    and any other key exactly when search in the other tree does.
   */
  lemma FindWithOneMore(root: Tree, r: Tree, k: int, x: int)
    requires WellFormed(root) && Sorted(InOrder(root))
    requires WellFormed(r) && Sorted(InOrder(r))
    requires multiset(InOrder(r)) == multiset(InOrder(root)) + multiset{k}
    ensures Find(r, k) == Some(k)
    ensures x != k ==> Find(r, x) == Find(root, x)
  {
    var s, s2 := InOrder(root), InOrder(r);
    assert k in s2 by {
      assert k in multiset(s2);
    }
    FindIsMembership(r, k);
    if x != k {
      assert x in s2 <==> x in s by {
        assert multiset(s2)[x] == multiset(s)[x];
      }
      FindIsMembership(root, x);
      FindIsMembership(r, x);
    }
  }

  /**
    Insert then search: after inserting `k` the tree finds `k`, and it finds
    any other key exactly when it found it before.
   */
  lemma InsertThenFind(t: int, root: Tree, k: int, x: int, h: nat)
    requires WellFormed(root) && Sorted(InOrder(root)) && HasHeight(root, h) && root.t == t
    ensures WellFormed(Insert(t, root, k))
    ensures Find(Insert(t, root, k), k) == Some(k)
    ensures x != k ==> Find(Insert(t, root, k), x) == Find(root, x)
  {
    InsertInvariants(t, root, k, h);
    InsertAddsKey(t, root, k, h);
    FindWithOneMore(root, Insert(t, root, k), k, x);
  }
}
