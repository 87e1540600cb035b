/**
  The three operations of `Node` in src/btree.ts on values: search, the
  preemptive split of a full child, and insertion into a node that its caller
  has made room in. The imperative `BTrees.Node` is proved to compute these.
 */
module NodeModel {
  import opened Wrappers
  import opened Seqs
  import opened Trees

  /**
    `Node.search`: scan to the first key not less than `k`; an equal key is a
    hit, a leaf is a miss, otherwise continue in the child at the scan position.
    A hit names a node of the subtree and the index of a key equal to `k`.
   */
  function Search(n: Tree, k: int): (r: Option<(Tree, nat)>)
    requires WellFormed(n)
    ensures r.Some? ==> r.value.1 < |r.value.0.keys| && r.value.0.keys[r.value.1] == k
    ensures r.Some? ==> Subtree(r.value.0, n)
    decreases n
  {
    var i := LowerIndex(n.keys, k);
    if i < |n.keys| && k == n.keys[i] then Some((n, i))
    else if n.isLeaf then None
    else Search(n.children[i], k)
  }

  /**
    When the scan of a sorted internal node stops on a key other than `k`,
    the child at the scan position is the only place `k` can be.
   */
  lemma OnlyChildCanHold(n: Tree, k: int)
    requires WellFormed(n) && !n.isLeaf && Sorted(InOrder(n))
    requires LowerIndex(n.keys, k) == |n.keys| || n.keys[LowerIndex(n.keys, k)] != k
    ensures k in InOrder(n) <==> k in InOrder(n.children[LowerIndex(n.keys, k)])
  {
    var i := LowerIndex(n.keys, k);
    InOrderAround(n, i);
    var p, x, q := Before(n, i), InOrder(n.children[i]), After(n, i);
    SortedConcat(p + x, q);
    SortedConcat(p, x);
    if i > 0 {
      BeforeEndsWithKey(n, i);
      forall a | a in p ensures a < k {
        AtMostLast(p, a);
      }
    } else {
      assert p == [];
    }
    if i < |n.keys| {
      assert q[0] == n.keys[i];
      forall b | b in q ensures k < b {
        AtLeastFirst(q, b);
      }
    } else {
      AfterLastIsEmpty(n);
    }
  }

  /** On a sorted tree, `Search` finds `k` exactly when the tree holds it. */
  lemma {:induction false} SearchFindsPresentKeys(n: Tree, k: int)
    requires WellFormed(n) && Sorted(InOrder(n))
    ensures Search(n, k).Some? <==> k in InOrder(n)
    decreases n
  {
    var i := LowerIndex(n.keys, k);
    if i < |n.keys| && k == n.keys[i] {
      KeyInInOrder(n, i);
    } else if n.isLeaf {
      forall j | 0 <= j < |n.keys| ensures n.keys[j] != k {
        if i <= j {
          assert n.keys[i] <= n.keys[j];
        }
      }
    } else {
      OnlyChildCanHold(n, k);
      ChildSorted(n, i);
      SearchFindsPresentKeys(n.children[i], k);
    }
  }

  /**
    The full child after a split: its lower `t - 1` keys and first `t`
    children, its own degree and leaf flag kept.
   */
  function LowerHalf(c: Tree, t: int): Tree
    requires 1 <= t
  {
    c.(keys := Take(c.keys, t - 1), children := Take(c.children, t))
  }

  /**
    The new right sibling: created with degree `t - 1`, the child's leaf
    flag, the keys after the median and, for an internal child, the children
    after the first `t`.
   */
  function UpperHalf(c: Tree, t: int): Tree
    requires 1 <= t
  {
    Tree(t - 1, Drop(c.keys, t), if c.isLeaf then [] else Drop(c.children, t), c.isLeaf)
  }

  /**
    `Node.splitChild(i)`: the full child `i` keeps its lower half, a new
    right sibling takes the upper half and becomes child `i + 1`, and the
    median moves up to key `i`. `t` is the parent's degree, so a child is
    full when it holds `2 * t - 1` keys.
   */
  function SplitChild(n: Tree, i: nat): (r: Tree)
    requires i < |n.children| && i <= |n.keys|
    requires |n.children[i].keys| == 2 * n.t - 1
    ensures r.t == n.t && r.isLeaf == n.isLeaf
    ensures |r.keys| == |n.keys| + 1 && |r.children| == |n.children| + 1
    ensures r.children[i + 1].t == n.t - 1
  {
    var t, c := n.t, n.children[i];
    n.(keys := InsertAt(n.keys, i, c.keys[t - 1]),
       children := n.children[..i] + [LowerHalf(c, t), UpperHalf(c, t)] + n.children[i + 1..])
  }

  /**
    The shape of a split: one more key and one more child in the parent, the
    median at key `i`, the halves at children `i` and `i + 1`, everything
    else shifted unchanged.
   */
  lemma SplitChildShape(n: Tree, i: nat)
    requires i < |n.children| && i <= |n.keys|
    requires |n.children[i].keys| == 2 * n.t - 1
    ensures var r, c, t := SplitChild(n, i), n.children[i], n.t;
      && |r.keys| == |n.keys| + 1 && |r.children| == |n.children| + 1
      && r.keys[i] == c.keys[t - 1]
      && r.children[i] == LowerHalf(c, t) && r.children[i + 1] == UpperHalf(c, t)
      && (forall j :: 0 <= j < i ==> r.keys[j] == n.keys[j] && r.children[j] == n.children[j])
      && (forall j :: i < j <= |n.keys| ==> r.keys[j] == n.keys[j - 1])
      && (forall j :: i + 1 < j <= |n.children| ==> r.children[j] == n.children[j - 1])
  {
  }

  /**
    The halves of a full child hold `t - 1` keys each and, with the median
    between them, give back the child's keys; the sibling's degree is
    `t - 1`; the children are divided the same way.
   */
  lemma HalvesShape(c: Tree, t: int)
    requires WellFormed(c) && 1 <= t && |c.keys| == 2 * t - 1
    ensures var left, right := LowerHalf(c, t), UpperHalf(c, t);
      && left.keys + [c.keys[t - 1]] + right.keys == c.keys
      && |left.keys| == t - 1 && |right.keys| == t - 1
      && left.isLeaf == c.isLeaf && right.isLeaf == c.isLeaf
      && left.t == c.t && right.t == t - 1
      && (c.isLeaf ==> left.children == [] && right.children == [])
      && (!c.isLeaf ==> left.children == c.children[..t] && right.children == c.children[t..])
  {
    assert c.keys == c.keys[..t - 1] + [c.keys[t - 1]] + c.keys[t..];
  }

  /** Splitting keeps a tree well-formed. */
  lemma SplitChildWellFormed(n: Tree, i: nat)
    requires WellFormed(n) && i < |n.children| && i <= |n.keys|
    requires |n.children[i].keys| == 2 * n.t - 1
    ensures WellFormed(SplitChild(n, i))
  {
    SplitChildShape(n, i);
    var r, c := SplitChild(n, i), n.children[i];
    assert WellFormed(c);
    forall j | 0 <= j < |r.children| ensures WellFormed(r.children[j]) {
      if j < i {
      } else if j > i + 1 {
        assert WellFormed(n.children[j - 1]);
      } else if !c.isLeaf {
        forall g | 0 <= g < |r.children[j].children| ensures WellFormed(r.children[j].children[g]) {
          assert r.children[j].children[g] == c.children[if j == i then g else n.t + g];
        }
      }
    }
  }

  /** The lower half of a full internal child walks like the child's first `t` segments, less the median. */
  lemma LowerHalfInOrder(c: Tree, t: int)
    requires WellFormed(c) && !c.isLeaf && 1 <= t && |c.keys| == 2 * t - 1
    ensures Flatten(Segments(c)[..t]) == InOrder(LowerHalf(c, t)) + [c.keys[t - 1]]
  {
    var left, segs := LowerHalf(c, t), Segments(c);
    var last := InOrder(c.children[t - 1]);
    assert Segments(left) == segs[..t - 1] + [last + []] by {
      forall j | 0 <= j < t - 1 ensures Segments(left)[j] == segs[j] {
        assert left.children[j] == c.children[j];
        assert Sep(left.keys, j) == Sep(c.keys, j);
      }
    }
    assert segs[..t] == segs[..t - 1] + [last + [c.keys[t - 1]]];
    FlattenConcat(segs[..t - 1], [last + []]);
    FlattenConcat(segs[..t - 1], [last + [c.keys[t - 1]]]);
    FlattenCons(last + [], []);
    FlattenCons(last + [c.keys[t - 1]], []);
    Assoc(Flatten(segs[..t - 1]), last, [c.keys[t - 1]], []);
  }

  /** The upper half of a full internal child walks like the child's segments from `t` on. */
  lemma UpperHalfSegments(c: Tree, t: int)
    requires WellFormed(c) && !c.isLeaf && 1 <= t && |c.keys| == 2 * t - 1
    ensures Segments(UpperHalf(c, t)) == Segments(c)[t..]
  {
    var right := UpperHalf(c, t);
    forall j | 0 <= j < |right.children| ensures Segments(right)[j] == Segments(c)[t + j] {
      assert right.children[j] == c.children[t + j];
      assert Sep(right.keys, j) == Sep(c.keys, t + j);
    }
  }

  /** The halves of a full child, with the median between them, walk like the child did. */
  lemma HalvesInOrder(c: Tree, t: int)
    requires WellFormed(c) && 1 <= t && |c.keys| == 2 * t - 1
    ensures InOrder(LowerHalf(c, t)) + [c.keys[t - 1]] + InOrder(UpperHalf(c, t)) == InOrder(c)
  {
    if c.isLeaf {
      HalvesShape(c, t);
    } else {
      LowerHalfInOrder(c, t);
      UpperHalfSegments(c, t);
      var segs := Segments(c);
      assert segs == segs[..t] + segs[t..];
      FlattenConcat(segs[..t], segs[t..]);
    }
  }

  /** Splitting leaves the in-order walk, and so the keys and their order, as they were. */
  lemma SplitChildInOrder(n: Tree, i: nat)
    requires WellFormed(n) && i < |n.children| && i <= |n.keys|
    requires |n.children[i].keys| == 2 * n.t - 1
    ensures InOrder(SplitChild(n, i)) == InOrder(n)
  {
    var r, c, t := SplitChild(n, i), n.children[i], n.t;
    assert WellFormed(c);
    HalvesInOrder(c, t);
    InOrderAfterSplice(n, r, i, LowerHalf(c, t), UpperHalf(c, t), c.keys[t - 1]);
    InOrderAround(n, i);
  }

  /** Splitting keeps every leaf at the same depth. */
  lemma SplitChildHeight(n: Tree, i: nat, h: nat)
    requires WellFormed(n) && HasHeight(n, h) && i < |n.children| && i <= |n.keys|
    requires |n.children[i].keys| == 2 * n.t - 1
    ensures HasHeight(SplitChild(n, i), h)
  {
    SplitChildShape(n, i);
    var r, c := SplitChild(n, i), n.children[i];
    assert WellFormed(c) && HasHeight(c, h - 1);
    forall j | 0 <= j < |r.children| ensures HasHeight(r.children[j], h - 1) {
      if j < i {
      } else if j > i + 1 {
        assert HasHeight(n.children[j - 1], h - 1);
      } else if !c.isLeaf {
        forall g | 0 <= g < |r.children[j].children| ensures HasHeight(r.children[j].children[g], h - 2) {
          assert r.children[j].children[g] == c.children[if j == i then g else n.t + g];
        }
      }
    }
  }

  /** Both halves of a split child are lower than the parent. */
  lemma SplitChildLower(n: Tree, i: nat)
    requires WellFormed(n) && i < |n.children| && i <= |n.keys|
    requires |n.children[i].keys| == 2 * n.t - 1
    ensures Height(SplitChild(n, i).children[i]) < Height(n)
    ensures Height(SplitChild(n, i).children[i + 1]) < Height(n)
  {
    var r, c, t := SplitChild(n, i), n.children[i], n.t;
    var left, right := r.children[i], r.children[i + 1];
    ChildIsLower(n, i);
    forall g | 0 <= g < |left.children| ensures left.children[g] in c.children {
      assert left.children[g] == c.children[g];
    }
    NoHigherThan(left, c);
    forall g | 0 <= g < |right.children| ensures right.children[g] in c.children {
      assert right.children[g] == c.children[t + g];
    }
    NoHigherThan(right, c);
  }

  /**
    The first half of `insertNonfull` on an internal node: pick the child
    after every key not greater than `k`; if it is full by this node's degree,
    split it and move to the new sibling when `k` exceeds the promoted key.
    The child chosen is never full, `k` lies between the keys around it, and
    nothing in the in-order walk has moved.
   */
  function PrepareDescent(n: Tree, k: int): (r: (Tree, nat))
    requires WellFormed(n) && !n.isLeaf
    ensures WellFormed(r.0) && !r.0.isLeaf && r.0.t == n.t && r.1 < |r.0.children|
    ensures InOrder(r.0) == InOrder(n)
    ensures |r.0.children[r.1].keys| != 2 * n.t - 1
    ensures 0 < r.1 ==> r.0.keys[r.1 - 1] <= k
    ensures r.1 < |r.0.keys| ==> k <= r.0.keys[r.1]
    ensures Height(r.0.children[r.1]) < Height(n)
  {
    var i := UpperIndex(n.keys, k);
    if |n.children[i].keys| == 2 * n.t - 1 then
      SplitChildShape(n, i);
      SplitChildWellFormed(n, i);
      SplitChildInOrder(n, i);
      SplitChildLower(n, i);
      var s := SplitChild(n, i);
      (s, if k > s.keys[i] then i + 1 else i)
    else
      ChildIsLower(n, i);
      (n, i)
  }

  /**
    The descent goes to the child at the scan position, or to the one after
    it exactly when that child was full and `k` is greater than the key the
    split promoted.
   */
  lemma DescentStepsRight(n: Tree, k: int)
    requires WellFormed(n) && !n.isLeaf
    ensures var (s, j) := PrepareDescent(n, k);
      var i := UpperIndex(n.keys, k);
      && (j == i || j == i + 1)
      && (j == i + 1 <==> |n.children[i].keys| == 2 * n.t - 1 && k > s.keys[i])
  {
  }

  /**
    `Node.insertNonfull`: in a leaf, insert `k` after every key not greater
    than it; in an internal node, prepare the descent and insert into the
    chosen child.
   */
  function InsertNonfull(n: Tree, k: int): (r: Tree)
    requires WellFormed(n)
    ensures r.t == n.t && r.isLeaf == n.isLeaf
    ensures n.isLeaf ==> |r.keys| == |n.keys| + 1
    decreases Height(n)
  {
    if n.isLeaf then n.(keys := InsertAt(n.keys, UpperIndex(n.keys, k), k))
    else
      var (s, j) := PrepareDescent(n, k);
      s.(children := s.children[j := InsertNonfull(s.children[j], k)])
  }

  /** In a leaf, `k` goes right after the keys not greater than it, so it follows any equal keys. */
  lemma LeafInsertPosition(n: Tree, k: int)
    requires WellFormed(n) && n.isLeaf
    ensures var r := InsertNonfull(n, k);
      && r.isLeaf && r.children == [] && |r.keys| == |n.keys| + 1
      && exists p :: 0 <= p <= |n.keys| && r.keys == n.keys[..p] + [k] + n.keys[p..]
                  && (forall j :: 0 <= j < p ==> n.keys[j] <= k)
                  && (p < |n.keys| ==> k < n.keys[p])
  {
    var p := UpperIndex(n.keys, k);
    assert InsertNonfull(n, k).keys == n.keys[..p] + [k] + n.keys[p..];
  }

  /** Insertion keeps a tree well-formed, and keeps the node's degree and leaf flag. */
  lemma {:induction false} InsertNonfullWellFormed(n: Tree, k: int)
    requires WellFormed(n)
    ensures var r := InsertNonfull(n, k); WellFormed(r) && r.t == n.t && r.isLeaf == n.isLeaf
    decreases Height(n)
  {
    if !n.isLeaf {
      var (s, j) := PrepareDescent(n, k);
      InsertNonfullWellFormed(s.children[j], k);
      var r := InsertNonfull(n, k);
      assert r == s.(children := s.children[j := InsertNonfull(s.children[j], k)]);
      forall g | 0 <= g < |r.children| ensures WellFormed(r.children[g]) {
        if g != j {
          assert r.children[g] == s.children[g];
        }
      }
    }
  }

  /** Insertion adds exactly one `k` to the keys of the subtree. */
  lemma {:induction false} InsertNonfullKeys(n: Tree, k: int)
    requires WellFormed(n)
    ensures multiset(InOrder(InsertNonfull(n, k))) == multiset(InOrder(n)) + multiset{k}
    decreases Height(n)
  {
    if n.isLeaf {
      var i := UpperIndex(n.keys, k);
      assert n.keys == n.keys[..i] + n.keys[i..];
    } else {
      var (s, j) := PrepareDescent(n, k);
      var c := s.children[j];
      InsertNonfullKeys(c, k);
      InOrderAfterReplace(s, j, InsertNonfull(c, k));
      InOrderAround(s, j);
    }
  }

  /** Insertion keeps a sorted in-order walk sorted. */
  lemma {:induction false} InsertNonfullSorted(n: Tree, k: int)
    requires WellFormed(n) && Sorted(InOrder(n))
    ensures Sorted(InOrder(InsertNonfull(n, k)))
    decreases Height(n)
  {
    if n.isLeaf {
      InsertAtUpperSorted(n.keys, k);
    } else {
      var (s, j) := PrepareDescent(n, k);
      var c := s.children[j];
      var c2 := InsertNonfull(c, k);
      ChildSorted(s, j);
      InsertNonfullSorted(c, k);
      InsertNonfullKeys(c, k);
      InOrderAfterReplace(s, j, c2);
      InOrderAround(s, j);
      BoundsAroundChild(s, j, k);
      SortedReplaceMiddle(Before(s, j), InOrder(c), InOrder(c2), After(s, j), k);
    }
  }

  /** Insertion keeps every leaf at the same depth: a node never changes height. */
  lemma {:induction false} InsertNonfullHeight(n: Tree, k: int, h: nat)
    requires WellFormed(n) && HasHeight(n, h)
    ensures HasHeight(InsertNonfull(n, k), h)
    decreases Height(n)
  {
    if !n.isLeaf {
      var i := UpperIndex(n.keys, k);
      var (s, j) := PrepareDescent(n, k);
      if |n.children[i].keys| == 2 * n.t - 1 {
        SplitChildHeight(n, i, h);
      }
      assert HasHeight(s, h);
      InsertNonfullHeight(s.children[j], k, h - 1);
      var r := InsertNonfull(n, k);
      assert r == s.(children := s.children[j := InsertNonfull(s.children[j], k)]);
      forall g | 0 <= g < |r.children| ensures HasHeight(r.children[g], h - 1) {
        if g != j {
          assert r.children[g] == s.children[g];
        }
      }
    }
  }

  /**
    On a sorted tree the in-order walk after insertion is the old walk with
    `k` placed after every key not greater than it: the same result as
    inserting into one sorted list.
   */
  lemma InsertNonfullPlacesKey(n: Tree, k: int)
    requires WellFormed(n) && Sorted(InOrder(n))
    ensures var s := InOrder(n);
      InOrder(InsertNonfull(n, k)) == InsertAt(s, UpperIndex(s, k), k)
  {
    InsertNonfullKeys(n, k);
    InsertNonfullSorted(n, k);
    SortedWithOneMore(InOrder(n), InOrder(InsertNonfull(n, k)), k);
  }
}
