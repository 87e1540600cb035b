/**
  The value of a B-tree node and of everything below it, with the structural
  invariants the tree keeps: well-formedness, sorted in-order keys and a
  uniform leaf depth.
 */
module Trees {
  import opened Seqs

  /**
    One `Node` of src/btree.ts as a value: its own degree `t`, its keys, its
    children and its leaf flag. The degree is per node because a split gives
    the new right sibling a different one from its parent.
   */
  datatype Tree = Tree(t: int, keys: seq<int>, children: seq<Tree>, isLeaf: bool)

  /**
    A leaf has no children; an internal node has one child more than it has
    keys. Neither the key count nor the degree is bounded.
   */
  ghost predicate WellFormed(n: Tree)
    decreases n
  {
    if n.isLeaf then n.children == []
    else |n.children| == |n.keys| + 1 &&
         forall j :: 0 <= j < |n.children| ==> WellFormed(n.children[j])
  }

  /** Every leaf lies `h` levels below `n`. */
  ghost predicate HasHeight(n: Tree, h: nat)
    decreases n
  {
    if n.isLeaf then h == 0
    else h > 0 && forall j :: 0 <= j < |n.children| ==> HasHeight(n.children[j], h - 1)
  }

  /** `m` is `n` or one of its descendants. */
  ghost predicate Subtree(m: Tree, n: Tree)
    decreases n
  {
    m == n || exists j :: 0 <= j < |n.children| && Subtree(m, n.children[j])
  }

  /** The key that follows child `j` in the in-order walk, if there is one. */
  function Sep(keys: seq<int>, j: nat): seq<int>
  {
    if j < |keys| then [keys[j]] else []
  }

  /** The keys of `n`'s subtree in order: child 0, key 0, child 1, key 1, ..., last child. */
  function InOrder(n: Tree): seq<int>
    decreases n, 1
  {
    if n.isLeaf then n.keys else Flatten(Segments(n))
  }

  /** Segment `j` of an internal node's in-order walk: child `j`, then key `j`. */
  function Segments(n: Tree): (r: seq<seq<int>>)
    decreases n, 0
    ensures |r| == |n.children|
  {
    seq(|n.children|, j requires 0 <= j < |n.children| => InOrder(n.children[j]) + Sep(n.keys, j))
  }

  /** The part of the in-order walk before child `j`. */
  function Before(n: Tree, j: nat): seq<int>
    requires j <= |n.children|
  {
    Flatten(Segments(n)[..j])
  }

  /** The part of the in-order walk after child `j`. */
  function After(n: Tree, j: nat): seq<int>
    requires j < |n.children|
  {
    Sep(n.keys, j) + Flatten(Segments(n)[j + 1..])
  }

  /** The longest path to a leaf; it decreases along any child, which is what the insertion recursion needs. */
  function Height(n: Tree): nat
    decreases n, 1, 0
  {
    if n.children == [] then 0 else 1 + MaxHeight(n, |n.children|)
  }

  function MaxHeight(n: Tree, m: nat): nat
    requires m <= |n.children|
    decreases n, 0, m
  {
    if m == 0 then 0
    else
      var h := Height(n.children[m - 1]);
      var rest := MaxHeight(n, m - 1);
      if h < rest then rest else h
  }

  lemma {:induction false} MaxHeightAtLeast(n: Tree, m: nat, j: nat)
    requires j < m <= |n.children|
    ensures Height(n.children[j]) <= MaxHeight(n, m)
    decreases m
  {
    if j < m - 1 {
      MaxHeightAtLeast(n, m - 1, j);
    }
  }

  lemma {:induction false} MaxHeightAtMost(n: Tree, m: nat, b: nat)
    requires m <= |n.children|
    requires forall j :: 0 <= j < m ==> Height(n.children[j]) <= b
    ensures MaxHeight(n, m) <= b
    decreases m
  {
    if m > 0 {
      MaxHeightAtMost(n, m - 1, b);
    }
  }

  /** A child is strictly lower than its parent. */
  lemma ChildIsLower(n: Tree, j: nat)
    requires j < |n.children|
    ensures Height(n.children[j]) < Height(n)
  {
    MaxHeightAtLeast(n, |n.children|, j);
  }

  /** A node whose children all come from `c` is no higher than `c`. */
  lemma NoHigherThan(x: Tree, c: Tree)
    requires forall j :: 0 <= j < |x.children| ==> x.children[j] in c.children
    ensures Height(x) <= Height(c)
  {
    if x.children != [] {
      var p0 :| 0 <= p0 < |c.children| && c.children[p0] == x.children[0];
      ChildIsLower(c, p0);
      forall j | 0 <= j < |x.children| ensures Height(x.children[j]) <= Height(c) - 1 {
        var p :| 0 <= p < |c.children| && c.children[p] == x.children[j];
        ChildIsLower(c, p);
      }
      MaxHeightAtMost(x, |x.children|, Height(c) - 1);
    }
  }

  /** The in-order walk of an internal node, cut around child `j`. */
  lemma InOrderAround(n: Tree, j: nat)
    requires !n.isLeaf && j < |n.children|
    ensures InOrder(n) == Before(n, j) + InOrder(n.children[j]) + After(n, j)
  {
    var segs := Segments(n);
    assert segs == segs[..j] + [segs[j]] + segs[j + 1..];
    FlattenConcat(segs[..j] + [segs[j]], segs[j + 1..]);
    FlattenConcat(segs[..j], [segs[j]]);
    assert Flatten([segs[j]]) == segs[j] + Flatten([]);
  }

  /** Before child `j > 0` the in-order walk ends with key `j - 1`. */
  lemma BeforeEndsWithKey(n: Tree, j: nat)
    requires !n.isLeaf && 0 < j <= |n.keys| && j <= |n.children|
    ensures |Before(n, j)| > 0 && Before(n, j)[|Before(n, j)| - 1] == n.keys[j - 1]
  {
    var segs := Segments(n);
    assert segs[..j] == segs[..j - 1] + [segs[j - 1]];
    FlattenConcat(segs[..j - 1], [segs[j - 1]]);
    assert Flatten([segs[j - 1]]) == segs[j - 1] + Flatten([]);
  }

  /** In a well-formed internal node nothing follows the last child. */
  lemma AfterLastIsEmpty(n: Tree)
    requires WellFormed(n) && !n.isLeaf
    ensures After(n, |n.keys|) == []
  {
  }

  /**
    The segments of a node in which child `i` was replaced by two children
    `a` and `b` with the key `m` inserted between them.
   */
  lemma SegmentsAfterSplice(n: Tree, r: Tree, i: nat, a: Tree, b: Tree, m: int)
    requires i < |n.children| && i <= |n.keys|
    requires r.keys == n.keys[..i] + [m] + n.keys[i..]
    requires r.children == n.children[..i] + [a, b] + n.children[i + 1..]
    ensures Segments(r) == Segments(n)[..i] + ([InOrder(a) + [m], InOrder(b) + Sep(n.keys, i)] + Segments(n)[i + 1..])
  {
    var segs := Segments(n);
    var want := segs[..i] + ([InOrder(a) + [m], InOrder(b) + Sep(n.keys, i)] + segs[i + 1..]);
    forall j | 0 <= j < |r.children| ensures Segments(r)[j] == want[j] {
      if j < i {
        assert r.children[j] == n.children[j] && Sep(r.keys, j) == Sep(n.keys, j);
      } else if j == i {
        assert r.children[j] == a && Sep(r.keys, j) == [m];
      } else if j == i + 1 {
        assert r.children[j] == b && Sep(r.keys, j) == Sep(n.keys, i);
      } else {
        assert r.children[j] == n.children[j - 1] && Sep(r.keys, j) == Sep(n.keys, j - 1);
        assert want[j] == segs[j - 1];
      }
    }
  }

  /**
    The in-order walk of a node in which child `i` was replaced by two
    children `a` and `b` with the key `m` inserted between them: the walk
    around child `i` is unchanged, and the two new children and `m` take its
    place.
   */
  lemma InOrderAfterSplice(n: Tree, r: Tree, i: nat, a: Tree, b: Tree, m: int)
    requires !n.isLeaf && !r.isLeaf && i < |n.children| && i <= |n.keys|
    requires r.keys == n.keys[..i] + [m] + n.keys[i..]
    requires r.children == n.children[..i] + [a, b] + n.children[i + 1..]
    ensures InOrder(r) == Before(n, i) + (InOrder(a) + [m] + InOrder(b)) + After(n, i)
  {
    SegmentsAfterSplice(n, r, i, a, b, m);
    var segs, x, y := Segments(n), InOrder(a) + [m], InOrder(b) + Sep(n.keys, i);
    var rest := segs[i + 1..];
    FlattenSplice(segs[..i], x, y, rest);
    Regroup(Flatten(segs[..i]), InOrder(a), m, InOrder(b), Sep(n.keys, i), Flatten(rest));
  }

  /** Replacing child `j` leaves the walk before and after it as it was. */
  lemma ReplaceChildKeepsRest(n: Tree, j: nat, c: Tree)
    requires !n.isLeaf && j < |n.children|
    ensures Before(n.(children := n.children[j := c]), j) == Before(n, j)
    ensures After(n.(children := n.children[j := c]), j) == After(n, j)
  {
    var n' := n.(children := n.children[j := c]);
    assert Segments(n')[..j] == Segments(n)[..j];
    assert Segments(n')[j + 1..] == Segments(n)[j + 1..];
  }

  /** After replacing child `j`, the walk is the old walk with that child's part replaced. */
  lemma InOrderAfterReplace(n: Tree, j: nat, c: Tree)
    requires !n.isLeaf && j < |n.children|
    ensures InOrder(n.(children := n.children[j := c])) == Before(n, j) + InOrder(c) + After(n, j)
  {
    var n' := n.(children := n.children[j := c]);
    ReplaceChildKeepsRest(n, j, c);
    InOrderAround(n', j);
  }

  /**
    In a sorted internal node, when `k` lies between the keys on either side
    of child `j`, everything walked before that child is at most `k` and
    everything after it at least `k`.
   */
  lemma BoundsAroundChild(n: Tree, j: nat, k: int)
    requires WellFormed(n) && !n.isLeaf && j < |n.children| && Sorted(InOrder(n))
    requires 0 < j ==> n.keys[j - 1] <= k
    requires j < |n.keys| ==> k <= n.keys[j]
    ensures forall a :: a in Before(n, j) ==> a <= k
    ensures forall b :: b in After(n, j) ==> k <= b
  {
    InOrderAround(n, j);
    var p, x, q := Before(n, j), InOrder(n.children[j]), After(n, j);
    SortedConcat(p + x, q);
    SortedConcat(p, x);
    if j > 0 {
      BeforeEndsWithKey(n, j);
      forall a | a in p ensures a <= k {
        AtMostLast(p, a);
      }
    }
    if j < |n.keys| {
      assert q[0] == n.keys[j];
      forall b | b in q ensures k <= b {
        AtLeastFirst(q, b);
      }
    } else {
      AfterLastIsEmpty(n);
    }
  }

  /** An internal node with one child and no keys walks like that child. */
  lemma SingleChildInOrder(n: Tree)
    requires !n.isLeaf && |n.children| == 1 && n.keys == []
    ensures InOrder(n) == InOrder(n.children[0])
  {
    var x := InOrder(n.children[0]);
    assert Segments(n) == [x + []];
    FlattenCons(x + [], []);
    assert [x + []] + [] == [x + []];
  }

  /** Every key held by a node appears in its in-order walk. */
  lemma KeyInInOrder(n: Tree, i: nat)
    requires WellFormed(n) && i < |n.keys|
    ensures n.keys[i] in InOrder(n)
  {
    if !n.isLeaf {
      InOrderAround(n, i);
      assert After(n, i)[0] == n.keys[i];
    }
  }

  /** Everything in a subtree appears in the in-order walk of the whole. */
  lemma {:induction false} SubtreeInOrder(m: Tree, n: Tree, x: int)
    requires WellFormed(n) && Subtree(m, n) && x in InOrder(m)
    ensures x in InOrder(n)
    decreases n
  {
    if m != n {
      var j :| 0 <= j < |n.children| && Subtree(m, n.children[j]);
      if n.isLeaf {
        assert false;
      }
      SubtreeInOrder(m, n.children[j], x);
      InOrderAround(n, j);
    }
  }

  /** The in-order walk of a child of a sorted tree is sorted. */
  lemma ChildSorted(n: Tree, j: nat)
    requires !n.isLeaf && j < |n.children| && Sorted(InOrder(n))
    ensures Sorted(InOrder(n.children[j]))
  {
    InOrderAround(n, j);
    SortedConcat(Before(n, j) + InOrder(n.children[j]), After(n, j));
    SortedConcat(Before(n, j), InOrder(n.children[j]));
  }
}
