/**
  The classes of src/btree.ts: `Node`, whose methods update its keys and
  children in place, and `BTree`, which owns the root. Each node carries a
  ghost `model`, the value of its subtree, and a ghost footprint `Repr`, the
  objects of that subtree; each method is proved to change the value as the
  functions of `NodeModel` and `BTreeModel` say.
 */
module BTrees {
  import opened Wrappers
  import opened Seqs
  import opened Trees
  import NodeModel
  import BTreeModel

  /** The footprints of a sequence of nodes, one per node, taken as a value. */
  lemma Footprints(cs: seq<Node>) returns (rs: seq<set<object>>)
    ensures |rs| == |cs| && forall j :: 0 <= j < |cs| ==> rs[j] == cs[j].Repr
  {
    if cs == [] {
      rs := [];
    } else {
      var rest := Footprints(cs[1..]);
      rs := [cs[0].Repr] + rest;
    }
  }

  /** The union of a sequence of footprints. */
  ghost function Union(rs: seq<set<object>>): set<object>
  {
    set j, o | 0 <= j < |rs| && o in rs[j] :: o
  }

  /** A valid node none of whose objects has changed is still valid. */
  twostate lemma ValidUnchanged(x: Node)
    requires old(x.Valid())
    requires unchanged(old(x.Repr))
    ensures x.Valid()
  {
  }

  /** The definition of `Valid`, as a lemma to call once a node's parts are in place. */
  lemma ValidFromParts(x: Node)
    requires x in x.Repr
    requires x.model.t == x.t && x.model.keys == x.keys && x.model.isLeaf == x.isLeaf
    requires |x.model.children| == |x.children|
    requires forall j :: 0 <= j < |x.children| ==>
      && x.children[j] in x.Repr && x.children[j].Repr <= x.Repr && x !in x.children[j].Repr
      && x.children[j].Valid() && x.children[j].model == x.model.children[j]
    requires forall j, j2 :: 0 <= j < j2 < |x.children| ==> x.children[j].Repr !! x.children[j2].Repr
    ensures x.Valid()
  {
  }

  /** The children of a node are valid as they were when no object below the node has changed. */
  twostate lemma ChildrenUnchanged(y: Node)
    requires old(y.Valid())
    requires unchanged(old(y.Repr) - {y})
    ensures forall j :: 0 <= j < old(|y.children|) ==>
      old(y.children[j]).Valid() && old(y.children[j]).Repr == old(y.children[j].Repr)
      && old(y.children[j]).model == old(y.children[j].model)
  {
    forall j | 0 <= j < old(|y.children|)
      ensures old(y.children[j]).Valid() && old(y.children[j]).Repr == old(y.children[j].Repr)
    {
      ValidUnchanged(old(y.children[j]));
    }
  }

  /**
    The children of a node other than child `skip` are valid as they were
    when no object of theirs has changed.
   */
  twostate lemma SiblingsUnchanged(y: Node, new skip: nat)
    requires old(y.Valid()) && skip < old(|y.children|)
    requires unchanged(old(y.Repr) - {y} - old(y.children[skip].Repr))
    ensures forall j :: 0 <= j < old(|y.children|) && j != skip ==>
      old(y.children[j]).Valid() && old(y.children[j]).Repr == old(y.children[j].Repr)
      && old(y.children[j]).model == old(y.children[j].model)
  {
    forall j | 0 <= j < old(|y.children|) && j != skip
      ensures old(y.children[j]).Valid() && old(y.children[j]).Repr == old(y.children[j].Repr)
    {
      var c := old(y.children[j]);
      assert old(c.Repr !! y.children[skip].Repr);
      ValidUnchanged(c);
    }
  }

  /**
    A node holding the slice `lo..hi` of an old node's children, none of
    whose objects has changed, with the footprint of that slice, is valid.
   */
  twostate lemma SliceValid(y: Node, new x: Node, new lo: nat, new hi: nat, new rs: seq<set<object>>)
    requires old(y.Valid()) && lo <= hi <= old(|y.children|)
    requires |rs| == old(|y.children|) && forall j :: 0 <= j < |rs| ==> rs[j] == old(y.children[j].Repr)
    requires x == y || x !in old(y.Repr)
    requires unchanged(old(y.Repr) - {y})
    requires x.children == old(y.children[lo..hi])
    requires x.model.t == x.t && x.model.keys == x.keys && x.model.isLeaf == x.isLeaf
    requires x.model.children == old(y.model.children[lo..hi])
    requires x.Repr == {x} + Union(rs[lo..hi])
    ensures x.Valid()
  {
    ChildrenUnchanged(y);
    forall j | 0 <= j < |x.children|
      ensures x.children[j] in x.Repr && x.children[j].Repr <= x.Repr && x !in x.children[j].Repr
    {
      assert x.children[j] == old(y.children[lo + j]) && x.children[j].Repr == rs[lo + j];
      var g := x.children[j];
      assert old(g in g.Repr);
    }
    ValidFromParts(x);
  }

  /**
    The children of a node whose child `i` was cut down and given a new
    sibling at `i + 1`, the others being as they were: each lies in the
    node's footprint and is valid. `cs`, `rs` and `ms` are the old children,
    their footprints and their models, `R` the node's old footprint.
   */
  lemma SpliceChildren(p: Node, i: nat, cs: seq<Node>, rs: seq<set<object>>, ms: seq<Tree>, R: set<object>, right: Node)
    requires |rs| == |cs| == |ms| && i < |cs|
    requires p.children == cs[..i + 1] + [right] + cs[i + 1..]
    requires p.Repr == R + {right} && p !in right.Repr
    requires p.model.children == ms[..i] + [cs[i].model, right.model] + ms[i + 1..]
    requires forall o :: 0 <= o < |cs| ==> cs[o] in rs[o] && rs[o] <= R && p !in rs[o]
    requires forall o :: 0 <= o < |cs| && o != i ==> cs[o].Valid() && cs[o].Repr == rs[o] && cs[o].model == ms[o]
    requires cs[i].Valid() && right.Valid()
    requires cs[i].Repr <= rs[i] && right.Repr <= rs[i] + {right}
    ensures forall j :: 0 <= j < |p.children| ==>
      && p.children[j] in p.Repr && p.children[j].Repr <= p.Repr && p !in p.children[j].Repr
      && p.children[j].Valid() && p.children[j].model == p.model.children[j]
  {
    forall j | 0 <= j < |p.children|
      ensures p.children[j] in p.Repr && p.children[j].Repr <= p.Repr && p !in p.children[j].Repr
      ensures p.children[j].Valid() && p.children[j].model == p.model.children[j]
    {
      if j < i {
        assert p.children[j] == cs[j] && p.model.children[j] == ms[j];
      } else if j > i + 1 {
        assert p.children[j] == cs[j - 1] && p.model.children[j] == ms[j - 1];
      }
    }
  }

  /**
    The children of a node after the same splice have footprints that do
    not meet, those of the old children having met nowhere.
   */
  lemma SpliceDisjoint(p: Node, i: nat, cs: seq<Node>, rs: seq<set<object>>, right: Node)
    requires |rs| == |cs| && i < |cs|
    requires p.children == cs[..i + 1] + [right] + cs[i + 1..]
    requires forall o :: 0 <= o < |cs| ==> right !in rs[o]
    requires forall o, o2 :: 0 <= o < o2 < |cs| ==> rs[o] !! rs[o2]
    requires forall o :: 0 <= o < |cs| && o != i ==> cs[o].Repr == rs[o]
    requires cs[i].Repr <= rs[i] && right.Repr <= rs[i] + {right} && cs[i].Repr !! right.Repr
    ensures forall j, j2 :: 0 <= j < j2 < |p.children| ==> p.children[j].Repr !! p.children[j2].Repr
  {
    forall j, j2 | 0 <= j < j2 < |p.children| ensures p.children[j].Repr !! p.children[j2].Repr {
      var o := if j <= i then j else j - 1;
      var o2 := if j2 <= i then j2 else j2 - 1;
      assert p.children[j].Repr <= rs[o] + {right};
      assert p.children[j2].Repr <= rs[o2] + {right};
    }
  }

  /**
    The footprints of a node's children, cut at `n`: both parts lie within
    the node's footprint, do not hold `a`, and do not meet.
   */
  lemma UnionSplit(rs: seq<set<object>>, n: nat, S: set<object>, a: object)
    requires forall j :: 0 <= j < |rs| ==> rs[j] <= S && a !in rs[j]
    requires forall j, j2 :: 0 <= j < j2 < |rs| ==> rs[j] !! rs[j2]
    ensures Union(Take(rs, n)) <= S && Union(Drop(rs, n)) <= S
    ensures a !in Union(Take(rs, n)) && a !in Union(Drop(rs, n))
    ensures Union(Take(rs, n)) !! Union(Drop(rs, n))
  {
    var lower, upper := Take(rs, n), Drop(rs, n);
    forall o | o in Union(lower) ensures o !in Union(upper) {
      var j :| 0 <= j < |lower| && o in lower[j];
      forall j2 | 0 <= j2 < |upper| ensures o !in upper[j2] {
        assert upper[j2] == rs[n + j2] && lower[j] == rs[j];
      }
    }
    forall o | o in Union(upper) ensures o in S {
      var j2 :| 0 <= j2 < |upper| && o in upper[j2];
      assert upper[j2] == rs[n + j2];
    }
  }

  /**
    The sibling `splitChild` builds from the old child `y` holds the upper
    half of its children and, none of their objects having changed, is valid.
   */
  twostate lemma UpperValid(y: Node, new x: Node, new t: int, new grs: seq<set<object>>)
    requires old(y.Valid()) && 1 <= t
    requires |grs| == old(|y.children|) && forall j :: 0 <= j < |grs| ==> grs[j] == old(y.children[j].Repr)
    requires x !in old(y.Repr)
    requires unchanged(old(y.Repr) - {y})
    requires x.t == t - 1 && x.isLeaf == old(y.isLeaf) && x.keys == Drop(old(y.keys), t)
    requires x.children == (if old(y.isLeaf) then [] else Drop(old(y.children), t))
    requires x.model == NodeModel.UpperHalf(old(y.model), t)
    requires x.Repr == {x} + Union(if old(y.isLeaf) then [] else Drop(grs, t))
    ensures x.Valid()
  {
    var g := old(y.children);
    var lo := if old(y.isLeaf) || t > |g| then 0 else t;
    var hi := if old(y.isLeaf) || t > |g| then 0 else |g|;
    assert x.children == g[lo..hi];
    assert x.model.children == old(y.model.children)[lo..hi];
    assert x.Repr == {x} + Union(grs[lo..hi]);
    SliceValid(y, x, lo, hi, grs);
  }

  /**
    What `Node.splitChild` leaves behind is valid: the node, its old child
    `i` cut down to the lower half, and the fresh sibling holding the upper
    half, with every other object as it was.
   */
  twostate lemma SplitChildValid(p: Node, new i: nat, new right: Node, new rs: seq<set<object>>, new grs: seq<set<object>>)
    requires old(p.Valid())
    requires i < old(|p.children|) && i <= old(|p.keys|) && old(|p.children[i].keys|) == 2 * old(p.t) - 1
    requires fresh(right)
    requires unchanged(old(p.Repr) - {p, old(p.children[i])})
    requires |rs| == old(|p.children|) && forall j :: 0 <= j < |rs| ==> rs[j] == old(p.children[j].Repr)
    requires |grs| == old(|p.children[i].children|) && forall j :: 0 <= j < |grs| ==> grs[j] == old(p.children[i].children[j].Repr)
    requires var left, t := old(p.children[i]), old(p.t);
      var c := old(left.model);
      && p.children == old(p.children[..i + 1]) + [right] + old(p.children[i + 1..])
      && p.t == t && p.keys == InsertAt(old(p.keys), i, old(left.keys[t - 1])) && p.isLeaf == old(p.isLeaf)
      && p.model == NodeModel.SplitChild(old(p.model), i) && p.Repr == old(p.Repr) + {right}
      && left.Valid() && left.model == NodeModel.LowerHalf(c, t) && left.Repr == {left} + Union(Take(grs, t))
      && right.t == t - 1 && right.isLeaf == old(left.isLeaf) && right.keys == Drop(old(left.keys), t)
      && right.children == (if old(left.isLeaf) then [] else Drop(old(left.children), t))
      && right.model == NodeModel.UpperHalf(c, t)
      && right.Repr == {right} + Union(if c.isLeaf then [] else Drop(grs, t))
    ensures p.Valid()
  {
    var left, t := old(p.children[i]), old(p.t);
    assert old(left in left.Repr && left.Repr <= p.Repr && p !in left.Repr && left.Valid());
    UnionSplit(grs, t, old(left.Repr), left);
    UpperValid(left, right, t, grs);
    SiblingsUnchanged(p, i);
    var cs, ms, R := old(p.children), old(p.model.children), old(p.Repr);
    SpliceChildren(p, i, cs, rs, ms, R, right);
    SpliceDisjoint(p, i, cs, rs, right);
    ValidFromParts(p);
  }

  /**
    The `for` scan of `insertNonfull`, the same in a leaf and in an internal
    node: advance past every key not greater than `k`.
   */
  method ScanPast(keys: seq<int>, k: int) returns (i: nat)
    ensures i == UpperIndex(keys, k)
  {
    i := 0;
    while i < |keys|
      invariant i <= UpperIndex(keys, k)
    {
      if k < keys[i] {
        break;
      }
      i := i + 1;
    }
  }

  /**
    A node whose child `j` took a key, growing its footprint only by fresh
    objects, while the node and every other child stayed as they were, is
    valid with the child's new model and footprint.
   */
  twostate lemma ReplaceChildValid(p: Node, new j: nat, new rs: seq<set<object>>)
    requires old(p.Valid()) && j < old(|p.children|)
    requires |rs| == old(|p.children|) && forall o :: 0 <= o < |rs| ==> rs[o] == old(p.children[o].Repr)
    requires unchanged(old(p.Repr) - {p} - rs[j]) && unchanged(p`t, p`keys, p`isLeaf, p`children)
    requires var c := old(p.children[j]);
      && c.Valid() && rs[j] <= c.Repr && fresh(c.Repr - rs[j])
      && p.model == old(p.model).(children := old(p.model.children)[j := c.model])
      && p.Repr == old(p.Repr) + c.Repr
    ensures p.Valid()
  {
    SiblingsUnchanged(p, j);
    var c := old(p.children[j]);
    assert old(p !in c.Repr && c in c.Repr);
    forall o | 0 <= o < |p.children|
      ensures p.children[o] in p.Repr && p.children[o].Repr <= p.Repr && p !in p.children[o].Repr
      ensures p.children[o].Valid() && p.children[o].model == p.model.children[o]
    {
    }
    forall o, o2 | 0 <= o < o2 < |p.children| ensures p.children[o].Repr !! p.children[o2].Repr {
      assert old(p.children[o].Repr !! p.children[o2].Repr);
    }
    ValidFromParts(p);
  }

  class Node {
    var t: int
    var keys: seq<int>
    var children: seq<Node>
    var isLeaf: bool
    /** The subtree below this node as a value. */
    ghost var model: Tree
    ghost var Repr: set<object>

    /**
      The fields mirror `model`; every child is valid, mirrors the model's
      child, and owns a footprint of its own inside this node's, disjoint
      from its siblings'.
     */
    ghost predicate Valid()
      reads this, Repr
      ensures Valid() ==> this in Repr
      ensures Valid() ==> model.t == t && model.keys == keys && model.isLeaf == isLeaf
      ensures Valid() ==> |model.children| == |children|
      decreases Repr
    {
      && this in Repr
      && model.t == t && model.keys == keys && model.isLeaf == isLeaf
      && |model.children| == |children|
      && (forall j :: 0 <= j < |children| ==>
            && children[j] in Repr && children[j].Repr <= Repr && this !in children[j].Repr
            && children[j].Valid() && children[j].model == model.children[j])
      && (forall j, j2 :: 0 <= j < j2 < |children| ==> children[j].Repr !! children[j2].Repr)
    }

    /** `new Node(t)`: no keys, no children, not a leaf. */
    constructor(t: int)
      ensures Valid() && fresh(Repr)
      ensures this.t == t && keys == [] && children == [] && !isLeaf
      ensures model == Tree(t, [], [], false) && Repr == {this}
    {
      this.t := t;
      keys := [];
      children := [];
      isLeaf := false;
      model := Tree(t, [], [], false);
      Repr := {this};
    }

    /**
      The new root `BTree.insert` puts over a full root `r`: `new Node(t)`
      with `r` pushed as its only child, then split there.
     */
    constructor Grow(t: int, r: Node)
      requires r.Valid() && WellFormed(r.model) && |r.keys| == 2 * t - 1
      modifies r
      ensures Valid() && WellFormed(model)
      ensures model == NodeModel.SplitChild(Tree(t, [], [old(r.model)], false), 0)
      ensures old(r.Repr) <= Repr && fresh(Repr - old(r.Repr))
    {
      this.t := t;
      keys := [];
      children := [r];
      isLeaf := false;
      model := Tree(t, [], [r.model], false);
      Repr := {this} + r.Repr;
      new;
      ValidFromParts(this);
      NodeModel.SplitChildWellFormed(model, 0);
      SplitChild(0);
    }

    /**
      `Node.search`: the node and index the value-level search finds, the
      node being one of this subtree's objects, or nothing.
     */
    method Search(k: int) returns (r: Option<(Node, nat)>)
      requires Valid() && WellFormed(model)
      ensures NodeModel.Search(model, k) == if r.None? then None else Some((r.value.0.model, r.value.1))
      ensures r.Some? ==> r.value.0 in Repr && r.value.1 < |r.value.0.keys| && r.value.0.keys[r.value.1] == k
      decreases Repr
    {
      var i := 0;
      while i < |keys| && k > keys[i]
        invariant i <= LowerIndex(keys, k)
      {
        i := i + 1;
      }
      if i < |keys| && k == keys[i] {
        return Some((this, i));
      }
      if isLeaf {
        return None;
      }
      r := children[i].Search(k);
    }

    /**
      The sibling `splitChild` builds from a full child `left` of a node of
      degree `t`: `new Node(t - 1)` given `left`'s leaf flag, the keys after
      the median and, unless `left` is a leaf, the children after the first
      `t`; `grs` are the footprints of `left`'s children.
     */
    constructor UpperHalf(left: Node, t: int, ghost grs: seq<set<object>>)
      requires 1 <= t && |grs| == |left.children|
      ensures this.t == t - 1 && isLeaf == left.isLeaf && keys == Drop(left.keys, t)
      ensures children == (if left.isLeaf then [] else Drop(left.children, t))
      ensures model == NodeModel.UpperHalf(left.model, t)
      ensures Repr == {this} + Union(if left.isLeaf then [] else Drop(grs, t))
    {
      this.t := t - 1;
      isLeaf := left.isLeaf;
      keys := Drop(left.keys, t);
      children := if left.isLeaf then [] else Drop(left.children, t);
      model := NodeModel.UpperHalf(left.model, t);
      Repr := {this} + Union(if left.isLeaf then [] else Drop(grs, t));
    }

    /**
      The other half of `splitChild` on a full child of a node of degree
      `t`: the child keeps the keys before the median and its first `t`
      children; `grs` are the footprints of its children.
     */
    method KeepLowerHalf(t: int, ghost grs: seq<set<object>>)
      requires Valid() && 1 <= t
      requires |grs| == |children| && forall j :: 0 <= j < |grs| ==> grs[j] == children[j].Repr
      modifies this
      ensures Valid()
      ensures model == NodeModel.LowerHalf(old(model), t)
      ensures Repr == {this} + Union(Take(grs, t))
    {
      keys := Take(keys, t - 1);
      children := Take(children, t);
      model, Repr := NodeModel.LowerHalf(model, t), {this} + Union(Take(grs, t));
      ghost var hi := |children|;
      assert Take(grs, t) == grs[0..hi];
      SliceValid(this, this, 0, hi, grs);
    }

    /**
      `Node.splitChild(i)` on a child that is full by this node's degree:
      the new state is the value-level split, the new sibling is fresh and
      sits at `i + 1`, and the other children are the same objects.
     */
    method SplitChild(i: nat)
      requires Valid() && WellFormed(model)
      requires i < |children| && i <= |keys| && |children[i].keys| == 2 * t - 1
      modifies this, children[i]
      ensures Valid()
      ensures model == NodeModel.SplitChild(old(model), i)
      ensures |children| == old(|children|) + 1
      ensures children == old(children[..i + 1]) + [children[i + 1]] + old(children[i + 1..])
      ensures fresh(children[i + 1]) && Repr == old(Repr) + {children[i + 1]}
    {
      var left := children[i];
      ghost var c := left.model;
      ghost var rs := Footprints(children);
      ghost var grs := Footprints(left.children);

      var right := new Node.UpperHalf(left, t, grs);
      children := children[..i + 1] + [right] + children[i + 1..];
      keys := InsertAt(keys, i, left.keys[t - 1]);
      model, Repr := NodeModel.SplitChild(model, i), Repr + {right};
      left.KeepLowerHalf(t, grs);

      SplitChildValid(this, i, right, rs, grs);
    }

    /**
      The middle of `insertNonfull` on an internal node, given the scan
      position `i`: a child there that is full by this node's degree is
      split, and the position moves to the new sibling when `k` exceeds
      the key that came up. The new state and position are those of
      `NodeModel.PrepareDescent`.
     */
    method SplitIfFull(k: int) returns (j: nat)
      requires Valid() && WellFormed(model) && !isLeaf
      modifies this, children[UpperIndex(keys, k)]
      ensures Valid() && (model, j) == NodeModel.PrepareDescent(old(model), k)
      ensures Repr == old(Repr) + Repr && fresh(Repr - old(Repr))
      ensures j < |children| && children[j].Valid() && children[j].model == model.children[j]
      ensures children[j] in Repr && children[j].Repr <= Repr && this !in children[j].Repr
    {
      var i := ScanPast(keys, k);
      j := i;
      if |children[i].keys| == 2 * t - 1 {
        SplitChild(i);
        if k > keys[i] {
          j := i + 1;
        }
      }
    }

    /**
      `Node.insertNonfull(k)`: in a leaf, `k` goes in after every key not
      greater than it; in an internal node, `k` goes down into the child
      `SplitIfFull` picks. Only new objects join the footprint.
     */
    method InsertNonfull(k: int)
      requires Valid() && WellFormed(model)
      modifies Repr
      ensures Valid()
      ensures model == NodeModel.InsertNonfull(old(model), k)
      ensures old(Repr) <= Repr && fresh(Repr - old(Repr))
      decreases Height(model)
    {
      if isLeaf {
        var i := ScanPast(keys, k);
        keys := InsertAt(keys, i, k);
        model := model.(keys := keys);
      } else {
        var i := SplitIfFull(k);
        var c := children[i];
        label Descend:
        ghost var rs := Footprints(children);
        c.InsertNonfull(k);
        model, Repr := model.(children := model.children[i := c.model]), Repr + c.Repr;
        ReplaceChildValid@Descend(this, i, rs);
      }
    }
  }

  /**
    The body of `BTree.insert(k)` for a tree of degree `t` whose root is `r`:
    a full root goes under a new root that splits it and takes `k`; any other
    root takes `k` itself. The result is the root the tree keeps.
   */
  method InsertAtRoot(t: int, r: Node, k: int) returns (s: Node)
    requires r.Valid() && WellFormed(r.model)
    modifies r.Repr
    ensures s.Valid() && s.model == BTreeModel.Insert(t, old(r.model), k)
    ensures old(r.Repr) <= s.Repr && fresh(s.Repr - old(r.Repr))
    ensures if BTreeModel.IsFull(t, old(r.model)) then fresh(s) else s == r
  {
    if |r.keys| == 2 * t - 1 {
      s := new Node.Grow(t, r);
      s.InsertNonfull(k);
    } else {
      s := r;
      s.InsertNonfull(k);
    }
  }

  /** `BTree`: the degree `t` and the root. */
  class BTree {
    var t: int
    var root: Node
    ghost var height: nat

    /**
      The root has the tree's degree, is well-formed, holds its keys in
      order, and has all its leaves `height` levels down.
     */
    ghost predicate Valid()
      reads this, root, root.Repr
    {
      && this !in root.Repr && root.Valid() && root.t == t
      && WellFormed(root.model) && Sorted(InOrder(root.model)) && HasHeight(root.model, height)
    }

    /** `new BTree(t)`: the root is a new empty node of degree `t`, made a leaf. */
    constructor(t: int)
      ensures Valid() && fresh(root.Repr)
      ensures this.t == t && root.model == BTreeModel.Empty(t) && height == 0
    {
      this.t := t;
      var r := new Node(t);
      r.isLeaf := true;
      r.model := r.model.(isLeaf := true);
      root := r;
      height := 0;
    }

    /**
      `BTree.insert(k)`: the root becomes the one `InsertAtRoot` leaves, one
      level higher exactly when the old root was full.
     */
    method Insert(k: int)
      requires Valid()
      modifies this, root.Repr
      ensures Valid() && fresh(root.Repr - old(root.Repr)) && t == old(t)
      ensures root.model == BTreeModel.Insert(t, old(root.model), k)
      ensures height == if BTreeModel.IsFull(t, old(root.model)) then old(height) + 1 else old(height)
      ensures if BTreeModel.IsFull(t, old(root.model)) then fresh(root) else root == old(root)
    {
      ghost var m := root.model;
      BTreeModel.InsertInvariants(t, m, k, height);
      var s := InsertAtRoot(t, root, k);
      label Inserted:
      assert this !in s.Repr;
      root, height := s, if BTreeModel.IsFull(t, m) then height + 1 else height;
      ValidUnchanged@Inserted(s);
    }

    /** `BTree.search(k)`: the key the root's search lands on, or nothing. */
    method Search(k: int) returns (r: Option<int>)
      requires Valid()
      ensures r == BTreeModel.Find(root.model, k)
    {
      var found := root.Search(k);
      if found.Some? {
        var node, i := found.value.0, found.value.1;
        r := Some(node.keys[i]);
      } else {
        r := None;
      }
    }
  }
}
