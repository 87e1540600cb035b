# B-tree of ts-btree, modelled in Dafny

`src/btree.ts` is an in-memory B-tree. A `Node` holds its own degree `t`, its
sorted `keys`, its `children` and a leaf flag. `Node` has three operations:

- `search` scans the keys and descends into one child.
- `splitChild` is the preemptive split of a full child. The upper keys and
  children move into a new right sibling, and the median moves up.
- `insertNonfull` places a key into a leaf. In an internal node it first
  splits the child it is about to enter when that child is full.

A `BTree` owns the root. `insert` puts a new root above a full root and
splits the old one. `search` returns the key that was found, or `null`.

The project has two layers:

- **Values.** `Trees.Tree` is a node and its subtree as a value, with its
  own degree. `NodeModel` and `BTreeModel` define the operations as
  functions on trees and prove what they promise.
- **Objects.** `BTrees.Node` and `BTrees.BTree` are classes with the
  source's fields. Their methods update those fields in place with the
  source's loops and splices. Each node carries a ghost `model` (its subtree
  as a `Tree`) and a ghost footprint `Repr`. Every method is proved to turn
  the old model into the model its function computes, and to keep the
  objects valid.

Keys are `int`. Duplicates are kept, as the source keeps them. In a leaf, a
new key goes after any equal keys. When the new key equals the median that a
split promotes, it descends to the left and ends up before that equal key.
With `int` keys the in-order sequence is the same either way
(`BTreeModel.InsertPlacesKey`).

The right sibling of a split is built with degree `t - 1`
(src/btree.ts:31). The model reproduces this. A node made by a split
therefore uses the smaller degree when it tests and splits its own children.
The properties proved are those that hold anyway:

- well-formedness: an internal node has one more child than keys;
- sorted in-order keys;
- every leaf at the same depth;
- the multiset of keys;
- membership through search.

Occupancy bounds are not claimed, because the smaller degree breaks them.

Modules:

- `Wrappers` holds `Option`, which stands for the source's `null`.
- `Seqs` holds the scans, `splice`/`slice` and sorted-sequence facts.
- `Trees` holds the value type and its invariants.
- `NodeModel`, `BTreeModel` and `BTrees` hold the operations.

## Model

| member | source | states |
|---|---|---|
| Seqs.LowerIndex | src/btree.ts:15-18 | The `search` scan stops at the first key not less than `k`: every key before it is smaller, and the key there (if any) is at least `k`. |
| Seqs.UpperIndex | src/btree.ts:48-51 | The `insertNonfull` scan stops at the first key greater than `k`: every key before it is at most `k`. |
| BTrees.ScanPast | src/btree.ts:54-57 | The `for` loop that advances `i` while `k` is not less than `keys[i]` ends at `UpperIndex(keys, k)`. |
| NodeModel.Search | src/btree.ts:14-26 | A hit names a node of the searched subtree and an index whose key equals `k`. |
| NodeModel.OnlyChildCanHold | src/btree.ts:15-25 | When the scan stops at `i` in an internal node of a sorted tree without a hit, `k` is in the tree exactly when it is in child `i`. |
| NodeModel.SearchFindsPresentKeys | src/btree.ts:14-26 | On a well-formed tree with sorted keys, search hits exactly when `k` is among the tree's keys. A miss therefore means `k` is absent. |
| BTrees.Node.Search | src/btree.ts:14-26 | The `while` scan and recursion return the node and index that `NodeModel.Search` finds, or nothing when it finds nothing. The node is an object of this subtree, and its key at that index is `k`. |
| BTrees.Node.constructor | src/btree.ts:7-12 | A new node has degree `t`, no keys, no children, is not a leaf, and is valid. |
| NodeModel.SplitChild | src/btree.ts:28-44 | The split keeps the parent's degree and leaf flag and gives it one more key and one more child. The new sibling at `i + 1` has degree `t - 1`. |
| NodeModel.SplitChildShape | src/btree.ts:28-44 | Splitting child `i` gives the parent one more key and one more child. Key `i` is the child's old key `t - 1`, children `i` and `i + 1` are the two halves, and every other key and child is the same, shifted past the insertion point. |
| NodeModel.HalvesShape | src/btree.ts:31-43 | The halves of a full child hold `t - 1` keys each, and lower keys, median and upper keys give back the old keys. Both keep the leaf flag; the lower half keeps its degree and the upper half gets `t - 1`. An internal child's children are cut at `t`. |
| NodeModel.SplitChildWellFormed | src/btree.ts:28-44 | A split keeps the tree well-formed. |
| NodeModel.HalvesInOrder | src/btree.ts:34-43 | The lower half's in-order keys, then the median, then the upper half's equal the full child's in-order keys. |
| NodeModel.SplitChildInOrder | src/btree.ts:28-44 | A split leaves the parent's in-order key sequence unchanged. |
| NodeModel.SplitChildHeight | src/btree.ts:28-44 | A split keeps every leaf at the same depth. |
| NodeModel.SplitChildLower | src/btree.ts:28-44 | Both halves are strictly lower than the parent. |
| BTrees.Node.UpperHalf | src/btree.ts:31-37 | The new sibling has degree `t - 1` and the child's leaf flag. It holds the keys after the median and, for an internal child, the children from `t` on; its model is `NodeModel.UpperHalf`. |
| BTrees.Node.KeepLowerHalf | src/btree.ts:42-43 | The child keeps its first `t - 1` keys and first `t` children, stays valid, and its model becomes `NodeModel.LowerHalf`. |
| BTrees.SplitChildValid | src/btree.ts:28-44 | After the in-place split, the parent is valid again. Both halves are valid, their footprints do not meet, and every other child is as it was. |
| BTrees.Node.SplitChild | src/btree.ts:28-44 | In place, the node's new model is `NodeModel.SplitChild` of the old one. The new sibling is fresh and sits at `i + 1`, the other children are the same objects in the same order, and the footprint gains only the sibling. |
| NodeModel.PrepareDescent | src/btree.ts:54-62 | The child chosen for descent is never full by the node's degree, and `k` lies between the keys around it. In-order keys and well-formedness are unchanged, and the child is strictly lower. |
| NodeModel.DescentStepsRight | src/btree.ts:54-62 | The descent goes to the child at the scan position `i`, or to `i + 1`. It goes to `i + 1` exactly when child `i` was full and `k` is greater than the key the split promoted. |
| BTrees.Node.SplitIfFull | src/btree.ts:54-62 | The scan, the split of a full child and the step to `i + 1` produce `NodeModel.PrepareDescent`'s state and position, on valid objects. |
| NodeModel.InsertNonfull | src/btree.ts:46-65 | Insertion keeps the node's degree and leaf flag, and in a leaf adds exactly one key. |
| NodeModel.LeafInsertPosition | src/btree.ts:47-52 | In a leaf, `k` is spliced in before the first greater key and after any equal keys, so there is exactly one more key. |
| NodeModel.InsertNonfullWellFormed | src/btree.ts:46-65 | Insertion keeps a tree well-formed, and keeps its degree and leaf flag. |
| NodeModel.InsertNonfullKeys | src/btree.ts:46-65 | The multiset of keys after insertion is the old one plus `k`. |
| NodeModel.InsertNonfullSorted | src/btree.ts:46-65 | Insertion keeps the in-order keys sorted. |
| NodeModel.InsertNonfullHeight | src/btree.ts:46-65 | Insertion keeps every leaf at the same depth. |
| NodeModel.InsertNonfullPlacesKey | src/btree.ts:46-65 | On a sorted tree, the in-order keys after insertion are the old ones with `k` inserted after every key not greater than it. |
| BTrees.ReplaceChildValid | src/btree.ts:58-63 | After the recursive insertion into child `i`, the node is valid with that child's new model and footprint. |
| BTrees.Node.InsertNonfull | src/btree.ts:46-65 | In place, the new model is `NodeModel.InsertNonfull` of the old one. The objects stay valid, and only fresh objects join the footprint. |
| BTreeModel.Empty | src/btree.ts:72-76 | The constructor's root is an empty leaf of degree `t`. It is well-formed, has height 0 and holds no keys. |
| BTrees.BTree.constructor | src/btree.ts:72-76 | A new tree has degree `t` and a fresh root whose model is `BTreeModel.Empty(t)`, and it is valid. |
| BTrees.Node.Grow | src/btree.ts:83-86 | The new root (`new Node(t)`, the old root pushed, `splitChild(0)`) is valid. Its model is the split of a one-child node of degree `t`, and it adds only fresh objects. |
| BTreeModel.Insert | src/btree.ts:78-91 | After a full root, the root is internal with the tree's degree. Otherwise it keeps the old root's degree and leaf flag. |
| BTreeModel.InsertStart | src/btree.ts:82-89 | The node insertion starts from has the old in-order keys and is well-formed with the tree's degree. Its leaves are one level deeper exactly when the root was full. |
| BTreeModel.InsertGrowsRoot | src/btree.ts:82-87 | Inserting into a tree with a full root leaves a root with one key, the old root's median, and two children. |
| BTreeModel.InsertInvariants | src/btree.ts:78-91 | Insertion keeps the tree well-formed, its keys sorted and its root degree. Every leaf stays at one depth, one level deeper exactly when the root was full. |
| BTreeModel.InsertAddsKey | src/btree.ts:78-91 | Insertion adds exactly one `k` to the multiset of keys. |
| BTreeModel.InsertPlacesKey | src/btree.ts:78-91 | On a sorted tree, the in-order keys after insertion are the old ones with `k` inserted after every key not greater than it. |
| BTrees.InsertAtRoot | src/btree.ts:82-90 | Both branches of `insert` yield a valid root whose model is `BTreeModel.Insert`. That root is a fresh object when the old root was full, and the old root otherwise. |
| BTrees.BTree.Insert | src/btree.ts:78-91 | The tree stays valid: sorted, well-formed, one leaf depth. The root's model becomes `BTreeModel.Insert`. The height grows by one and the root is a fresh object exactly when the old root was full; otherwise the root object is unchanged. |
| BTreeModel.Find | src/btree.ts:93-102 | A returned key is `k` itself, and nothing is returned exactly when the node search misses. |
| BTreeModel.FindIsMembership | src/btree.ts:93-102 | On a sorted tree, search returns `k` when the tree holds it and nothing otherwise. |
| BTreeModel.FindWithOneMore | src/btree.ts:93-102 | In a sorted tree with one more `k` than another, search finds `k`. Any other key is found exactly when it is found in the other tree. |
| BTreeModel.InsertThenFind | src/btree.ts:78-102 | After inserting `k`, search returns `k`. For any other key it returns what it returned before. |
| BTrees.BTree.Search | src/btree.ts:93-102 | Returns the key the root's search lands on, or nothing. This is `BTreeModel.Find` of the root's model. |

## Left out

- Deletion, rebalancing and root shrinking: the source has no code for them.
- Occupancy bounds (`t - 1` to `2t - 1` keys per non-root node): the right sibling's degree of `t - 1` breaks them, so no member claims them.
- Degree validation: the source accepts any `t`, and the model accepts any integer `t`. A split needs `2t - 1` keys in the child, so it only ever happens with `t >= 1`.
- Non-integer degrees: the source also accepts a fractional `t`, such as `1.5`. `splitChild` then reads `left.keys[t - 1]`, which is `undefined`, and loses a key. The model's degrees are integers, so it does not capture this.
- Duplicate rejection: the source has none. Duplicates are inserted after equal keys in a leaf, and before an equal median that a split promotes on the way down.
- Generic keys and JavaScript's loose `==`, `<` and `>`: keys are `int`, and comparisons are on integers.
- Object identity of the `[node, index]` pair `Node.search` returns: the model states only that it is a node of the subtree and an index holding `k`.
- JavaScript's numbers: `t`, indices and lengths are unbounded integers. Negative `slice` arguments cannot arise, because `t >= 1` whenever a split runs.
- BTrees.Node.Grow: `BTree.insert` assigns `this.root` before it pushes the old root and splits. The model builds and splits the new root first, then assigns it; nothing in between observes `root`.
- BTrees.InsertAtRoot: the two branches of `BTree.insert` sit in a helper method. `BTree.Insert` stores its result as the root and updates the ghost height.
- BTrees.Node.SplitIfFull: the split-if-full step of `insertNonfull` sits in a helper method. `Node.InsertNonfull` calls it and then recurses.
- BTrees.Node.KeepLowerHalf: the two truncating assignments to the left child at the end of `splitChild` sit in a method of that child.
