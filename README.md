# AVL tree and equal-paths checker, modelled in Dafny

This project models two files of a C++ binary-search-tree homework:

- `avlbst.h`: an AVL tree derived from a plain binary search tree;
- `equal-paths.cpp`: a checker for whether every leaf of a binary tree sits at the same depth.

## The AVL tree (`avlbst.h`)

**The arena.** The tree is a web of nodes linked by `parent`, `left` and `right` pointers, all updated in place. The model keeps that web as an arena, `nodes: map<nat, AvlNode<V>>`, where ids stand for pointers:

- `Ptr` is either `Null` or `At(id)`;
- `root` points at the root;
- `nextId` is the id the next `new` hands out.

**Soundness.** A ghost `Shape` tree records the form the links are meant to have. `Intact(t, nodes, root, nextId)` (module `Arena`) says the arena is sound:

- every link agrees with the shape, and every child points back to its parent;
- the arena holds exactly the nodes of the shape, none twice;
- no link dangles;
- stored heights are non-negative;
- every id is below `nextId`.

**Contents.** The tree's contents are its in-order list of `(key, value)` entries, `InOrder(t, nodes)`. The map operations on such a list are `Lookup`, `Upsert` and `Delete` (module `Entries`).

**Operations.**
- Every arena operation takes the old arena and returns the new one. Class `Avl.AvlTree` holds the arena as its fields. Its `Insert` and `Remove` update those fields in place.
- `insert` and `remove` are proved to leave a sound arena whose entries are `Upsert`, resp. `Delete`, of the old ones, with keys still ascending.
- `rotateLeft`, `rotateRight` and the two double rotations are proved to keep the entries and to relink exactly the nodes a rotation moves.

**How `rebalance` behaves as written.** `avlbst.h` stores each node's height in the field it calls `balance_`. `getHeight` returns that field, or -1 for null, and `updateHeight` writes `max(left, right) + 1` into it. `rebalance` then reads the same field back as the node's balance. So:

- The field is never negative, so the left-heavy branch (`balance < -1`) can never run. The model shows this branch is dead with `assert false`.
- Every node of height 2 or more takes the right-heavy branch. It dereferences the right child as the pivot, even when that child is null.

For example, inserting 3, 2, 1 gives node 3 height 2 and no right child. The model makes this null dereference an explicit outcome: `Rebalance` then stops with `NullPivot(at)` and says which node had height above 1 and no right child. On the other path it returns `Completed`.

The model does not claim that the tree stays height-balanced, because the code as written does not keep it so. Every other property holds on both outcomes: soundness, contents and key order.

**What the stored heights are.** Module `Heights` defines the true height `Tall` of a subtree and proves that the stored fields track it:

- a new tree has true heights;
- a completed `insert` or `remove` keeps every stored height true;
- the walk of `rebalance` keeps every height true except on the path from its cursor up;
- when a walk from a node completes, the root has a recomputed height of at most 1.

A consequence: a walk that starts from true heights completes only when the whole tree is at most 1 tall, which means at most three nodes. So, from true heights, inserting a new key into a tree of three or more entries always ends in `NullPivot`, and so does removing a key from a tree of five or more.

For example, insert 1, 2 and 3 in that order. The third walk rotates left at 1 and completes with 2 over 1 and 3. Inserting 4 then rotates left at 2 and again at 3. That leaves 4 as the root, with height 3 and no right child, so the walk stops there with `NullPivot`.

**`nodeSwap`.**
- `bst.h` is not part of this model. The base class's `nodeSwap` is modelled as trading the two nodes' keys and values.
- The AVL override then trades their `balance_` fields (`avlbst.h:229-236`).
- This content swap is the reading under which `remove` is correct. After `nodeSwap(node, predecessor)`, `remove` sets `node = predecessor` and cuts that node out. That node then holds the key being removed and has no right child.

**Other base-class primitives.** `internalFind` and `predecessor` also come from `bst.h`. They are modelled as:

- the usual search from the root;
- the usual descent to the rightmost node of the left subtree (the only case `remove` uses).

## The equal-paths checker (`equal-paths.cpp`)

A tree is a shape `Nil | Node(left, right)`.

- `CheckEqualPaths` returns the verdict together with the final value of the in/out `pathHeight` parameter.
- The `&&` of the two recursive calls short-circuits, as in C++.
- `CheckSpec` proves what the recursion computes. The check passes exactly when every null link it visits lies at the depth of the first one.
- `EqualPathsCorrect` proves what `equalPaths` means: it is true exactly when all childless nodes lie at the same depth.
- `getHeight` is the node count of the longest path. `DeepestLeaf` and `RecordedDepthIsHeight` tie it to the depths the checker records.

## Model

| member | source | states |
|---|---|---|
| Insertion.NewNode | avlbst.h:52-57 | the new node holds the given key, value and parent, has no children, and its stored field (0) is already the height `updateHeight` would compute for a childless node |
| Arena.GetHeight | avlbst.h:336-342 | -1 exactly for null, otherwise the node's stored field, which is never below 0 |
| Arena.UpdateHeight | avlbst.h:344-350 | the node's stored field becomes one more than the larger stored height of its children (with null counting as -1); no other node and no other field changes |
| Balance.RotateLeft | avlbst.h:268-293 | the arena stays sound and its entries stay the same; the shape is rotated left at `x`; the pivot takes the place of `x` under its old parent (or as the root); only the nodes a left rotation touches are relinked; `x` and the pivot then have their heights recomputed |
| Balance.RotateRight | avlbst.h:295-320 | the mirror image of `RotateLeft`: the left child becomes the pivot and the shape is rotated right at `x` |
| Balance.RotateRightLeft | avlbst.h:329-334 | rotate right at the right child `c`, then left at `x`: the arena stays sound and the entries stay the same; the left child `q` of `c` takes the place of `x` under its old parent (or as the root), with `x` and `c` as its children; `x`, `c` and `q` each store one more than the larger stored height of their new children; every other node keeps its stored height |
| Balance.RotateLeftRight | avlbst.h:322-327 | rotate left at the left child `c`, then right at `x`: the arena stays sound and the entries stay the same; the right child `q` of `c` takes the place of `x`, with `c` and `x` as its children; `x`, `c` and `q` each store one more than the larger stored height of their new children; every other node keeps its stored height |
| Balance.RightLeftHeights | avlbst.h:329-334 | across the two rotations of `rotateRightLeft`, the middle node `c` ends with a recomputed height and every node other than `x`, `c` and `q` keeps its stored height |
| Balance.LeftRightHeights | avlbst.h:322-327 | the mirror image of `RightLeftHeights` for `rotateLeftRight` |
| Rewiring.LinkLeft | avlbst.h:271-289 | the pointer writes of `rotateLeft` at `x`: the pivot hangs from the old parent of `x` and has `x` as left child, `x` takes the pivot's old left child, that child's parent becomes `x`, the old parent's slot for `x` points at the pivot, no other node changes (`LeftRotated`), the height of `x` is untouched, and the pivot becomes the root exactly when `x` had no parent |
| Rewiring.LinkRight | avlbst.h:298-316 | the mirror for `rotateRight` (`RightRotated`): the pivot is the left child, `x` takes its old right child, no other node changes, the height of `x` is untouched, and the pivot becomes the root exactly when `x` had no parent |
| Rewiring.LeftRotatedHeights | avlbst.h:268-293 | a left rotation changes the stored height of no node but `x` and the pivot |
| Rewiring.RightRotatedHeights | avlbst.h:295-320 | a right rotation changes the stored height of no node but `x` and the pivot |
| Balance.Rebalance | avlbst.h:238-266 | the walk from `node` to the root ends, keeps the arena sound with the same nodes, the same entries and the same in-order sequence, and stops with `NullPivot(at)` only at a re-heighted node whose height is above 1 and which has no right child; when it completes from a node, the root's stored height is recomputed and is at most 1; when every stored height was true except on the path from `node` up, all stored heights are true at the end, and the tree is then at most 1 tall |
| Balance.Retrace | avlbst.h:241-264 | one pass of the loop: the node's height `h` is recomputed from its children; when `h <= 1` nothing else changes and the walk goes on at the parent; when `h > 1` the node has no pivot exactly when it has no right child (then nothing else changes), and otherwise it is rotated as `RotateTall` says and the walk goes on at its new parent; the walk gets closer to the root or leans less; getting closer to the root or leaning less; heights stale only from the node up stay stale only from the next node up; leaving the root, the root's height is recomputed and at most 1 |
| Balance.RotateTall | avlbst.h:255-262 | a node of height above 1 is rotated left (`RotatedLeftAt`) when the stored height of its right child's right child is at least that of its left child, and right-left (`RotatedRightLeftAt`) otherwise (`TallRotated`); it has no pivot exactly when it has no right child, and then nothing changes; after a rotation the node hangs below the new subtree root, where the walk goes on |
| Balance.LeftStale | avlbst.h:259 | after `rotateLeft(n)` of a subtree with true heights, only the pivot and the nodes above it may hold stale heights |
| Balance.RightLeftStale | avlbst.h:261 | after `rotateRightLeft(n)` of a subtree with true heights, only the new subtree root and the nodes above it may hold stale heights |
| Heights.Tall | avlbst.h:336-350 | the height of a subtree in the sense `getHeight` and `updateHeight` compute it: -1 exactly for the empty tree, never below -1 |
| Heights.TrueFrame | avlbst.h:344-350 | true stored heights of a subtree stay true when none of its nodes changes its stored height |
| Heights.StaleFix | avlbst.h:243 | `updateHeight` of the first stale node, whose children's heights are true, makes its own height true; only the nodes above it stay stale |
| Heights.StepUp | avlbst.h:264 | a node whose subtree's heights are all true hands the walk on to its parent: only the parent and the nodes above it may be stale (none, past the root) |
| Heights.StaleFrame | avlbst.h:228-236 | stale heights from `c` up stay so when only `c` and a node above it change their stored heights |
| Heights.RewriteStale | avlbst.h:268-334 | replacing a subtree by one whose only stale heights are on the path from `c` up, and changing no height elsewhere, leaves only `c` and the nodes above it stale in the whole tree |
| Heights.CutLeafStale | avlbst.h:207-225 | cutting a childless node out from under `q` leaves only `q` and the nodes above it stale |
| Heights.HangStale | avlbst.h:172-189 | hanging a new childless node in an empty slot of a tree with true heights leaves only the new node and the nodes above it stale |
| Heights.RotLTrue | avlbst.h:268-293 | a left rotation of a subtree with true heights, with `x` and the pivot re-heighted, gives a subtree with true heights |
| Heights.RotRTrue | avlbst.h:295-320 | the same for a right rotation |
| Heights.RotRLTrue | avlbst.h:329-334 | the same for a right-left rotation, with `x`, its right child and that child's left child re-heighted |
| Heights.RotLRTrue | avlbst.h:322-327 | the same for a left-right rotation |
| Heights.RotLStale | avlbst.h:259 | a left rotation at the first stale node leaves only the pivot and the nodes above it stale |
| Heights.RotRLStale | avlbst.h:261 | a right-left rotation at the first stale node leaves only the new subtree root and the nodes above it stale |
| Heights.LowTree | avlbst.h:238-266 | a tree no taller than 1 has at most three nodes |
| Heights.FewEntries | avlbst.h:238-266 | a tree no taller than 1 holds at most three entries |
| Shapes.RotationsKeepSeq | avlbst.h:268-320 | a single rotation, left or right, keeps the in-order sequence of a tree |
| Shapes.DoubleRotationsKeepSeq | avlbst.h:322-334 | both double rotations keep the in-order sequence |
| Insertion.Descend | avlbst.h:153-170 | the descent of `insert` either stops at the node holding `k`, or falls off below `parent` at the empty slot on the side of `k`, where the in-order nodes split into those with smaller keys and those with larger keys |
| Insertion.AttachLeaf | avlbst.h:172-186 | the new node gets the next id and holds `(k, v)` under `parent`; it becomes the root of an empty tree, or else the left child of `parent` when `k` is below its key and the right child otherwise; the arena stays sound, the entries become `Upsert(k, v)` and the keys stay ascending; true stored heights stay true except on the path from the new node up |
| Insertion.HangChildStale | avlbst.h:172-186 | hanging the new node changes no stored height, so only it and the nodes above it may be stale |
| Insertion.InsertAt | avlbst.h:150-190 | the entries become `Upsert(k, v)` of the old ones; a present key only has its value overwritten, with no new node, no other change and no rebalancing; an absent key adds exactly one node with the next id; a `NullPivot` outcome names a re-heighted node of height above 1 without a right child; when an absent key's insertion completes, the root's stored height is recomputed and at most 1; true stored heights stay true when it completes, and the tree is then at most 1 tall if a node was added |
| Insertion.OnlyOneKey | avlbst.h:160-168 | in a sound tree with ascending keys, the node the descent stops at is the only one with that key, so overwriting its value changes one entry |
| Insertion.MissingKey | avlbst.h:156-172 | when the descent falls off the tree, the key is in no entry, so `insert` must add a node |
| Insertion.FoundKey | avlbst.h:164-168 | a key held by a node of the tree is found by `Lookup` on its entries |
| Removal.Find | avlbst.h:195-198 | the search yields a node holding `k`, and yields null exactly when no entry has key `k` |
| Removal.Predecessor | avlbst.h:200-202 | from a node with a left child, following right children down reaches a node of the left subtree that has no right child and is the last of that subtree in order |
| Removal.NodeSwap | avlbst.h:228-236 | the two nodes trade keys, values and stored heights; every link and every other node stays as it was |
| Removal.SwapTwice | avlbst.h:228-236 | swapping the same two nodes twice restores the arena |
| Removal.SwapIntact | avlbst.h:228-236 | a swap keeps the arena sound |
| Removal.NextTo | avlbst.h:200-204 | the predecessor of a node with two children comes right before it in order, so after the swap the node to cut out holds the removed key next to its old neighbours |
| Removal.CutOut | avlbst.h:207-220 | the only child of `d` (or null) takes the place of `d` under the parent of `d` (or becomes the root), and `d` leaves the arena; no other node changes |
| Removal.CutKept | avlbst.h:207-220 | after the splice the arena is sound, and its entries are those before `d` followed by those after it |
| Removal.RemoveAt | avlbst.h:192-226 | the entries become `Delete(k)` of the old ones and the arena stays sound; a missing key leaves the arena and the root untouched and does not rebalance; a present key takes exactly one node out of the arena; a `NullPivot` outcome names a re-heighted node of height above 1 without a right child; when a present key's removal completes on a non-empty tree, the root's stored height is recomputed and at most 1; true stored heights stay true when it completes, and the tree is then at most 1 tall if a node was removed |
| Removal.Unlink | avlbst.h:207-225 | splicing out the prepared node and rebalancing from its child, or else its parent, leaves a sound arena one node smaller, with the entries of `Delete(k)`; on completion the root's height is recomputed and at most 1, and heights stale only from the cut node up end all true |
| Removal.Settle | avlbst.h:222-225 | the walk starts at the child that took the removed node's place, else at its parent, else not at all (the tree is then empty); on completion a root has a recomputed height of at most 1, and heights stale only from the start up end all true |
| Removal.SwapStale | avlbst.h:200-204 | from true heights, the swap with the predecessor, which moves both stored heights with the entries, leaves only the predecessor and the nodes above it stale |
| Removal.CutStale | avlbst.h:207-220 | cutting out the first stale node leaves only the child that takes its place (else its parent) and the nodes above it stale |
| Rewiring.SplicedHeights | avlbst.h:207-220 | the splice of `remove` changes no node's stored height |
| Avl.AvlTree.constructor | avlbst.h:130-148 | a new tree (the base constructor in `bst.h` starts with a null root) is empty and valid, and its stored heights are trivially true |
| Avl.AvlTree.Insert | avlbst.h:150-190 | the object's entries become `Upsert(k, v)` of the old ones, still in key order; a new node is allocated exactly when `k` was absent; for a present key the outcome is `Completed`, the root and the set of nodes stay, and only the node holding `k` changes, in its value; for an absent key the nodes are the old ones plus the old `nextId`; a `NullPivot` outcome names a re-heighted node of height above 1 without a right child; a completed insertion of a new key leaves a root of recomputed height at most 1; true stored heights stay true on completion, and a completed insertion of a new key then leaves at most three entries |
| Avl.AvlTree.Remove | avlbst.h:192-226 | the object's entries become `Delete(k)` of the old ones, still in key order; `nextId` never changes; an absent key changes nothing and completes; a present key frees exactly one node, so the nodes are a proper subset of the old ones; a `NullPivot` outcome names a re-heighted node of height above 1 without a right child; a completed removal of a present key leaves a root, if any, of recomputed height at most 1; true stored heights stay true on completion, and a completed removal of a present key then leaves at most three entries |
| Entries.UpsertLookup | avlbst.h:150-190 | after `insert(k, v)` a look-up of `k` gives `v`, and a look-up of any other key gives what it gave before |
| Entries.UpsertSorted | avlbst.h:150-190 | `insert` keeps the keys ascending and brings in no key but `k` |
| Entries.DeleteLookup | avlbst.h:192-226 | after `remove(k)`, `k` is absent and every other key keeps its value |
| Entries.DeleteSorted | avlbst.h:192-226 | `remove` keeps the keys ascending and only takes entries away |
| Entries.DeleteMissing | avlbst.h:197-198 | removing a key that is not there changes nothing |
| Entries.UpsertBetween | avlbst.h:172-186 | a new key that falls between two halves of the entries lands between them |
| Entries.UpsertHit | avlbst.h:164-168 | upserting a key already present overwrites only that entry's value |
| Entries.DeleteHit | avlbst.h:207-220 | deleting a key present in an ordered list removes exactly its entry |
| EqualPaths.Height | equal-paths.cpp:9-16 | the height is never negative, and it is 0 exactly for the empty tree |
| EqualPaths.CheckEqualPaths | equal-paths.cpp:20-40 | once `pathHeight` is recorded it never changes; while it is -1, it is set to the depth of the first null link reached, which is at least the current depth |
| EqualPaths.CheckSpec | equal-paths.cpp:20-40 | the check records the depth of the first null link it reaches (or keeps a given one), and it passes exactly when every null link it visits lies at that depth |
| EqualPaths.EndsAreBelowLeaves | equal-paths.cpp:31-39 | the null links the check visits lie exactly one level below the childless nodes |
| EqualPaths.EqualPathsWithHeight | equal-paths.cpp:42-45 | the recorded `pathHeight` is the depth of the first null link, never negative, and the verdict is true exactly when every null link visited lies at that depth |
| EqualPaths.EqualPaths | equal-paths.cpp:42-45 | `equalPaths(root)` is true exactly when every null link visited lies at the depth of the first one |
| EqualPaths.EqualPathsCorrect | equal-paths.cpp:42-45 | `equalPaths(root)` is true exactly when all childless nodes lie at the same depth |
| EqualPaths.LeavesAboveHeight | equal-paths.cpp:9-16 | every childless node lies above depth `d + getHeight` |
| EqualPaths.DeepestLeaf | equal-paths.cpp:9-16 | some childless node lies at depth `d + getHeight - 1` |
| EqualPaths.RecordedDepthIsHeight | equal-paths.cpp:42-45 | when `equalPaths` succeeds, the depth it records equals `getHeight(root)` |

## Left out

- The AVL balance invariant and the logarithmic height bound are not claimed. `rebalance` reads the stored height as the balance, so the tree the code builds need not be balanced.
- Keys are modelled as `int`, ordered by `<`. A `Key` type whose `operator<` is not a strict total order is not modelled; the source's template works for any `Key` with `operator<`.
- `int8_t` width of `balance_` and of `getHeight`'s result: heights are unbounded integers. The wrap-around of a height above 127 is not modelled.
- `AVLNode::getBalance` and `setBalance` are plain reads and writes of the stored field (`height` in the model). They are not separate members.
- `AVLNode::updateBalance` and `KeyError` are not used by the tree and are not modelled.
- The `getParent`/`getLeft`/`getRight` overrides are the casts C++ needs. In the arena they are field reads.
- `bst.h` is not part of this model:
  - `internalFind`, `predecessor` and the base `nodeSwap` are given the behaviour described above;
  - `predecessor`'s walk up the parents, for a node without a left child, is never reached from `remove` and is not modelled;
  - iterators, `find`, `clear`, printing and the destructor are not modelled.
- Memory management: `new` is the next arena id and `delete` removes the id from the arena. Allocation failure and freeing are not modelled.
- The null dereference in `rebalance` is modelled as the `NullPivot` outcome, which ends the walk. What the C++ program does after the dereference (undefined behaviour) is not modelled.
- The `Node` type of `equal-paths.h` is not part of this model. The checker's tree is modelled by its shape alone, since the checker never reads keys.
