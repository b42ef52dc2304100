# gaphas tree and tree sorter, modelled in Dafny

This project models `gaphas/tree.py`. That file holds the structure that the
gaphas canvas uses to keep its items in parent/child order and to render them.
It has two classes:

- `Tree` keeps three containers and updates them in place:
  - `_nodes`, the render list;
  - `_children`, a dictionary from the root `None` and from every node to
    that node's child list;
  - `_parents`, a dictionary from a node to its parent.
- `TreeSorter` writes each node's index in the render list onto the node, and
  sorts any items by that index.

The model is written as follows:

- `Trees.Tree` is a class with the fields `nodes: seq<N>`,
  `children: map<Option<N>, seq<N>>` and `parents: map<N, Option<N>>`.
- The values of `parents` are `Option<N>` because `reparent(node, None)`
  stores `None` there, while `add` leaves top-level nodes out.
- The three fields are abstracted by one ghost field `shape`, a forest of
  `Forest.Item`s. Every `Item` is a node with the subtrees of its children in
  order.
- `Valid()` states that `children` and `parents` are exactly the encoding of
  `shape`, that no node occurs twice, and that `nodes` holds each node of
  `shape` once.
- `Ordered()` states that `nodes` is also the pre-order listing of `shape`.
  This is the render order the class promises: every node after its parent,
  every subtree contiguous.
- `add`, `remove` and `reparent` are methods that change the fields. Their
  contracts give the whole new state in terms of operations on the forest:
  `Attach`, `Prune` and `Move` in module `Edits`.
- The recursion of `remove` and of `_reparent_nodes` is kept. It is mutual
  recursion between a method and its loop over the child list.
- `Placement` gives the position where `_add_to_nodes` inserts a node:
  `AddPos`, just before the node that follows the parent's subtree.
- `Sorting.TreeSorter` models the sorter. Its key attributes are a map `keys`.
  `sort` is Python's `sorted`, modelled as an insertion sort that keeps equal
  keys in their original order.
- `Doctests` recomputes the examples in the docstrings through the model. The
  nodes `n1`, `n2`, … there are any pairwise distinct values.

Errors are values of `Results.Error`: `KeyError`, `ValueError`, `IndexError`
and `AttributeError`. A lookup returns a `Result`. A mutating method returns
an `Outcome` and leaves the tree unchanged when it fails.

## Model

| member | source | states |
|---|---|---|
| Trees.Tree.constructor | gaphas/tree.py:21-30 | A new tree has an empty render list, only the root's empty child list and no parents; it is valid and in pre-order. |
| Trees.Tree.ChildrenOneMore | gaphas/tree.py:18 | The class invariant: a valid tree has exactly one more child list than it has nodes. |
| Trees.Tree.GetParent | gaphas/tree.py:34-44 | The answer is the parent of the node in the forest; it is `None` for a top-level node and for a node not in the tree. |
| Trees.ParentLookup | gaphas/tree.py:44 | A `_parents` dictionary that agrees with the forest answers every lookup with the forest parent, a missing entry meaning `None`. |
| Trees.Tree.GetChildren | gaphas/tree.py:46-59 | Succeeds exactly for the root and for nodes of the tree, with that node's child list in insertion order; `KeyError` otherwise. |
| Trees.Tree.GetSiblings | gaphas/tree.py:61-73 | The child list of the node's parent; it contains the node exactly when the node is in the tree. |
| Trees.SiblingsLookup | gaphas/tree.py:72-73 | The parent of any value is a key of `_children`; a value is in its sibling list exactly when it is a node of the tree. |
| Trees.Tree.GetNextSibling | gaphas/tree.py:75-92 | `ValueError` for a node not in the tree, `IndexError` for a last child, otherwise the sibling right after the node. |
| Trees.Tree.GetPreviousSibling | gaphas/tree.py:94-114 | `ValueError` for a node not in the tree, `IndexError` for a first child (the explicit check at line 112), otherwise the sibling right before the node. |
| Trees.Tree.NextPrevious | gaphas/tree.py:75-114 | `y` is the next sibling of `x` if and only if `y` is in the tree and `x` is the previous sibling of `y`. |
| Trees.Tree.AllBelow | gaphas/tree.py:131-135 | The recursive walk of children and then children's children yields exactly the pre-order listing of those subtrees. |
| Trees.Tree.GetAllChildren | gaphas/tree.py:116-135 | Succeeds exactly for keys in the tree (`KeyError` otherwise) and yields every descendant in pre-order; with the node itself in front this is the node's subtree block of the render order. |
| Trees.Tree.GetAncestors | gaphas/tree.py:137-157 | The loop yields the parent, the parent's parent and so on until a top-level node, which is `Ancestors` of the forest. |
| Forest.AncestorsAbove | gaphas/tree.py:137-157 | There are as many ancestors as the node's depth; each one is a node whose subtree contains the node and that comes before it in pre-order. |
| Forest.UpHoldsKid | gaphas/tree.py:26-30 | The parent of a node (or the root) is in the tree and its child list contains the node. |
| Forest.KidHasUp | gaphas/tree.py:26-30 | Every entry of a child list is a node whose parent is that list's key, the converse of `UpHoldsKid`. |
| Forest.ChildrenCount | gaphas/tree.py:18 | The `_children` dictionary of a forest without repeats has one more key than the forest has nodes. |
| Forest.DepthUp | gaphas/tree.py:154-157 | The parent of a node is one level less deep, so the walk up to the root ends. |
| Forest.SiblingsShareUp | gaphas/tree.py:61-73 | Every node in the sibling list of `x` has the same parent and depth as `x`. |
| Forest.NextSibAtEnd | gaphas/tree.py:164-172 | When a node has a next sibling, that sibling is the node right after the node's subtree in pre-order. |
| Forest.LastSibEnd | gaphas/tree.py:167-170 | A last child's subtree ends where its parent's subtree ends, which is why `_add_to_nodes` moves up to the grandparent. |
| Trees.Tree.InsertionIndex | gaphas/tree.py:159-175 | The recursion of `_add_to_nodes` through next siblings and parents lands on `AddPos`: before the node that follows the parent's subtree, or at the end. |
| Trees.Tree.AddToNodes | gaphas/tree.py:159-175 | `_add_to_nodes` inserts the node into the render list at `AddPos`. |
| Placement.AddPos | gaphas/tree.py:159-175 | The insertion point is within the list: the index of the node that follows the parent's subtree, or the end when no node follows. |
| Placement.AddPosOrdered | gaphas/tree.py:159-175 | On a render list in pre-order, the insertion point is the end of the parent's subtree, where a new last child belongs. |
| Placement.PermutationPlaceable | gaphas/tree.py:172 | When the render list holds the nodes of the forest, `nodes.index(next_uncle)` always finds its node. |
| Trees.Tree.Add | gaphas/tree.py:177-192 | The new node becomes the last, childless child of its parent and enters the render list at `AddPos`; it gets an empty child list and a `_parents` entry only when its parent is a node; the tree stays valid, a tree in pre-order stays in pre-order, and a missing parent is `KeyError` with nothing changed. |
| Trees.AddState | gaphas/tree.py:185-192 | The three container updates of `add` encode `Attach` of a leaf, keep the render list a listing of the nodes and keep pre-order. |
| Trees.AddKeeps | gaphas/tree.py:159-192 | Inserting at `AddPos` keeps the render list a permutation of the nodes and, on a pre-order list, gives exactly the pre-order of the forest with the new leaf. |
| Edits.FlatAttach | gaphas/tree.py:187-188 | The pre-order of a forest with a subtree attached as the last child of `k` is the old listing with that subtree put in at the end of `k`'s subtree. |
| Edits.UniqueAttach | gaphas/tree.py:185-188 | Attaching a subtree of new nodes keeps the forest free of repeats, and its nodes are the old ones plus the new ones. |
| Edits.AttachLeafChildren | gaphas/tree.py:188-190 | The `_children` of the forest with the new leaf is the old one with the node appended to its parent's list and an empty list for the node. |
| Edits.AttachLeafParents | gaphas/tree.py:191-192 | The `_parents` entry that `add` writes, only for a parent that is a node, agrees with the new forest. |
| Trees.Tree.Remove | gaphas/tree.py:194-212 | The node and its whole subtree leave the render list, `_children` and `_parents`, the other nodes keeping their order, and the node leaves its parent's child list; the tree stays valid and in pre-order; a node not in the tree is `KeyError` with nothing changed. |
| Trees.Tree.RemoveKids | gaphas/tree.py:201-203 | The loop over a copy of the child list removes each child's subtree, leaving the node a leaf. |
| Trees.Tree.Unlink | gaphas/tree.py:204-212 | A leaf leaves its parent's child list, `_children`, the render list and `_parents` (where a top-level node may have no entry). |
| Trees.RemoveDone | gaphas/tree.py:194-212 | The loop over the children and then the unlinking of the leaf give together the state that `Remove` promises. |
| Trees.KidsGoneNodes | gaphas/tree.py:201-208 | Removing the children's subtrees and then the node takes exactly the node's subtree out of the render list. |
| Trees.RemoveStep | gaphas/tree.py:202-203 | One turn of the loop: the next child is the first one left, and removing its subtree leaves the remaining children. |
| Trees.UnlinkState | gaphas/tree.py:204-212 | The final updates of `remove` on a leaf encode the pruned forest and keep pre-order. |
| Trees.LeafNodes | gaphas/tree.py:208 | `_nodes.remove(node)` on a leaf keeps the render list a listing of the pruned forest and keeps pre-order. |
| Edits.FlatPrune | gaphas/tree.py:201-208 | The pre-order of the pruned forest is the old listing without the removed subtree. |
| Edits.PruneChildren | gaphas/tree.py:205-207 | The `_children` of the pruned forest drops the keys of the removed subtree and drops the node from its parent's list. |
| Edits.PruneParents | gaphas/tree.py:209-212 | Dropping the removed subtree's nodes from `_parents` agrees with the pruned forest. |
| Trees.AddRemoveInverse | gaphas/tree.py:269-270 | `remove(n)` right after `add(n, k)` restores the render list, `_children`, `_parents` and the forest, and `get_parent(n)` in between is `k`, the argument that redoes the `add`. |
| Trees.AddRemoveNodes | gaphas/tree.py:269-270 | Removing a node just added takes out exactly that node from the render list. |
| Edits.PruneAttachLeaf | gaphas/tree.py:269-270 | Pruning a leaf just attached gives back the forest. |
| Trees.RemoveAddInverse | gaphas/tree.py:269-270 | The other order: on a tree in pre-order, `add(n, p)` right after `remove(n)`, with `p` the parent `get_parent(n)` gave before, restores the render list, `_children` and the forest when `n` is a leaf and the last child of its parent; `_parents` comes back exactly when `n` is not a top-level node carrying the entry `None` that `reparent(n, None)` writes. |
| Trees.RemovedLeaf | gaphas/tree.py:194-212 | `remove` on a leaf of a tree in pre-order leaves a tree in pre-order that no longer has `n` as a key of `_children`, so `add(n, …)` may run. |
| Trees.ParentBack | gaphas/tree.py:191-192 | The `_parents` write of `add` restores the dictionary exactly when the parent is a node or the node had no entry. |
| Edits.PruneThenAttach | gaphas/tree.py:269-270 | Attaching a pruned subtree back under its old parent gives back the forest when it was the parent's last child. |
| Doctests.RemoveAddNotLast | gaphas/tree.py:269-270 | On `a(b, c)`, `remove(b)` and then `add(b, parent=a)` give `a(c, b)` with the render list `[a, c, b]`, not the tree they started from. |
| Doctests.RemoveAddWithKids | gaphas/tree.py:269-270 | On `a(b)`, `remove(a)` and then `add(a)` give the lone leaf `a`: the subtree below `a` is lost. |
| Trees.Tree.ReparentNodes | gaphas/tree.py:215-225 | As written, the method removes the node from the render list, inserts it back where `_add_to_nodes` puts it, then does the same for each child; the result is `RelistAll`, and only the render list changes. |
| Trees.Tree.ReparentKids | gaphas/tree.py:224-225 | The loop relists each child under the node, in order. |
| Placement.Place | gaphas/tree.py:222-223 | One relisting step, `nodes.remove` and then `_add_to_nodes`, is a permutation of the render list. |
| Placement.PlaceOk | gaphas/tree.py:222-223 | That step can always run: the node after the parent's block is never the node that was removed. |
| Placement.RelistAll | gaphas/tree.py:215-225 | The render list `_reparent_nodes` produces is a permutation of the render list it was given. |
| Placement.RelistNext | gaphas/tree.py:224-225 | Relisting the first `j + 1` children is relisting the first `j` and then child `j`. |
| Placement.RelistOne | gaphas/tree.py:222-225 | Relisting one subtree places its root and then relists its children under it. |
| Trees.Tree.Reparent | gaphas/tree.py:227-266 | The node moves from its parent's child list to the end of the new parent's list, and `_parents` records the new parent, `None` included; the forest becomes `Move`, and the render list becomes `RelistAll` of the node's subtree, a permutation of the nodes; a node not in the tree is `ValueError` with nothing changed. |
| Trees.MoveState | gaphas/tree.py:260-263 | The updates of `children` and `parents` in `reparent` encode the moved forest, in which the node's parent is the new one and its subtree is unchanged. |
| Edits.MoveChildren | gaphas/tree.py:261-262 | The `_children` of the moved forest: the node removed from its old parent's list, then appended to the new parent's list. |
| Edits.MoveParents | gaphas/tree.py:263 | `_parents[node] = parent` agrees with the moved forest. |
| Edits.MoveKeeps | gaphas/tree.py:227-266 | A move keeps the forest free of repeats and keeps its set and multiset of nodes. |
| Placement.MovedLast | gaphas/tree.py:262 | After the move the node is the last child of its new parent. |
| Trees.Tree.RelistBlock | gaphas/tree.py:215-225 | Corrected `_reparent_nodes`: the node's whole subtree block leaves the render list and goes back in one piece at `AddPos` of the new parent. |
| Trees.RelistState | gaphas/tree.py:215-225 | The corrected relisting keeps the render list a permutation of the nodes. |
| Placement.LiftPlaceable | gaphas/tree.py:215-225 | The insertion point of the corrected relisting exists, and the result is a permutation of the nodes. |
| Placement.LiftOrdered | gaphas/tree.py:215-225 | On a render list in pre-order, the corrected relisting gives exactly the pre-order of the moved forest. |
| Trees.Tree.ReparentInOrder | gaphas/tree.py:227-266 | `reparent` with the corrected relisting makes the same changes to `children`, `parents` and the forest, and a tree in pre-order stays in pre-order. |
| Sorting.TreeSorter.constructor | gaphas/tree.py:302-303 | A new sorter belongs to its tree and has written no keys yet. |
| Sorting.Positions | gaphas/tree.py:309-311 | The keys one pass writes are exactly the elements of the list. |
| Sorting.PositionsDistinct | gaphas/tree.py:309-311 | In a list without repeats, each element's key is its index. |
| Sorting.TreeSorter.Reindex | gaphas/tree.py:305-311 | Each node of the render list gets its index as its key, nodes outside the list keep their key, and for a valid tree each node's key is its index. |
| Sorting.RenderListDistinct | gaphas/tree.py:18-30 | The render list of a valid tree has no repeats, so the index of a node is well defined. |
| Sorting.InsertByKey | gaphas/tree.py:319 | Inserting into a sorted list adds exactly that item and keeps the list sorted. |
| Sorting.SortByKey | gaphas/tree.py:319 | `sorted` by key gives a permutation of the items in ascending or descending key order. |
| Sorting.TreeSorter.Sort | gaphas/tree.py:313-319 | `AttributeError` exactly when some item has no key; otherwise a permutation of the items sorted by key, descending when `reverse` is set. |
| Sorting.SortFollowsNodes | gaphas/tree.py:277-300 | After `reindex`, sorting items of the tree puts two distinct items in their render order: ascending the earlier one first, and the other way round when `reverse` is set. |
| Doctests.LookupExample | gaphas/tree.py:34-114 | The docstring lookups on `n1(n2, n3)`: the parent `n1`, the children `[n2, n3]` and `[]`, the siblings `[n2, n3]`, the next and previous siblings and the two `IndexError`s. |
| Doctests.WalkExample | gaphas/tree.py:116-152 | On the chain `n1(n2(n3))`: the children `[n2]`, all children `[n2, n3]`, the parent `n2`, the ancestors `[n2, n1]` and `[]`. |
| Doctests.ReparentFirst | gaphas/tree.py:233-245 | `reparent(n2, n3)` makes `n3` the parent of `n2` and the render list `[n1, n3, n2]`. |
| Doctests.AddFour | gaphas/tree.py:249-251 | `add(n4)` then gives the render list `[n1, n3, n2, n4]`. |
| Doctests.ReparentSecond | gaphas/tree.py:252-258 | `reparent(n1, n4)` gives the parent `n4`, all children of `n4` `[n1, n3, n2]` and the render list `[n4, n1, n3, n2]`. |
| Doctests.ReparentExample | gaphas/tree.py:233-258 | The whole `reparent` docstring, from a new tree. |
| Doctests.SortExample | gaphas/tree.py:282-300 | The `TreeSorter` docstring: after `reindex`, sorting `[a2, a3, a1]` gives `[a1, a3, a2]`. |
| Doctests.SortThree | gaphas/tree.py:298-299 | Sorting `[a2, a3, a1]` by the keys `a1: 0, a3: 1, a2: 2` gives `[a1, a3, a2]`. |
| Doctests.NewBush | gaphas/tree.py:177-192 | Five `add` calls build `a(b(d), c), e` with the render list `[a, b, d, c, e]`. |
| Doctests.RelistOutOfOrder | gaphas/tree.py:215-225 | `_reparent_nodes(a, e)` as written turns `[a, b, d, c, e]` into `[d, e, a, b, c]`, which is not the pre-order `[e, a, b, d, c]` of the moved forest. |
| Doctests.FindingAsWritten | gaphas/tree.py:227-266 | `reparent(a, e)` as written on that tree leaves the render list `[d, e, a, b, c]`. |
| Doctests.RelistInOrder | gaphas/tree.py:215-225 | The corrected relisting of the same move gives `[e, a, b, d, c]`, the pre-order of the moved forest. |
| Doctests.FindingInOrder | gaphas/tree.py:227-266 | `ReparentInOrder(a, e)` on that tree leaves the render list `[e, a, b, d, c]`. |

## Left out

- Trees.Tree.Add: requires that the node is not in the tree. The source line 185 only asserts `not self._children.get(node)`. That assertion also lets a node that is already in the tree as a leaf through, and adding such a node again corrupts the three containers; the model does not cover that case.
- Trees.Tree.Reparent: requires that the new parent is a key of `_children` and is not inside the moved node's subtree. With a missing parent the source raises `KeyError` after it has already removed the node from its old sibling list. With a parent inside the subtree the source cuts a cycle off from the root: `_children` and `_parents` already hold that cycle when `_reparent_nodes` recurses around it, and the recursion stops only at Python's recursion limit with `RuntimeError: maximum recursion depth exceeded`. Neither behaviour is modelled.
- Trees.Tree.ReparentInOrder: carries the same preconditions as `Reparent`.
- Nodes are assumed truthy. The source tests `if parent:` and `while parent:`; a falsy node, such as `0` or an empty string, would be taken for the root. The model tests for `None`.
- `get_all_children` and `get_ancestors` are generators. The model returns the whole sequence they yield, so laziness and changes made while iterating are not captured.
- The `@observed` decorator, `reversible_pair` and `disable_dispatching` (module `state`) are not part of this model. The undo pairing of `add` with `remove` is instead stated as `Trees.AddRemoveInverse`, which holds on every valid tree. The other order, `add(n, get_parent(n))` undoing `remove(n)`, restores the state only when `n` is a leaf and the last child of its parent (`Trees.RemoveAddInverse`). A leaf that is not the last child comes back after its younger siblings, which changes its parent's child list and the render order (`Doctests.RemoveAddNotLast`). A node with children comes back without them (`Doctests.RemoveAddWithKids`). A top-level node whose `_parents` entry `None` was written by `reparent(n, None)` does not get that entry back.
- `Trees.Tree.Remove` and `Trees.Tree.ReparentNodes` are each split into a method and a method holding its loop (`RemoveKids`, `ReparentKids`). `Remove` also has a final step, `Unlink`. The recursion goes through these methods, as it does in the source.
- `TreeSorter` stores its keys as the attribute `_tree_sorter_key` on each item. The model keeps them in the map `keys`, so items that are not hashable values and two items that are equal but distinct objects are not modelled.
- The key attribute lives on the items themselves, so a `reindex` by one sorter changes what every other sorter of the same items sees. In the model each `TreeSorter` has its own `keys` map, so this sharing between sorters is not captured.
- `get_children` and `get_siblings` return the live child list held in `_children` (tree.py lines 59 and 73), which `remove` and `reparent` then change in place (lines 205 and 261). The model returns the list as a value, so a caller holding a list returned earlier does not see it change.
- Sorting.SortByKey: states that the result is a permutation in key order. It does not state that `sorted` is stable; the insertion sort happens to be.
- Sorting.TreeSorter.Sort: inherits this; its contract also does not state that `sorted` is stable.
- Sorting.TreeSorter.Reindex: always succeeds. In the source `setattr` raises `AttributeError` for an item without attribute storage (a `str` such as the `'n1'` of the `Tree` docstrings, an `int`, a tuple, an object with `__slots__`). The pass then stops partway, after the earlier nodes of the render list already have their keys. The model does not capture that error or the partly written keys.
- `reindex` in the source uses `map` and `xrange` (Python 2), which run eagerly. The model writes the keys with a loop.
- The node names of the docstrings (`'n1'`, `A(1)`, …) are generic values that differ from each other. Their `repr` is not modelled.
- `avoid-demo.py` and `gaphas/itemrole.py` are not part of this model.

## Findings

| source | as written | input that shows it | evidently intended | confidence | as-written member | corrected member |
|---|---|---|---|---|---|---|
| gaphas/tree.py:215-225 | `_reparent_nodes` relists the moved node and then each of its descendants one at a time, each with `_add_to_nodes`. `_add_to_nodes` inserts in front of the parent's next sibling. That sibling may not have been relisted yet and can still stand far ahead in the list. | Build `a(b(d), c), e` with `add(a)`, `add(b, a)`, `add(c, a)`, `add(d, b)`, `add(e)`; the render list is `[a, b, d, c, e]`. `reparent(a, e)` then leaves `[d, e, a, b, c]`, because `d` is put in front of the not yet relisted `c`. | The render list stays in pre-order with every node after its parent, here `[e, a, b, d, c]`, as it does for the docstring's one-level example. | not executed | Doctests.RelistOutOfOrder, Doctests.FindingAsWritten, Trees.Tree.Reparent | Trees.Tree.RelistBlock, Trees.Tree.ReparentInOrder, Placement.LiftOrdered, Doctests.FindingInOrder |
