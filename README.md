# ScapegoatTreeSet in Dafny

This project models `ScapegoatTreeSet` from Eclipse Collections and proves
properties of the model. `ScapegoatTreeSet` is a sorted set backed by a
weight-balanced scapegoat tree (Galperin and Rivest). Its special feature is
that balanced parts of the tree can be packed into a flat array.

## Structure of the tree

- **Simple nodes.** A `SimpleBinaryNode` holds a value and two child
  references.
- **Compact nodes.** A `CompactCompositeInnerNode` is a view (table,
  position) into an array laid out as a complete binary tree.
  - The children of position `p` are `2p+1` and `2p+2`.
  - Each array slot is empty, holds a value, or (in the last row only)
    holds a nested node.

## Operations

- **Insertion.** An insert walks down from the root and adds a leaf.
- **Depth check.** When the walk is deeper than `maxDepth`, the insert
  either rebuilds the first weight-unbalanced ancestor (the scapegoat) or
  rebuilds the whole tree.
- **Deletion.** A value with children is replaced by the greatest element of
  its left subtree or the least element of its right subtree. After enough
  deletions the whole tree is rebuilt into one table.
- **Full rebuild.** `BalancedTreeBuilder` fills such a table in a single
  in-order pass.

## How the model is built

- **Nodes are values.**
  - `Node = Simple(value, left, right) | Compact(table)`.
  - `Slot = Empty | Val(v) | Sub(node)`.
  - A `Handle` is what a Java node reference points at: a linked node, or a
    `View(table, position)`.
- **Node operations are functions.** Every node mutator (`setLeftValue`,
  `eraseLeftChild`, `removeLeaf`, `replaceLeftTree`, `setLeftSubTree`, …)
  returns the changed handle. Each contract says what the node's own value,
  its changed side and its untouched side now hold.
- **Walks keep an ancestor stack.** A walk such as `add`, `remove`,
  `findScapegoat` or the iterator keeps the stack of `Frame(parent,
  direction)` pairs. `Rebuild` hangs a changed node back under its
  ancestors.
- **Stateful parts are classes.** `ScapegoatTreeSet`,
  `BalancedTreeBuilder` and `ScapegoatTreeSetIterator` are classes whose
  methods update their fields.
  - The builder keeps the Java `Object[]` as an `array<Slot>`.
  - The set's ghost `Contents()` is the in-order sequence of the tree.
  - Its `Valid()` says that:
    - the tree is well formed and strictly ascending;
    - `nodeCount` counts the elements;
    - the ratios are ones the constructor accepts;
    - `minSize` belongs to `maxDepth`.
- **Arithmetic is written out.** Elements are `int` compared with `<`.
  Java's truncating `(p - 1) / 2` is modelled explicitly
  (`parentPosition(0) == 0`). Java's `int` wrap-around is written out as
  `WrapAdd` and `WrapSub` where the depth and the threshold exponent are
  computed. The saturating `(int)` cast of a `double` is written out as
  `Saturate`. The `float`/`double` thresholds are exact reals.

## Model

| member | source | states |
|---|---|---|
| Positions.ParentOfChildren | eclipse-collections/src/main/java/org/eclipse/collections/impl/set/sorted/mutable/ScapegoatTreeSet.java:181-194 | the parent position of either child of `p` is `p`, the root is its own parent under Java's truncating division, and both children lie after `p` |
| Positions.ChildOfParent | eclipse-collections/src/main/java/org/eclipse/collections/impl/set/sorted/mutable/ScapegoatTreeSet.java:191-194 | every non-root position lies after its parent and is that parent's left child exactly when it is odd, its right child exactly when it is even |
| Positions.MidPointSplitsSegment | eclipse-collections/src/main/java/org/eclipse/collections/impl/set/sorted/mutable/ScapegoatTreeSet.java:146-154 | for a non-empty segment the midpoint lies inside it and the two sides differ in size by at most one |
| Layout.InOrderLength | eclipse-collections/src/main/java/org/eclipse/collections/impl/set/sorted/mutable/ScapegoatTreeSet.java:1966-1977 | the in-order walk of the complete-tree layout of positions `0..n-1` visits exactly `n` positions |
| Layout.Decompose | eclipse-collections/src/main/java/org/eclipse/collections/impl/set/sorted/mutable/ScapegoatTreeSet.java:1979-2015 | the in-order walk is what comes before a position's subtree, that subtree's walk, and what comes after it |
| Builder.BalancedTreeBuilder.constructor | eclipse-collections/src/main/java/org/eclipse/collections/impl/set/sorted/mutable/ScapegoatTreeSet.java:1966-1977 | a fresh builder of `size` slots has written nothing and has `size` values to go |
| Builder.BalancedTreeBuilder.Value | eclipse-collections/src/main/java/org/eclipse/collections/impl/set/sorted/mutable/ScapegoatTreeSet.java:1979-2015 | each value is written at the current cursor, the written positions are always a prefix of the in-order walk, and one value fewer remains |
| Builder.NextCursor | eclipse-collections/src/main/java/org/eclipse/collections/impl/set/sorted/mutable/ScapegoatTreeSet.java:1992-2014 | the cursor moves to the next position of the in-order walk (down to the leftmost of the right subtree, or up past finished right children), and `traversingDown` says whether it has a right child |
| Builder.BuildTable | eclipse-collections/src/main/java/org/eclipse/collections/impl/set/sorted/mutable/ScapegoatTreeSet.java:1957-2016 | `n` values fill a table of `n` slots (`n+1` when `n` is even), exactly the slots below `n` hold values, and the table's in-order walk gives the values back in order |
| Builder.BuilderFinished | eclipse-collections/src/main/java/org/eclipse/collections/impl/set/sorted/mutable/ScapegoatTreeSet.java:1966-2015 | once every value has been given, the builder's array has the shape above and its in-order walk is the values |
| Builder.BuiltTableShape | eclipse-collections/src/main/java/org/eclipse/collections/impl/set/sorted/mutable/ScapegoatTreeSet.java:1285-1291 | a filled table of at least two values (so more than one slot, as the table node's constructor asserts) is a well-formed table node |
| Nodes.NodeSizeCounts | eclipse-collections/src/main/java/org/eclipse/collections/impl/set/sorted/mutable/ScapegoatTreeSet.java:1249-1255 | `size()` of a node is the number of elements below it |
| Nodes.SizePositionCounts | eclipse-collections/src/main/java/org/eclipse/collections/impl/set/sorted/mutable/ScapegoatTreeSet.java:1524-1548 | `sizePosition(p)` of a table is the number of elements in the subtree at `p` |
| Nodes.ContainsIsMembership | eclipse-collections/src/main/java/org/eclipse/collections/impl/set/sorted/mutable/ScapegoatTreeSet.java:1257-1270 | on an ordered node, the comparison-guided search answers true exactly for the elements of the node |
| Nodes.TableContainsIsMembership | eclipse-collections/src/main/java/org/eclipse/collections/impl/set/sorted/mutable/ScapegoatTreeSet.java:1550-1582 | the same for the search through a table position, including nested nodes in its last row |
| Handles.Split | eclipse-collections/src/main/java/org/eclipse/collections/impl/set/sorted/mutable/ScapegoatTreeSet.java:1293-1343 | through `getValue`, `getLeft` and `getRight`, the elements under any node are the left subtree's, its own value, then the right subtree's |
| Handles.ReattachSpec | eclipse-collections/src/main/java/org/eclipse/collections/impl/set/sorted/mutable/ScapegoatTreeSet.java:1388-1409 | hanging a changed child back under its parent keeps the parent's value and other side and makes the changed child its child |
| Handles.RebuildSpec | eclipse-collections/src/main/java/org/eclipse/collections/impl/set/sorted/mutable/ScapegoatTreeSet.java:354-393 | after a node on a root path is changed, the root holds the same elements before and after that node, with the node's new elements in between |
| NodeOps.SetValue | eclipse-collections/src/main/java/org/eclipse/collections/impl/set/sorted/mutable/ScapegoatTreeSet.java:1306-1319 | `setValue` changes only the node's own value; both subtrees keep their elements |
| NodeOps.SetChildValue | eclipse-collections/src/main/java/org/eclipse/collections/impl/set/sorted/mutable/ScapegoatTreeSet.java:1345-1386 | `setLeftValue`/`setRightValue` give the node a child holding the value (a new slot, or in the last row a nested simple node), keeping its value and other side; on a node with no child on that side the side holds exactly the value |
| NodeOps.EraseKeepsShape | eclipse-collections/src/main/java/org/eclipse/collections/impl/set/sorted/mutable/ScapegoatTreeSet.java:1888-1899 | `erase` empties the whole subtree at a position, keeps the table well formed, and leaves every slot outside it untouched |
| NodeOps.EraseChild | eclipse-collections/src/main/java/org/eclipse/collections/impl/set/sorted/mutable/ScapegoatTreeSet.java:1870-1879 | `eraseLeftChild`/`eraseRightChild` of a table view leaves it without that child, keeping its value and other side; on a nested or simple node the handle is unchanged |
| NodeOps.EraseBelowKeepsShape | eclipse-collections/src/main/java/org/eclipse/collections/impl/set/sorted/mutable/ScapegoatTreeSet.java:1881-1886 | `eraseBelow` leaves a value with no elements below it and changes nothing outside its subtree |
| NodeOps.ReplaceChildTree | eclipse-collections/src/main/java/org/eclipse/collections/impl/set/sorted/mutable/ScapegoatTreeSet.java:1901-1944 | `replaceLeftTree`/`replaceRightTree` make that side hold exactly the one value, keeping the node's value and other side |
| NodeOps.IsLeaf | eclipse-collections/src/main/java/org/eclipse/collections/impl/set/sorted/mutable/ScapegoatTreeSet.java:1411-1430 | `isLeaf` holds for a node with no children (a nested node counts as inner) and never for a node with one |
| NodeOps.RemoveLeaf | eclipse-collections/src/main/java/org/eclipse/collections/impl/set/sorted/mutable/ScapegoatTreeSet.java:1482-1522 | removing a leaf child leaves the parent without that child, with its value and other side unchanged |
| NodeOps.SetChildTree | eclipse-collections/src/main/java/org/eclipse/collections/impl/set/sorted/mutable/ScapegoatTreeSet.java:1065-1081 | `setLeftTree`/`setRightTree` of a simple node make that side hold exactly the subtree's elements |
| NodeOps.SetSubTree | eclipse-collections/src/main/java/org/eclipse/collections/impl/set/sorted/mutable/ScapegoatTreeSet.java:1388-1392 | `setSubTree` on a last-row position makes it hold exactly the new subtree's elements |
| NodeOps.SetChildSubTree | eclipse-collections/src/main/java/org/eclipse/collections/impl/set/sorted/mutable/ScapegoatTreeSet.java:1394-1409 | `setLeftSubTree`/`setRightSubTree` for a child in the last row make that side hold the subtree's elements, keeping the node's slot, value and other side |
| Queries.Size | eclipse-collections/src/main/java/org/eclipse/collections/impl/set/sorted/mutable/ScapegoatTreeSet.java:1524-1527 | `size()` of a node is its number of elements |
| Queries.ToList | eclipse-collections/src/main/java/org/eclipse/collections/impl/set/sorted/mutable/ScapegoatTreeSet.java:820-833 | the node's `toList` is its in-order sequence |
| Queries.Height | eclipse-collections/src/main/java/org/eclipse/collections/impl/set/sorted/mutable/ScapegoatTreeSet.java:1638-1645 | a node's height is at least 1 and at most its size, and its size is below `2^height` |
| Traversal.ForEach | eclipse-collections/src/main/java/org/eclipse/collections/impl/set/sorted/mutable/ScapegoatTreeSet.java:1084-1097 | `forEach` of a simple node visits exactly its elements in ascending order |
| Traversal.TableForEachAsWritten | eclipse-collections/src/main/java/org/eclipse/collections/impl/set/sorted/mutable/ScapegoatTreeSet.java:1591-1628 | `forEach(procedure, position)` as written: a value leaf visits just its value, and a nested node at the visited slot is handed over as one object rather than walked |
| Traversal.TableWalksAgree | eclipse-collections/src/main/java/org/eclipse/collections/impl/set/sorted/mutable/ScapegoatTreeSet.java:1591-1628 | on a well-formed table, from every slot holding a value, the walk as written visits exactly the elements the corrected walk gives, in the same order |
| Traversal.WalkAsWrittenOnWellFormed | eclipse-collections/src/main/java/org/eclipse/collections/impl/set/sorted/mutable/ScapegoatTreeSet.java:1584-1628 | `forEach` of a well-formed table node, as written, hands the procedure exactly the node's elements in ascending order |
| Traversal.TableForEach | eclipse-collections/src/main/java/org/eclipse/collections/impl/set/sorted/mutable/ScapegoatTreeSet.java:1585-1628 | `forEach` from a table position holding a value (the walk asserts it never stands on a nested node or an empty slot) visits exactly the elements of that subtree in order, descending into nested nodes |
| Removal.RemoveExtreme | eclipse-collections/src/main/java/org/eclipse/collections/impl/set/sorted/mutable/ScapegoatTreeSet.java:1647-1754 | `removeGreatest`/`removeLeast` on a child, for the table node through `removeExtremeValue` and the `removeForInsert*` helpers (and likewise for the simple node at lines 1108-1160), take out and return the last/first element of the child's subtree; the parent's value and other side are untouched |
| Rebalancing.ConstructTree | eclipse-collections/src/main/java/org/eclipse/collections/impl/set/sorted/mutable/ScapegoatTreeSet.java:470-488 | `constructTree(values, start, end)` builds nothing for an empty segment, otherwise a simple-node tree whose in-order sequence is the segment and whose subtrees differ in size by at most one at every node |
| Rebalancing.ConstructTreeSized | eclipse-collections/src/main/java/org/eclipse/collections/impl/set/sorted/mutable/ScapegoatTreeSet.java:395-404 | `constructTree(values, size)` holds exactly the values; it is simple below the compact threshold and a table at or above it |
| Rebalancing.Populate | eclipse-collections/src/main/java/org/eclipse/collections/impl/set/sorted/mutable/ScapegoatTreeSet.java:406-468 | `populateLeft/RightWithoutRebalance` make the given side of the node hold exactly the segment, keeping the node's value and other side |
| Rebalancing.PopulateSplit | eclipse-collections/src/main/java/org/eclipse/collections/impl/set/sorted/mutable/ScapegoatTreeSet.java:421-435 | the recursive case: the midpoint value becomes the child and the two halves are populated below it |
| Rebalancing.PopulateSubTree | eclipse-collections/src/main/java/org/eclipse/collections/impl/set/sorted/mutable/ScapegoatTreeSet.java:424-429 | a child in the table's last row receives a freshly constructed subtree holding the segment |
| Thresholds.WrapAdd | eclipse-collections/src/main/java/org/eclipse/collections/impl/set/sorted/mutable/ScapegoatTreeSet.java:302 | Java `int` addition: the result is an `int` congruent to the sum modulo 2^32 and equal to it without overflow |
| Thresholds.Saturate | eclipse-collections/src/main/java/org/eclipse/collections/impl/set/sorted/mutable/ScapegoatTreeSet.java:128-132 | the `(int)` cast of a `double`: values in range are kept, larger ones become `Integer.MAX_VALUE`, smaller ones `Integer.MIN_VALUE` |
| Thresholds.Power | eclipse-collections/src/main/java/org/eclipse/collections/impl/set/sorted/mutable/ScapegoatTreeSet.java:107-126 | `power` rejects a negative exponent and otherwise returns exactly `base^exponent` (square-and-multiply) |
| Thresholds.MinSizeForDepth | eclipse-collections/src/main/java/org/eclipse/collections/impl/set/sorted/mutable/ScapegoatTreeSet.java:128-132 | `minSizeForDepth` computes the ceiling of `(1/balanceRatio)^(maxDepth-1)`, cast to `int`, and fails where `power` rejects the exponent |
| Thresholds.MinSizeIsLeastReaching | eclipse-collections/src/main/java/org/eclipse/collections/impl/set/sorted/mutable/ScapegoatTreeSet.java:128-132 | `minSizeForDepth` fails exactly for depths 0 and below (except `Integer.MIN_VALUE`, whose decrement wraps); for depth ≥ 1 it is the least integer reaching `(1/balanceRatio)^(depth-1)` |
| Thresholds.MinSizeMonotone | eclipse-collections/src/main/java/org/eclipse/collections/impl/set/sorted/mutable/ScapegoatTreeSet.java:128-132 | a deeper allowed depth never needs fewer elements |
| Thresholds.MinSizeExamples | unit-tests/src/test/java/org/eclipse/collections/impl/set/sorted/mutable/ScapegoatTreeSetTest.java:102-122 | every value the unit test expects for the ratios 0.5 and 1.0 (depths 1-5 and 10), and the failure for depth 0 |
| Thresholds.MinSizeExamplesTwoThirds | unit-tests/src/test/java/org/eclipse/collections/impl/set/sorted/mutable/ScapegoatTreeSetTest.java:110-117 | every value the unit test expects for the ratio 0.66: 1, 2, 3, 4, 6, 43, 2684 and 171091 for depths 1-5, 10, 20 and 30; the `float` 0.66 gives the same ceilings |
| Thresholds.MaxDepthUsingLog | eclipse-collections/src/main/java/org/eclipse/collections/impl/set/sorted/mutable/ScapegoatTreeSet.java:313-321 | for `n ≥ 1` elements the depth bound is `floor(log_{1/ratio} n) + 1`; `Integer.MIN_VALUE` for none |
| Thresholds.FullRebalanceSize | eclipse-collections/src/main/java/org/eclipse/collections/impl/set/sorted/mutable/ScapegoatTreeSet.java:634-640 | the next full-rebalance size is the ceiling of `nodeCount / fullRebalanceRatioAdd`, cast to `int` |
| Scapegoats.GetSibling | eclipse-collections/src/main/java/org/eclipse/collections/impl/set/sorted/mutable/ScapegoatTreeSet.java:134-143 | the sibling is the parent's other child, absent exactly when the parent has none |
| Scapegoats.CheckFrame | eclipse-collections/src/main/java/org/eclipse/collections/impl/set/sorted/mutable/ScapegoatTreeSet.java:505-531 | one step of the climb computes the ancestor's size from its child's and its sibling's, and its verdict is exactly the weight-balance test of that ancestor |
| Scapegoats.FindScapegoat | eclipse-collections/src/main/java/org/eclipse/collections/impl/set/sorted/mutable/ScapegoatTreeSet.java:491-538 | `findScapegoat` returns the scapegoat chosen from the first run of unbalanced ancestors above the new leaf, with its subtree size; no result means no ancestor is unbalanced |
| Scapegoats.BalancedWalkIsFull | eclipse-collections/src/main/java/org/eclipse/collections/impl/set/sorted/mutable/ScapegoatTreeSet.java:500-504 | if no ancestor on a walk of depth `d` is unbalanced, the tree holds at least `minSizeForDepth(d)` elements, so rebalancing below `minSize` always finds a scapegoat |
| Scapegoats.RebuildScapegoat | eclipse-collections/src/main/java/org/eclipse/collections/impl/set/sorted/mutable/ScapegoatTreeSet.java:354-393 | rebuilding the scapegoat's subtree from its sorted values leaves the whole tree's elements as they were |
| Search.Search | eclipse-collections/src/main/java/org/eclipse/collections/impl/set/sorted/mutable/ScapegoatTreeSet.java:244-284 | the comparison walk from the root stops at `v` exactly when `v` is in the tree; otherwise at a node with no child on `v`'s side |
| Search.InsertShape | eclipse-collections/src/main/java/org/eclipse/collections/impl/set/sorted/mutable/ScapegoatTreeSet.java:252-273 | adding `v` as the missing child where the walk stopped puts `v` next to that node's elements in the in-order sequence |
| Search.UniqueWalk | eclipse-collections/src/main/java/org/eclipse/collections/impl/set/sorted/mutable/ScapegoatTreeSet.java:246-284 | there is only one comparison walk from a root to `v` |
| Search.RemoveFound | eclipse-collections/src/main/java/org/eclipse/collections/impl/set/sorted/mutable/ScapegoatTreeSet.java:588-611 | `remove(node, parent)` leaves an ordered tree with exactly the other elements, one fewer, or no tree when the node was the only element |
| TreeSets.BuildRoot | eclipse-collections/src/main/java/org/eclipse/collections/impl/set/sorted/mutable/ScapegoatTreeSet.java:156-179 | a sorted list becomes no tree when empty, one simple node for one value, a table otherwise, holding exactly the list |
| TreeSets.PackSorted | eclipse-collections/src/main/java/org/eclipse/collections/impl/set/sorted/mutable/ScapegoatTreeSet.java:170-179 | two or more sorted values are packed into one well-formed table holding exactly them |
| TreeSets.First | eclipse-collections/src/main/java/org/eclipse/collections/impl/set/sorted/mutable/ScapegoatTreeSet.java:687-692 | following left children ends at the least element |
| TreeSets.Last | eclipse-collections/src/main/java/org/eclipse/collections/impl/set/sorted/mutable/ScapegoatTreeSet.java:702-707 | following right children ends at the greatest element |
| TreeSets.InsertValue | eclipse-collections/src/main/java/org/eclipse/collections/impl/set/sorted/mutable/ScapegoatTreeSet.java:244-284 | inserting into a non-empty tree adds `v` exactly when absent, keeps the tree ordered and leaves it untouched when present; it reports the new leaf's depth and walk |
| TreeSets.RemoveValue | eclipse-collections/src/main/java/org/eclipse/collections/impl/set/sorted/mutable/ScapegoatTreeSet.java:541-578 | removing from a non-empty tree takes `v` out exactly when present and leaves the tree untouched otherwise |
| TreeSets.ScapegoatTreeSet.constructor | eclipse-collections/src/main/java/org/eclipse/collections/impl/set/sorted/mutable/ScapegoatTreeSet.java:86-103 | a new set is empty, keeps its three ratios, starts at depth bound 4 with its `minSize`, and a full-rebalance size of 0 |
| TreeSets.ScapegoatTreeSet.Create | eclipse-collections/src/main/java/org/eclipse/collections/impl/set/sorted/mutable/ScapegoatTreeSet.java:86-103 | the constructor rejects, with `IllegalArgumentException`, exactly the ratios it does not accept |
| TreeSets.ScapegoatTreeSet.Default | eclipse-collections/src/main/java/org/eclipse/collections/impl/set/sorted/mutable/ScapegoatTreeSet.java:81-84 | the default set is empty with ratios 0.66, 0.66 and 0.5 |
| TreeSets.ScapegoatTreeSet.BuildFromSortedList | eclipse-collections/src/main/java/org/eclipse/collections/impl/set/sorted/mutable/ScapegoatTreeSet.java:156-168 | a set built from a sorted list holds exactly that list and has a root exactly when it is not empty |
| TreeSets.ScapegoatTreeSet.Contains | eclipse-collections/src/main/java/org/eclipse/collections/impl/set/sorted/mutable/ScapegoatTreeSet.java:643-651 | `contains(v)` holds exactly when `v` is an element |
| TreeSets.ScapegoatTreeSet.Size | eclipse-collections/src/main/java/org/eclipse/collections/impl/set/sorted/mutable/ScapegoatTreeSet.java:653-656 | `size()` is the number of elements |
| TreeSets.ScapegoatTreeSet.IsEmpty | eclipse-collections/src/main/java/org/eclipse/collections/impl/set/sorted/mutable/ScapegoatTreeSet.java:659-662 | `isEmpty()` holds exactly when there are no elements |
| TreeSets.ScapegoatTreeSet.ToList | eclipse-collections/src/main/java/org/eclipse/collections/impl/set/sorted/mutable/ScapegoatTreeSet.java:746-756 | `toList()` is the contents, strictly ascending, of length `size()` |
| TreeSets.ScapegoatTreeSet.Height | eclipse-collections/src/main/java/org/eclipse/collections/impl/set/sorted/mutable/ScapegoatTreeSet.java:736-743 | `height()` is 0 exactly for the empty set and otherwise between `log2(size)` and `size` |
| TreeSets.ScapegoatTreeSet.AnySatisfy | eclipse-collections/src/main/java/org/eclipse/collections/impl/set/sorted/mutable/ScapegoatTreeSet.java:2081-2090 | `anySatisfy` holds exactly when some element is accepted |
| TreeSets.ScapegoatTreeSet.AllSatisfy | eclipse-collections/src/main/java/org/eclipse/collections/impl/set/sorted/mutable/ScapegoatTreeSet.java:2092-2101 | `allSatisfy` holds exactly when every element is accepted |
| TreeSets.ScapegoatTreeSet.NoneSatisfy | eclipse-collections/src/main/java/org/eclipse/collections/impl/set/sorted/mutable/ScapegoatTreeSet.java:2103-2112 | `noneSatisfy` holds exactly when no element is accepted |
| TreeSets.ScapegoatTreeSet.Detect | eclipse-collections/src/main/java/org/eclipse/collections/impl/set/sorted/mutable/ScapegoatTreeSet.java:2070-2079 | `detect` returns the least accepted element, and nothing exactly when none is accepted |
| TreeSets.ScapegoatTreeSet.GetFirst | eclipse-collections/src/main/java/org/eclipse/collections/impl/set/sorted/mutable/ScapegoatTreeSet.java:681-694 | `getFirst()` is the least element, and `NoSuchElementException` exactly for the empty set |
| TreeSets.ScapegoatTreeSet.GetLast | eclipse-collections/src/main/java/org/eclipse/collections/impl/set/sorted/mutable/ScapegoatTreeSet.java:696-708 | `getLast()` is the greatest element, and `NoSuchElementException` exactly for the empty set |
| TreeSets.ScapegoatTreeSet.Add | eclipse-collections/src/main/java/org/eclipse/collections/impl/set/sorted/mutable/ScapegoatTreeSet.java:228-285 | `add(v)` returns true exactly when `v` was absent; then the set is the old one plus `v` and one larger; otherwise nothing changes, counters included; the set stays valid |
| TreeSets.ScapegoatTreeSet.CheckRebalance | eclipse-collections/src/main/java/org/eclipse/collections/impl/set/sorted/mutable/ScapegoatTreeSet.java:287-311 | the depth check after an insert (scapegoat rebuild, depth-bound increase or full rebuild) never changes the contents and keeps the set valid |
| TreeSets.ScapegoatTreeSet.Rebalance | eclipse-collections/src/main/java/org/eclipse/collections/impl/set/sorted/mutable/ScapegoatTreeSet.java:323-352 | rebuilding around the scapegoat of the new leaf's walk keeps the contents and validity |
| TreeSets.ScapegoatTreeSet.RebalanceNode | eclipse-collections/src/main/java/org/eclipse/collections/impl/set/sorted/mutable/ScapegoatTreeSet.java:354-393 | rebuilding the scapegoat (the root, a table position or a linked node) keeps the contents and validity |
| TreeSets.ScapegoatTreeSet.Remove | eclipse-collections/src/main/java/org/eclipse/collections/impl/set/sorted/mutable/ScapegoatTreeSet.java:541-578 | `remove(v)` returns true exactly when `v` was present; then the set is the old one without `v` and one smaller; otherwise nothing changes; the set stays valid |
| TreeSets.ScapegoatTreeSet.CheckShrink | eclipse-collections/src/main/java/org/eclipse/collections/impl/set/sorted/mutable/ScapegoatTreeSet.java:613-618 | the shrink check after a removal keeps the contents and validity |
| TreeSets.ScapegoatTreeSet.Clear | eclipse-collections/src/main/java/org/eclipse/collections/impl/set/sorted/mutable/ScapegoatTreeSet.java:581-586 | `clear()` empties the set and resets the thresholds for zero elements |
| TreeSets.ScapegoatTreeSet.RebalanceRoot | eclipse-collections/src/main/java/org/eclipse/collections/impl/set/sorted/mutable/ScapegoatTreeSet.java:621-632 | the full rebuild keeps the contents; two or more elements end up in one table |
| TreeSets.ScapegoatTreeSet.ResetThresholds | eclipse-collections/src/main/java/org/eclipse/collections/impl/set/sorted/mutable/ScapegoatTreeSet.java:634-640 | the thresholds are recomputed from `nodeCount` and the tree is untouched |
| TreeSets.ScapegoatTreeSet.Compact | eclipse-collections/src/main/java/org/eclipse/collections/impl/set/sorted/mutable/ScapegoatTreeSet.java:786-794 | `compact()` keeps the contents and packs two or more elements into one table |
| Satisfy.AnySatisfy | eclipse-collections/src/main/java/org/eclipse/collections/impl/set/sorted/mutable/ScapegoatTreeSet.java:932-943 | a node's `anySatisfy` holds exactly when some element below it is accepted |
| Satisfy.AllSatisfy | eclipse-collections/src/main/java/org/eclipse/collections/impl/set/sorted/mutable/ScapegoatTreeSet.java:945-956 | a node's `allSatisfy` holds exactly when every element below it is accepted |
| Satisfy.NoneSatisfy | eclipse-collections/src/main/java/org/eclipse/collections/impl/set/sorted/mutable/ScapegoatTreeSet.java:958-969 | a node's `noneSatisfy` holds exactly when no element below it is accepted |
| Satisfy.Detect | eclipse-collections/src/main/java/org/eclipse/collections/impl/set/sorted/mutable/ScapegoatTreeSet.java:971-994 | a node's `detect` is the first accepted element of its in-order sequence |
| Satisfy.FirstSatisfyingSpec | eclipse-collections/src/main/java/org/eclipse/collections/impl/set/sorted/mutable/ScapegoatTreeSet.java:971-994 | the first accepted element is absent exactly when nothing is accepted, and every element before it is rejected |
| Iteration.PushLeftmost | eclipse-collections/src/main/java/org/eclipse/collections/impl/set/sorted/mutable/ScapegoatTreeSet.java:2243-2248 | pushing left children ends at a node with no left child, from which the upcoming elements are the subtree's followed by what came after it |
| Iteration.ScapegoatTreeSetIterator.constructor | eclipse-collections/src/main/java/org/eclipse/collections/impl/set/sorted/mutable/ScapegoatTreeSet.java:2236-2248 | a fresh iterator has returned nothing and has the whole contents ahead of it |
| Iteration.ScapegoatTreeSetIterator.HasNext | eclipse-collections/src/main/java/org/eclipse/collections/impl/set/sorted/mutable/ScapegoatTreeSet.java:2252-2255 | `hasNext()` holds exactly while elements remain |
| Iteration.ScapegoatTreeSetIterator.Next | eclipse-collections/src/main/java/org/eclipse/collections/impl/set/sorted/mutable/ScapegoatTreeSet.java:2257-2293 | `next()` returns the next element in ascending order and removes it from what remains, so after `size()` calls nothing remains; an exhausted iterator raises `NoSuchElementException` |
| Iteration.Advance | eclipse-collections/src/main/java/org/eclipse/collections/impl/set/sorted/mutable/ScapegoatTreeSet.java:2266-2290 | moving past the current node leaves exactly the rest of the in-order sequence ahead |
| Iteration.Climb | eclipse-collections/src/main/java/org/eclipse/collections/impl/set/sorted/mutable/ScapegoatTreeSet.java:2279-2289 | popping ancestors stops at the first one reached from its left child, or empties the stack when none is |
| Iteration.CameFromLeft | eclipse-collections/src/main/java/org/eclipse/collections/impl/set/sorted/mutable/ScapegoatTreeSet.java:2281-2284 | in an ordered tree, "the popped parent's left child equals the old node" holds exactly when the walk came down its left side |
| Findings.BuildRootAsWritten | eclipse-collections/src/main/java/org/eclipse/collections/impl/set/sorted/mutable/ScapegoatTreeSet.java:156-179 | `buildFromSortedList` as written: always a table, one empty slot for no values and one value slot for one value |
| Findings.EmptyListAsWritten | eclipse-collections/src/main/java/org/eclipse/collections/impl/set/sorted/mutable/ScapegoatTreeSet.java:170-179 | the root built from the empty list holds no element yet is present |
| Findings.SingletonAddCompactAsWritten | eclipse-collections/src/main/java/org/eclipse/collections/impl/set/sorted/mutable/ScapegoatTreeSet.java:1585-1628 | after a one-element build, `add(y)` (`setRightValue`) turns the single slot into a nested node; neither table is one the table node's constructor admits, and the table's `forEach` hands the builder that node object instead of the two elements |

## Left out

- Elements are `int` compared with `<`. The comparator, `null` elements (`add(null)` throws `NullPointerException`) and `Object` arguments of `contains`/`remove` are not modelled.
- Floating-point rounding: `balanceRatio` and the other ratios, `StrictMath.log` and the `ceil`/`power` arithmetic are exact reals. `double` rounding error, which could move a threshold by one, is not captured.
- Aliasing and in-place mutation: nodes are values and a node change is returned and hung back under its ancestors. Sharing of one `Object[]` by several table views, and Java reference identity, are not captured. The identity tests (`hasLeftChildEqualTo`, `getSibling`'s comparison, `== root`) are modelled by the walk's recorded direction.
- `rebalance`'s `IllegalArgumentException` for an inconsistent comparator, and Java `assert` statements, are left out. The model proves the asserted facts where they matter; `BalancedWalkIsFull` proves that a scapegoat always exists.
- `removeIf`/`removeIfWith` (`Node.removeIf`) is not modelled. It deletes during a recursive traversal.
- Serialization (`writeExternal`/`readExternal`) is object-stream I/O and is left out.
- `prettyPrint`/`printTree` write to an `Appendable` and are left out.
- `equals`, `hashCode`, `partition*`, `injectIntoWith`, `forEach(from, to)`, `numberOfSimpleNodes`, `getSuffix` and `toString` are left out. These either delegate to library classes or only serve printing and tests.
- The methods that only throw `UnsupportedOperationException` (`with`, `subSet`, `first`, …) and the iterator's inherited `remove()` are left out.
- TreeSets.ScapegoatTreeSet.BuildFromSortedList: requires a strictly ascending list. The source trusts its callers for this and does not check it.
- TreeSets.ScapegoatTreeSet.constructor: requires accepted ratios. `Create` models the `IllegalArgumentException` for the others.
- TreeSets.ScapegoatTreeSet.CheckRebalance: states that the contents are kept and the set stays valid; it does not restate the threshold bookkeeping, which the method body follows line by line.
- Traversal.TableForEachAsWritten: defined only for tables whose nested nodes sit in the last row, the only place `setLeftValue`/`setRightValue` put them. Its own ensures covers the leaf and nested-node positions; `TableWalksAgree` covers every value position of a well-formed table.
- The element counters `nodeCount` and `maxNodeCount` are unbounded integers. The Java `int` fields would wrap around past `Integer.MAX_VALUE` elements (ScapegoatTreeSet.java increments them at lines 259-260 and 274-275 and decrements at 613); a set that large is out of the model's scope.

## Findings

| source | as written | input that shows it | evidently intended | confidence | as-written member | corrected member |
|---|---|---|---|---|---|---|
| eclipse-collections/src/main/java/org/eclipse/collections/impl/set/sorted/mutable/ScapegoatTreeSet.java:156-179 | an empty list becomes a table node over one empty slot, so the root is not null | `buildFromSortedList` of an empty list: `isEmpty()` answers false while `size()` is 0 | no root for an empty list, as `clear()` leaves it | not executed | Findings.EmptyListAsWritten | TreeSets.BuildRoot |
| eclipse-collections/src/main/java/org/eclipse/collections/impl/set/sorted/mutable/ScapegoatTreeSet.java:170-179 | one value becomes a table of a single slot, which the table node's constructor assumes never happens | `buildFromSortedList([1])`, `add(2)`, `compact()`: slot 0 becomes a nested node, the table walk hands that node object to the builder, and afterwards `contains(1)` is false | one value becomes a simple node, as `rebalanceRoot` does for one element | not executed | Findings.SingletonAddCompactAsWritten | TreeSets.BuildRoot |
