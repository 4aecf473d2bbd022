# Skip list, binary search tree and non-adjacent sums in Dafny

This project models the four pieces of a small Java data-structures repository and proves what each one promises.

- **The probabilistic skip list** (`ProbLinkedList.java`, with its `Node` class). The list is a head node plus data nodes. Each node has a height and one forward reference per level. Levels are ordered by value, and every level above 0 is a subset of the one below.
  - `insert` finds the predecessors of the new node on each level top down. It records them in `redDot`, links the node in, and grows the list by one level when `getMaxHeight(size)` exceeds the current height.
  - `delete` unlinks the node from every level and trims the list when its size calls for fewer levels.
  - `contains` and `get` use the same top-down descent.
- **The unbalanced binary search tree** (`GenericBST.java`): insert without duplicates, recursive search, in-order/pre-order/post-order traversal, and delete. A node with two children takes the largest key of its left subtree.
- **`RunLikeHell.maxGain` and `NonConsecutiveSum.maxSum`**: the same dynamic program. It returns the largest sum of array elements when no two neighbours may both be taken.

Files and modules:

| file | module | what it holds |
|---|---|---|
| `skip_node.dfy` | `SkipNode` | the node as a value: `next`, `setNext`, `grow`, `maybeGrow`, `trim` and the two constructors |
| `skip_height.dfy` | `SkipHeight` | `getMaxHeight`, Java's 32-bit `int` subtraction, `generateRandomHeight`, and the height invariant `HeightFits` |
| `skip_levels.dfy` | `SkipLevels` | the abstract view: a list is a sorted sequence of `Entry(value, height)`, and level `l` is the values of the entries taller than `l` |
| `skip_arena.dfy` | `SkipArena` | the link structure over an arena of nodes, and the splice lemmas |
| `skip_list.dfy` | `ProbLinkedList` | the descents, splice loops, grow and trim walks, and `class SkipList` |
| `generic_bst.dfy` | `GenericBST` | `datatype Tree`, its recursive operations, and `class BST` holding the root |
| `non_adjacent_sum.dfy` | `NonAdjacentSum` | the specification shared by the two dynamic programs |
| `run_like_hell.dfy`, `non_consecutive_sum.dfy` | `RunLikeHell`, `NonConsecutiveSum` | the two array methods |

**How the skip list is represented.**
- The nodes live in an arena `nodes: seq<Node>`. Index 0 is the head, and a reference is `Link` (`Nil` or `To(index)`).
- A ghost sequence `elems` lists the arena indices of the data nodes in level-0 order.
- `Wf` is the well-formedness predicate. It states, among other things, that every link at level `l` of every node leads to the next data node taller than `l`. So the level lists of `SkipLevels` are exactly the lists a reader gets by following links.
- Every list operation is proved against what it does to `EntriesOf(nodes, elems)`:
  - `Placed` for insert, `Erased` for delete;
  - `Grown` for `growSkipList`, `Trimmed` for `trimSkipList`.
- Every effect on a level follows from these: insert puts the value in order (`PlaceInOrder`) below the new node's height, and delete removes it (`Without`).

The state-changing methods follow the Java loops: the top-down descent, the two `redDot` splice loops of insert, the splice loop of delete, and the walks of grow and trim. Each loop carries its invariant, and each long loop body is its own method.

When `trimSkipList` (`ProbLinkedList.java:259-262`) is called, a manually created list taller than `getMaxHeight(size)` snaps to that height, and every other list loses one level. The model follows this branch order.

The public class in `ProbLinkedList.java` is named `ProbLinkedList`, but its constructors are written `SkipList()` and `SkipList(int)`. The model names the class `SkipList` and treats both as its constructors.

## Model

| member | source | states |
|---|---|---|
| SkipNode.Node.Next | ProbLinkedList.java:58-65 | `next(level)` is null outside `[0, height)` and the stored reference inside |
| SkipNode.Node.SetNext | ProbLinkedList.java:68-75 | `setNext` changes exactly the link at that level, only inside `[0, height)`, and keeps the height and data |
| SkipNode.Node.Grow | ProbLinkedList.java:79-83 | `grow()` adds one level whose reference is null and keeps the others |
| SkipNode.Node.MaybeGrow | ProbLinkedList.java:87-98 | when the coin comes up the node gains one null level; otherwise it is unchanged |
| SkipNode.Node.Cut | ProbLinkedList.java:101-113 | the node cut to `height` levels; unchanged unless `0 <= height < its height` |
| SkipNode.NewHead | ProbLinkedList.java:16-29 | `Node(height)` is a head with `height` null references (none for a negative height) |
| SkipNode.NewNode | ProbLinkedList.java:32-43 | `Node(data, height)` holds data and has `height` null references |
| SkipNode.Trim | ProbLinkedList.java:101-113 | the loop removing top links one at a time yields exactly `Cut(height)` |
| SkipNode.NextAfterSetNext | ProbLinkedList.java:58-75 | reading a level back after `setNext` gives the new link there and the old link elsewhere |
| SkipNode.SetNextSame | ProbLinkedList.java:469-470 | setting a link to the target it already has leaves the node unchanged, which is the case for the head link `insert` sets in an empty list |
| SkipNode.GrowUpNext | ProbLinkedList.java:236-237 | after growing, `next(height - 2)` of a node is its old top link, which the grow walk follows |
| SkipHeight.CeilLog2 | ProbLinkedList.java:170-177 | the least `k` with `n <= 2^k` |
| SkipHeight.GetMaxHeight | ProbLinkedList.java:170-177 | 1 for one node, `ceil(log2 n)` for more, `Integer.MIN_VALUE` for 0 and 0 for negative sizes |
| SkipHeight.GetMaxHeightMonotone | ProbLinkedList.java:170-177 | a larger list never asks for a lower height, and the height is at least 1 |
| SkipHeight.GetMaxHeightAtMostSize | ProbLinkedList.java:170-177 | the height asked for never exceeds the number of nodes |
| SkipHeight.ExpectedHeightStep | ProbLinkedList.java:473-481 | one more node raises the expected height by at most one level and never lowers it |
| SkipHeight.Sub32 | ProbLinkedList.java:480 | Java `int` subtraction: the difference wrapped into 32 bits, exact when it fits |
| SkipHeight.EmptiedListIsNotShrunk | ProbLinkedList.java:554-562 | emptying the list makes `getMaxHeight(0) - oldMaxHeight` overflow to a positive value, so `trimSkipList` is not called |
| SkipHeight.InsertedHeight | ProbLinkedList.java:473-481 | after an insert the grow test asks for exactly one more level when the height no longer fits, and the height then fits again |
| SkipHeight.ShrinkTest | ProbLinkedList.java:554-562 | the trim test holds exactly when the list stays non-empty and is taller than its new size calls for |
| SkipHeight.DeletedHeight | ProbLinkedList.java:251-262 | the height `trimSkipList` chooses, or the old height when trim is not called, fits the new size |
| SkipHeight.HeightFrom | ProbLinkedList.java:180-194 | the drawn height is at least 1, at most maxHeight, every draw under it came up, and the draw at it did not unless maxHeight stopped it |
| SkipHeight.GenerateRandomHeight | ProbLinkedList.java:180-194 | the loop returns `HeightFrom(maxHeight, draw, 1)`: between 1 and maxHeight, stopped by the first failed draw or by maxHeight |
| SkipLevels.Position | ProbLinkedList.java:427-443 | the number of entries below x: every entry before it is below x, every entry from it on is not |
| SkipLevels.Grown | ProbLinkedList.java:218-243 | growing keeps every value and raises by one exactly the entries at the old top height whose coin comes up |
| SkipLevels.Trimmed | ProbLinkedList.java:264-283 | trimming keeps every value and cuts every height to at most h |
| SkipLevels.LevelMembers | ProbLinkedList.java:7-13 | a value is on level l exactly when its node is taller than l |
| SkipLevels.LevelIncreasing | ProbLinkedList.java:408-446 | every level of a sorted list is strictly increasing, which the descent relies on |
| SkipLevels.LevelAboveIsSubsequence | ProbLinkedList.java:452-466 | level l + 1 is a subsequence of level l |
| SkipLevels.LevelZero | ProbLinkedList.java:152-155 | level 0 lists every node, so the size is its length |
| SkipLevels.LevelEmpty | ProbLinkedList.java:158-161 | no level at or above the list's height holds anything |
| SkipLevels.PlaceInOrderIncreasing | ProbLinkedList.java:389-484 | inserting a new value into an increasing level keeps it increasing |
| SkipLevels.InsertLevels | ProbLinkedList.java:452-466 | inserting x of height h puts x in order into each level below h and leaves the levels above unchanged |
| SkipLevels.InsertSorted | ProbLinkedList.java:408-466 | inserting x at its position keeps the entries sorted |
| SkipLevels.RemoveLevels | ProbLinkedList.java:547-551 | unlinking the entry at p removes its value from every level and keeps the rest in order |
| SkipLevels.RemoveSorted | ProbLinkedList.java:547-551 | removing an entry keeps the entries sorted |
| SkipLevels.GrowLevels | ProbLinkedList.java:199-247 | growing keeps every level up to the old top, and the new top level is a subsequence of the old top level |
| SkipLevels.TrimLevels | ProbLinkedList.java:251-283 | trimming to h keeps the levels below h and empties the others |
| SkipArena.EntriesOf | ProbLinkedList.java:7-13 | the data nodes in level-0 order, with their values and heights |
| SkipArena.SuccPos | ProbLinkedList.java:58-65 | the first position from `from` on that reaches level l, which is where a level-l link leads |
| SkipArena.PredSlot | ProbLinkedList.java:408-446 | the last slot before position p that reaches level l, where the descent drops from level l |
| SkipArena.PredLink | ProbLinkedList.java:408-446 | the link of the slot where the descent drops from level l leads to the successor of p on that level |
| SkipArena.InsertWf | ProbLinkedList.java:449-466 | after both splice loops the list is well formed and its entries are the old ones with `(x, h)` at x's position |
| SkipArena.DeleteWf | ProbLinkedList.java:544-551 | after the delete splice the list is well formed and has lost exactly the entry at p |
| SkipArena.GrowEnd | ProbLinkedList.java:199-247 | at the end of the grow walk the list is well formed, one level taller, with the grown entries |
| SkipArena.TrimEnd | ProbLinkedList.java:264-283 | at the end of the trim walk the list is well formed at the new height, with the trimmed entries |
| ProbLinkedList.DescentLink | ProbLinkedList.java:410-444 | at slot s on level i the descent reads the link to the next node that reaches level i |
| ProbLinkedList.DescentAbsent | ProbLinkedList.java:598-602 | a descent that drops off level 0 before a value above x shows that x is not in the list |
| ProbLinkedList.WalkLevel | ProbLinkedList.java:410-445 | the inner loop stops at the last node below x on level i and returns its link on that level |
| ProbLinkedList.InsertDescent | ProbLinkedList.java:404-446 | `redDot` lists, top down, the predecessor of x's position on each level below the new node's height |
| ProbLinkedList.LinkLevel | ProbLinkedList.java:452-456 | one round of the first splice loop gives level j of the new node the link to its successor |
| ProbLinkedList.LinkNewNode | ProbLinkedList.java:449-456 | every level of the new node links to the successor of its position on that level |
| ProbLinkedList.SpliceLevel | ProbLinkedList.java:462-466 | one round of the second splice loop points one predecessor at the new node |
| ProbLinkedList.SpliceNewNode | ProbLinkedList.java:459-466 | every recorded predecessor points at the new node on its level, and nothing else changes |
| ProbLinkedList.DeleteDescent | ProbLinkedList.java:503-541 | `redDot` lists, top down, the predecessor of the doomed node on each of its levels |
| ProbLinkedList.SpliceOut | ProbLinkedList.java:544-551 | each predecessor takes over the doomed node's link on its level, and nothing else changes |
| ProbLinkedList.ErasedAbsent | ProbLinkedList.java:490-491 | deleting a value the list does not hold changes nothing |
| ProbLinkedList.ErasedAt | ProbLinkedList.java:494 | deleting the value of the entry at p removes exactly that entry |
| ProbLinkedList.ErasedLevels | ProbLinkedList.java:487-565 | deletion takes x out of every level and leaves the rest in order |
| ProbLinkedList.GrowVisit | ProbLinkedList.java:220-242 | one step of the grow walk keeps the walk's invariant and advances along the old top level |
| ProbLinkedList.GrowBegin | ProbLinkedList.java:202-215 | after `head.grow()` the walk stands at the head with the head's old top link |
| ProbLinkedList.GrowWalk | ProbLinkedList.java:199-243 | the walk leaves a well-formed list one level taller whose entries are `Grown` by the coins |
| ProbLinkedList.TrimWalk | ProbLinkedList.java:264-283 | the walk cuts every node to the new height and leaves a well-formed list with the `Trimmed` entries |
| ProbLinkedList.InsertNode | ProbLinkedList.java:389-471 | the new node is linked in at its place: the entries become `Placed(es, data, height)` |
| ProbLinkedList.HeadLinkOfSingle | ProbLinkedList.java:469-470 | in a list of one node, `head.setNext(0, node)` changes nothing |
| ProbLinkedList.DeleteNode | ProbLinkedList.java:494-551 | the node at position p is unlinked from every level: the entries become `Removed(es, p)` |
| ProbLinkedList.GrowList | ProbLinkedList.java:199-247 | `growSkipList()` raises maxHeight by one, grows the entries, and keeps every level up to the old top |
| ProbLinkedList.TrimList | ProbLinkedList.java:251-283 | `trimSkipList()` snaps a manually created, too-tall list to `getMaxHeight(size)` and otherwise drops one level, keeping every level below the new height |
| ProbLinkedList.InsertList | ProbLinkedList.java:389-484 | insert: the size grows by one, the height grows exactly when `newMaxHeight - oldMaxHeight > 0`, the entries are placed (then grown), and level 0 gains data in order |
| ProbLinkedList.Shrink | ProbLinkedList.java:554-564 | the size drops by one, and the list is trimmed exactly when `newMaxHeight - oldMaxHeight < 0` (in 32-bit arithmetic) |
| ProbLinkedList.DeleteList | ProbLinkedList.java:494-565 | delete: the size drops by one, the height follows the trim test, the entries are erased (then trimmed), and level 0 loses data |
| ProbLinkedList.DeletedOf | ProbLinkedList.java:544-565 | unlinking the node and then shrinking is exactly the deletion `Deleted` describes |
| ProbLinkedList.Find | ProbLinkedList.java:568-603 | the descent answers a node exactly when data is on level 0, and the node it answers holds data |
| ProbLinkedList.WrittenInitialHeight | ProbLinkedList.java:140-148 | as written, `SkipList(int height)` stores the height asked for even when it is below 1 |
| ProbLinkedList.WrittenHeightBreaksFit | ProbLinkedList.java:142-147 | a stored height below 1 fits no list, while even the empty list needs height 1 |
| ProbLinkedList.InitialHeight | ProbLinkedList.java:142-144 | the intended height: the one asked for, or 1 when it is below 1, which always fits the empty list |
| ProbLinkedList.SkipList.constructor | ProbLinkedList.java:129-137 | `SkipList()` is an empty, automatically sized list of height 1 |
| ProbLinkedList.SkipList.WithHeight | ProbLinkedList.java:140-148 | `SkipList(int height)` is an empty, manually sized list of height `InitialHeight(height)` |
| ProbLinkedList.SkipList.Size | ProbLinkedList.java:152-155 | the size is the number of data nodes, which is the length of level 0 |
| ProbLinkedList.SkipList.Height | ProbLinkedList.java:158-161 | the height is the head's height, at least 1, and no level at or above it holds anything |
| ProbLinkedList.SkipList.HeadNode | ProbLinkedList.java:164-167 | the head is as tall as the list, and each of its links leads to the first node on that level |
| ProbLinkedList.SkipList.Contains | ProbLinkedList.java:568-603 | `contains(data)` is true exactly when data is in the list |
| ProbLinkedList.SkipList.Get | ProbLinkedList.java:606-639 | `get(data)` returns the node holding data when data is present, and null exactly when it is absent |
| ProbLinkedList.SkipList.InsertWithHeight | ProbLinkedList.java:389-484 | `insert(data, height)` leaves the fields `Inserted` describes, and the list valid |
| ProbLinkedList.SkipList.Insert | ProbLinkedList.java:286-386 | `insert(data)` is the same insertion at the height `generateRandomHeight` draws |
| ProbLinkedList.SkipList.Unlink | ProbLinkedList.java:494-565 | the rest of `delete` once `get` has found the node leaves the fields `Deleted` describes |
| ProbLinkedList.SkipList.Delete | ProbLinkedList.java:487-565 | `delete(data)` changes nothing when data is absent, and otherwise leaves the fields `Deleted` describes |
| GenericBST.Tree.Insert | GenericBST.java:42-71 | the keys gain x, the tree stays ordered, and inserting a present key changes nothing |
| GenericBST.Tree.Contains | GenericBST.java:156-182 | true only on a node holding x, and on an ordered tree exactly when x is a key |
| GenericBST.Tree.Max | GenericBST.java:139-148 | the rightmost key is a key and, in an ordered tree, the largest |
| GenericBST.Tree.Delete | GenericBST.java:83-134 | on an ordered tree the keys lose exactly x and the tree stays ordered; deleting an absent key changes nothing |
| GenericBST.DeleteTwoChildren | GenericBST.java:123-130 | a deleted node with two children is replaced by the largest key of its left subtree, the greatest key below it |
| GenericBST.InorderSortedKeys | GenericBST.java:192-203 | in-order lists the keys of an ordered tree in strictly increasing order |
| GenericBST.PreorderOnce | GenericBST.java:213-223 | pre-order lists every key exactly once, the root first |
| GenericBST.PostorderOnce | GenericBST.java:233-243 | post-order lists every key exactly once, the root last |
| GenericBST.Example | GenericBST.java:42-134 | the concrete tree 5, 3, 8, 1, 4 has in-order 1 3 4 5 8, and deleting 5 puts 4 at the root |
| GenericBST.BST.constructor | GenericBST.java:27-30 | a new tree is empty |
| GenericBST.BST.Insert | GenericBST.java:34-37 | `insert(data)` adds data to the keys and keeps the tree ordered |
| GenericBST.BST.Delete | GenericBST.java:75-78 | `delete(data)` removes data from the keys and keeps the tree ordered |
| GenericBST.BST.Contains | GenericBST.java:151-154 | `contains(data)` is true exactly when data is a key |
| GenericBST.BST.InorderTraversal | GenericBST.java:185-190 | the in-order traversal is the keys in ascending order |
| GenericBST.BST.PreorderTraversal | GenericBST.java:206-211 | the pre-order traversal lists every key once |
| GenericBST.BST.PostorderTraversal | GenericBST.java:226-231 | the post-order traversal lists every key once |
| GenericBST.FindMax | GenericBST.java:139-148 | the loop down the right children returns the largest key of a non-empty ordered tree |
| NonAdjacentSum.Max | RunLikeHell.java:36 | `Math.max`: at least both arguments and equal to one of them |
| NonAdjacentSum.DpStep | RunLikeHell.java:35-36 | from cell 3 on, a cell is its block plus the better of the cells two and three back |
| NonAdjacentSum.DpWitness | RunLikeHell.java:29-36 | every cell of the table is the sum of a non-adjacent set of blocks ending at that cell |
| NonAdjacentSum.AnswerWitness | RunLikeHell.java:13-40 | for blocks of any sign, the answer is the sum of some set of pairwise non-adjacent blocks |
| NonAdjacentSum.AnswerAchievable | RunLikeHell.java:13-40 | the answer is achievable by non-adjacent blocks |
| NonAdjacentSum.SumBoundedByDp | RunLikeHell.java:35-36 | on non-negative blocks, a non-adjacent set ending at i sums to at most cell i |
| NonAdjacentSum.AnswerDominates | RunLikeHell.java:38-39 | on non-negative blocks no set of non-adjacent blocks sums to more than the answer |
| NonAdjacentSum.Examples | RunLikeHell.java:20-39 | the concrete answers for 0, 1, 2, 3 and 5 blocks |
| RunLikeHell.MaxGain | RunLikeHell.java:13-40 | `maxGain` returns `Answer(blocks)`: the sum of some non-adjacent blocks, and on non-negative blocks the largest such sum |
| NonConsecutiveSum.MaxSum | NonConsecutiveSum.java:10-37 | `maxSum` returns `Answer(blocks)`, with the same two properties |

## Left out

- Generic element types: `Comparable<T>` and `AnyType extends Comparable` are modelled as `int` with its order.
- Randomness: `Math.random()` becomes parameters.
  - `draw(j)` is the j-th draw of `generateRandomHeight`.
  - `flip(a)` is the coin `maybeGrow` tosses during a grow for the node at arena index a. The coin of the node at level-0 position k is therefore `flip(elems[k])`, as `CoinsOf` states.
- `Math.log` floating point: `getMaxHeight` is modelled as an exact integer ceiling of log2. The `double` computation can differ from it where the quotient of the logarithms rounds near a power of two.
- Duplicate values in the skip list: `insert` requires data to be absent.
  - The Java code would link a second node next to the first.
  - The model's sorted-entries view has no place for it.
- ProbLinkedList.SkipList.InsertWithHeight: requires `1 <= height <= maxHeight` and `size < MAX_INT`. Overflow of `size++` is not modelled, and the Java code does not check the height. A taller node would have levels the head does not reach, and a node of height below 1 would be on no level.
- ProbLinkedList.SkipList.Insert: requires `size < MAX_INT`. Overflow of `size++` is not modelled.
- ProbLinkedList.SkipList.WithHeight: requires the height to be a Java `int`.
- `insert(data)` (`ProbLinkedList.java:286-386`) repeats the body of `insert(data, height)` after drawing a height. The model writes it as `GenerateRandomHeight` followed by the same insertion.
- `contains` and `get` (`ProbLinkedList.java:568-639`) perform the same descent, which the model writes once as `ProbLinkedList.Find`.
- The bodies of `insert`, `delete`, `growSkipList` and `trimSkipList` are split into one method per loop, each with its own contract.
- Aliasing of Java nodes: nodes live in an arena of values, and a node that `delete` unlinks stays in the arena unreachable. Only the nodes listed in `elems` matter.
- `Node.height`: the model stores it as the number of references. This is the case for every node the modelled constructors create. `SkipList(int)` as written, given a negative height, would create a head whose height field is negative and which has no references (`ProbLinkedList.java:147-148`).
- `manuallyCreated`: modelled as a constant field, since the code sets it only in the constructors.
- RunLikeHell.MaxGain: does not model 32-bit overflow of the sums. A sum of large blocks wraps in Java but not in the model.
- NonConsecutiveSum.MaxSum: does not model 32-bit overflow of the sums, for the same reason.
- RunLikeHell.MaxGain: the largest-sum property is proved for non-negative blocks only.
  - With negative blocks the table does not choose freely. It always takes the last block of a chain, and the cases of length 1 to 3 take a block.
  - The model then proves only that the answer is achievable.
- NonConsecutiveSum.MaxSum: the same restriction on the largest-sum property.
- Printing: the traversals of `GenericBST.java` print their keys. The model returns the sequence instead.
- `difficultyRating` and `hoursSpent` in every file are constants unrelated to the data structures.

## Findings

| source | as written | input that shows it | evidently intended | confidence | as-written member | corrected member |
|---|---|---|---|---|---|---|
| ProbLinkedList.java:140-148 | `SkipList(int height)` sets `maxHeight = 1` when `height < 1`, then overwrites it with `this.maxHeight = height` | `height = 0`: maxHeight 0 and a head with no levels, so even the empty list is below the height 1 it needs | a height below 1 is replaced by 1 | not executed | ProbLinkedList.WrittenInitialHeight, ProbLinkedList.WrittenHeightBreaksFit | ProbLinkedList.InitialHeight, ProbLinkedList.SkipList.WithHeight |
