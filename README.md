# php-common-dsa in Dafny

This project models the core of yoanm/php-common-dsa, a PHP library of data-structure algorithms:

- the binary tree traversals: pre-, in- and post-order, level order and BFS, each written both iteratively (one stack or queue loop) and recursively;
- the mirrored ("reversed") binary traversals, which visit right before left;
- the n-ary tree traversals: pre-order, post-order, level order and BFS, iterative and recursive;
- `BinarySearch::find`, `lowerBound` and `upperBound`;
- the binary and n-ary tree factories' `fromLevelOrderList`;
- `ArrayHelper::insertAt`.

A tree node is a datatype value. It has `val`, optional `left` and `right` for a binary node, or an ordered `children` list for an n-ary node. It also has an `id` that stands for the PHP object's identity. The comparisons the library makes with `===` compare ids. `UniqueIds` says that a tree is made of distinct objects.

Each generator is modelled as the finite sequence it yields. The recursive generators become recursive functions. These are the reference definitions.

Each iterative generator becomes a method holding the source's loop. Its stack is a sequence with the top last, and its queue is a sequence with the front first. Each such method is proved to return exactly its recursive definition's sequence.

The recursive level-order helpers append into a PHP array passed by reference. A PHP array is an ordered map, read back in the order its keys were created. In the model the helpers take the accumulator as a `map` together with a sequence listing its keys in creation order, and hand back both updated. Reading the entries in that key order gives the list `levelOrder` returns.

The factories link node objects in place. In the model they build an arena of cells, where node `k` is the `k`-th node created. The finished arena is then read as a tree, node `k` getting id `k`. Each factory is proved to return the tree its level-order list describes, made of distinct nodes.

Modules, one per file:

- `Common`: options and sequence helpers.
- `BinaryTree` and `NAryTree`: nodes, sizes, node multisets, levels and BFS order.
- `LevelAccumulator`: the by-reference level accumulator and its key order.
- `LevelOrderArena`: what the two factories share.
- One module per source class: `BinaryTreeTraversal`, `BinaryTreeRecursiveTraversal`, `BinaryTreeReversedTraversal`, `BinaryTreeRecursiveReversedTraversal`, `NAryTreeTraversal`, `NAryTreeRecursiveTraversal`, `BinarySearch`, `BinaryTreeFactory`, `NAryTreeFactory` and `ArrayHelper`.
- `BinaryTreeExamples` and `NAryTreeExamples`: the sample trees of the library's tests, built by hand node by node.

## Model

| member | source | states |
|---|---|---|
| BinaryTreeTraversal.PreOrder | src/Algorithm/BinaryTree/Traversal.php:113-131 | the stack loop (pop, yield, push right then left) yields exactly the recursive pre-order node, left, right |
| BinaryTreeTraversal.PreStep | src/Algorithm/BinaryTree/Traversal.php:120-130 | popping a node, yielding it and pushing its right then left child leaves unchanged what is yielded plus what the stack still owes |
| BinaryTreeTraversal.InOrder | src/Algorithm/BinaryTree/Traversal.php:153-173 | the descend-left-then-pop loop yields exactly the recursive in-order left, node, right |
| BinaryTreeTraversal.InDescend | src/Algorithm/BinaryTree/Traversal.php:158-161 | pushing the cursor and moving to its left child keeps the outstanding in-order unchanged |
| BinaryTreeTraversal.InPop | src/Algorithm/BinaryTree/Traversal.php:165-172 | popping a node, yielding it and moving to its right child keeps the outstanding in-order unchanged |
| BinaryTreeTraversal.PostOrder | src/Algorithm/BinaryTree/Traversal.php:195-224 | for a tree of distinct nodes, the loop yields exactly the recursive post-order left, right, node |
| BinaryTreeTraversal.PostPushLeft | src/Algorithm/BinaryTree/Traversal.php:201-207 | the descent pushes each node's right child, if any, then the node, walking left; the loop invariant is kept and the stack is left non-empty |
| BinaryTreeTraversal.PostPop | src/Algorithm/BinaryTree/Traversal.php:209-222 | the pop step (swap the node under its right child, or yield it and clear the cursor) keeps the loop invariant and strictly shrinks the remaining work |
| BinaryTreeTraversal.PopTest | src/Algorithm/BinaryTree/Traversal.php:212 | in a tree of distinct nodes, the identity test "the popped node's right child is on top of the stack" holds exactly when that right subtree has not been visited yet |
| BinaryTreeTraversal.GrandchildBelow | src/Algorithm/BinaryTree/Traversal.php:212 | the node below the popped one is never its right child, so the identity test cannot misfire |
| BinaryTreeTraversal.SwapStep | src/Algorithm/BinaryTree/Traversal.php:212-217 | swapping the popped node under its right child and descending into that child keeps the invariant |
| BinaryTreeTraversal.EmitStep | src/Algorithm/BinaryTree/Traversal.php:218-222 | yielding the popped node is the next step of the post-order and keeps the invariant |
| BinaryTreeTraversal.DrainLevel | src/Algorithm/BinaryTree/Traversal.php:260-276 | draining the counter snapshotted from the queue length yields the current level as it was queued and leaves exactly the next level, left to right, in the queue |
| BinaryTreeTraversal.DrainStep | src/Algorithm/BinaryTree/Traversal.php:262-275 | one dequeue with its two optional enqueues keeps the drain invariant |
| BinaryTreeTraversal.LevelOrder | src/Algorithm/BinaryTree/Traversal.php:254-279 | the queue loop yields one list per depth, left to right: exactly the tree's levels |
| BinaryTreeTraversal.BFS | src/Algorithm/BinaryTree/Traversal.php:303-325 | the queue loop yields the nodes level by level: the concatenation of the level-order lists |
| BinaryTreeRecursiveTraversal.PreOrder | src/Algorithm/BinaryTree/RecursiveTraversal.php:111-121 | the pre-order (node, left subtree, right subtree) has one entry per node of the tree and starts with the root; it is the sequence the iterative stack loop yields (BinaryTreeTraversal.PreOrder) and holds every node occurrence once (PreOrderNodes) |
| BinaryTreeRecursiveTraversal.InOrder | src/Algorithm/BinaryTree/RecursiveTraversal.php:141-152 | the in-order (left subtree, node, right subtree) has one entry per node and puts the root right after its whole left subtree; it is what the iterative loop yields (BinaryTreeTraversal.InOrder) and holds every node occurrence once (InOrderNodes) |
| BinaryTreeRecursiveTraversal.PostOrder | src/Algorithm/BinaryTree/RecursiveTraversal.php:172-181 | the post-order (left subtree, right subtree, node) has one entry per node and ends with the root; it is what the iterative loop yields (BinaryTreeTraversal.PostOrder) and holds every node occurrence once (PostOrderNodes) |
| BinaryTreeRecursiveTraversal.PreOrderNodes | src/Algorithm/BinaryTree/RecursiveTraversal.php:111-121 | the pre-order yields every node occurrence of the tree exactly once |
| BinaryTreeRecursiveTraversal.InOrderNodes | src/Algorithm/BinaryTree/RecursiveTraversal.php:141-152 | the in-order yields every node occurrence exactly once |
| BinaryTreeRecursiveTraversal.PostOrderNodes | src/Algorithm/BinaryTree/RecursiveTraversal.php:172-181 | the post-order yields every node occurrence exactly once |
| BinaryTreeRecursiveTraversal.LevelOrderHelper | src/Algorithm/BinaryTree/RecursiveTraversal.php:206-217 | the helper appends each level of the subtree to the entry of its depth and changes nothing else in the accumulator; each missing depth it reaches is created, its key going last in the array's key order, and the key order keeps listing each key of the array exactly once |
| BinaryTreeRecursiveTraversal.LevelOrder | src/Algorithm/BinaryTree/RecursiveTraversal.php:84-91 | from an empty array the keys are created in the order 0, 1, ..., height-1, so the array is a list; read in that order, its entries are the tree's levels, the same lists the iterative level order yields |
| LevelAccumulator.AddLevelsKeys | src/Algorithm/BinaryTree/RecursiveTraversal.php:208 | adding levels from depth `level` creates exactly the keys from `level` on that were missing, and keeps the others |
| LevelAccumulator.AddLevelsGet | src/Algorithm/BinaryTree/RecursiveTraversal.php:208-210 | each entry gets the matching level appended after what it held |
| LevelAccumulator.AddLevelsMerge | src/Algorithm/BinaryTree/RecursiveTraversal.php:211-216 | adding the levels of the left subtree and then of the right one at the same depth adds their depth-wise concatenation |
| LevelAccumulator.AddOne | src/Algorithm/BinaryTree/RecursiveTraversal.php:208-210 | creating the level's entry when missing and appending the node adds the one-level list, puts a created key last in the key order, and keeps keys and entries matched |
| LevelAccumulator.AddKeysIn | src/Algorithm/BinaryTree/RecursiveTraversal.php:208 | reaching `n` depths from `level` leaves in the key order the old keys and exactly those depths |
| LevelAccumulator.AddKeysDistinct | src/Algorithm/BinaryTree/RecursiveTraversal.php:208 | a key is created only when it is missing, so the key order never lists a key twice |
| LevelAccumulator.AddKeysTwice | src/Algorithm/BinaryTree/RecursiveTraversal.php:211-216 | reaching the left subtree's depths and then the right one's from the same depth creates the keys that reaching the deeper of the two creates |
| LevelAccumulator.AddKeysFresh | src/Algorithm/BinaryTree/RecursiveTraversal.php:84-91 | from keys all below `level`, reaching `n` depths appends `level`, `level + 1`, ... in that order |
| LevelAccumulator.AddKeyOrder | src/Algorithm/BinaryTree/RecursiveTraversal.php:208-216 | adding levels to the array and their keys to its key order keeps the two matched: the same keys, none twice |
| LevelAccumulator.AddLevelsShift | src/Algorithm/BinaryTree/RecursiveTraversal.php:210-216 | appending the node at its depth, then its children's levels one deeper, adds the levels of the node's subtree |
| BinaryTreeReversedTraversal.PreOrder | src/Algorithm/BinaryTree/ReversedTraversal.php:101-119 | the stack loop that pushes left before right yields exactly the recursive mirrored pre-order node, right, left |
| BinaryTreeReversedTraversal.InOrder | src/Algorithm/BinaryTree/ReversedTraversal.php:141-162 | descending rightwards, popping and moving left yields exactly the mirrored in-order right, node, left |
| BinaryTreeReversedTraversal.PostOrder | src/Algorithm/BinaryTree/ReversedTraversal.php:184-213 | for a tree of distinct nodes, the loop yields exactly the mirrored post-order right, left, node |
| BinaryTreeReversedTraversal.PostPushRight | src/Algorithm/BinaryTree/ReversedTraversal.php:190-196 | the descent pushes each node's left child, if any, then the node, walking right, and keeps the loop invariant |
| BinaryTreeReversedTraversal.PostPop | src/Algorithm/BinaryTree/ReversedTraversal.php:198-211 | the pop step keeps the invariant and strictly shrinks the remaining work |
| BinaryTreeReversedTraversal.PopTest | src/Algorithm/BinaryTree/ReversedTraversal.php:201 | the identity test "the popped node's left child is on top of the stack" holds exactly when that left subtree has not been visited yet |
| BinaryTreeReversedTraversal.DrainLevel | src/Algorithm/BinaryTree/ReversedTraversal.php:239-254 | draining the snapshotted counter yields the current level and leaves the next level, right to left, in the queue |
| BinaryTreeReversedTraversal.BFS | src/Algorithm/BinaryTree/ReversedTraversal.php:234-256 | the queue loop yields each level right to left: the concatenation of the ordinary level-order lists, each reversed |
| BinaryTree.RevLevelsReverse | src/Algorithm/BinaryTree/ReversedTraversal.php:246-251 | the levels reached by enqueuing right before left from a reversed forest are the ordinary levels, each reversed |
| BinaryTreeRecursiveReversedTraversal.PreOrder | src/Algorithm/BinaryTree/RecursiveReversedTraversal.php:95-105 | the mirrored pre-order (node, right subtree, left subtree) has one entry per node and starts with the root; it is the ordinary pre-order of the mirror image (PreOrderMirror) and the ordinary post-order reversed (PreOrderIsReversedPostOrder) |
| BinaryTreeRecursiveReversedTraversal.InOrder | src/Algorithm/BinaryTree/RecursiveReversedTraversal.php:127-138 | the mirrored in-order (right subtree, node, left subtree) has one entry per node and puts the root right after its whole right subtree; it is the ordinary in-order reversed (InOrderIsReversedInOrder) |
| BinaryTreeRecursiveReversedTraversal.PostOrder | src/Algorithm/BinaryTree/RecursiveReversedTraversal.php:160-169 | the mirrored post-order (right subtree, left subtree, node) has one entry per node and ends with the root; it is the ordinary pre-order reversed (PostOrderIsReversedPreOrder) |
| BinaryTreeRecursiveReversedTraversal.PreOrderMirror | src/Algorithm/BinaryTree/RecursiveReversedTraversal.php:95-105 | the mirrored pre-order of a tree is the ordinary pre-order of its mirror image |
| BinaryTreeRecursiveReversedTraversal.InOrderIsReversedInOrder | src/Algorithm/BinaryTree/RecursiveReversedTraversal.php:127-138 | the mirrored in-order is the ordinary in-order reversed |
| BinaryTreeRecursiveReversedTraversal.PreOrderIsReversedPostOrder | src/Algorithm/BinaryTree/RecursiveReversedTraversal.php:95-105 | the mirrored pre-order is the ordinary post-order reversed |
| BinaryTreeRecursiveReversedTraversal.PostOrderIsReversedPreOrder | src/Algorithm/BinaryTree/RecursiveReversedTraversal.php:160-169 | the mirrored post-order is the ordinary pre-order reversed |
| BinaryTreeRecursiveReversedTraversal.PreOrderNodes | src/Algorithm/BinaryTree/RecursiveReversedTraversal.php:95-105 | the mirrored pre-order yields every node occurrence exactly once |
| BinaryTreeRecursiveReversedTraversal.InOrderNodes | src/Algorithm/BinaryTree/RecursiveReversedTraversal.php:127-138 | the mirrored in-order yields every node occurrence exactly once |
| BinaryTreeRecursiveReversedTraversal.PostOrderNodes | src/Algorithm/BinaryTree/RecursiveReversedTraversal.php:160-169 | the mirrored post-order yields every node occurrence exactly once |
| BinaryTree.MirrorMirror | src/Algorithm/BinaryTree/RecursiveReversedTraversal.php:95-105 | mirroring a tree twice gives it back |
| BinaryTree.BFSOrderNodes | src/Algorithm/BinaryTree/Traversal.php:303-325 | BFS yields every node occurrence exactly once, as many entries as nodes |
| BinaryTree.LevelsNodes | src/Algorithm/BinaryTree/Traversal.php:254-279 | the levels of a forest hold each of its node occurrences exactly once |
| BinaryTree.UniqueIdsFromEnumeration | src/DataStructure/BinaryTree/Node.php:12-16 | a listing of all node occurrences with pairwise different ids proves that the tree is made of distinct objects |
| NAryTreeTraversal.PreOrder | src/Algorithm/NAryTree/Traversal.php:107-125 | the stack loop that pushes the children last to first yields exactly the recursive pre-order: the node, then each child's subtree in list order |
| NAryTreeTraversal.PushChildren | src/Algorithm/NAryTree/Traversal.php:118-123 | the backward walk over the children pushes them last to first, so the first child ends on top |
| NAryTreeTraversal.PostOrder | src/Algorithm/NAryTree/Traversal.php:159-191 | for a tree of distinct nodes, the loop yields exactly the recursive post-order: each child's subtree in list order, then the node |
| NAryTreeTraversal.VisitTest | src/Algorithm/NAryTree/Traversal.php:172-181 | in a tree of distinct nodes, the test "no children, or the last yielded node is the last child" holds exactly when the top node's children are done |
| NAryTreeTraversal.PostVisit | src/Algorithm/NAryTree/Traversal.php:169-189 | one step (yield and pop the top node and record it as the last one, or push its children above it) keeps the invariant and strictly shrinks the remaining work |
| NAryTreeTraversal.YieldedNotPending | src/Algorithm/NAryTree/Traversal.php:177 | a node already yielded never has the identity of one still to come, so the last-yielded test is an identity test on a finished node |
| NAryTreeTraversal.DrainLevel | src/Algorithm/NAryTree/Traversal.php:218-232 | draining the snapshotted counter yields the current level and leaves exactly the next level, children in list order, in the queue |
| NAryTreeTraversal.EnqueueAll | src/Algorithm/NAryTree/Traversal.php:225-227 | the children are enqueued in list order behind the queue |
| NAryTreeTraversal.LevelOrder | src/Algorithm/NAryTree/Traversal.php:212-235 | the queue loop yields one list per depth: exactly the tree's levels |
| NAryTreeTraversal.BFS | src/Algorithm/NAryTree/Traversal.php:258-278 | the queue loop yields the concatenation of the level-order lists |
| NAryTreeRecursiveTraversal.PreOrder | src/Algorithm/NAryTree/RecursiveTraversal.php:96-103 | the pre-order (node, then each child's pre-order in list order) has one entry per node and starts with the root; it is what the iterative stack loop yields (NAryTreeTraversal.PreOrder) and holds every node occurrence once (PreOrderNodes) |
| NAryTreeRecursiveTraversal.PostOrder | src/Algorithm/NAryTree/RecursiveTraversal.php:123-130 | the post-order (each child's post-order in list order, then the node) has one entry per node and ends with the root; it is what the iterative loop yields (NAryTreeTraversal.PostOrder) and holds every node occurrence once (PostOrderNodes) |
| NAryTreeRecursiveTraversal.PreOrderNodes | src/Algorithm/NAryTree/RecursiveTraversal.php:96-103 | the pre-order yields every node occurrence exactly once |
| NAryTreeRecursiveTraversal.PostOrderNodes | src/Algorithm/NAryTree/RecursiveTraversal.php:123-130 | the post-order yields every node occurrence exactly once |
| NAryTreeRecursiveTraversal.LevelOrderHelper | src/Algorithm/NAryTree/RecursiveTraversal.php:151-159 | the helper appends each level of the subtree to the entry of its depth and changes nothing else; each missing depth it reaches is created with its key last in the key order, which keeps listing each key exactly once |
| NAryTreeRecursiveTraversal.AddChildLevels | src/Algorithm/NAryTree/RecursiveTraversal.php:156-158 | after the helper has run on the first `i+1` children, the accumulator holds the levels of those children's forest |
| NAryTreeRecursiveTraversal.AddChildKeys | src/Algorithm/NAryTree/RecursiveTraversal.php:156-158 | after the helper has run on the first `i+1` children, the key order holds the keys that those children's forest creates |
| NAryTreeRecursiveTraversal.LevelOrder | src/Algorithm/NAryTree/RecursiveTraversal.php:65-76 | from an empty array the keys are created in the order 0, 1, ..., height-1, so the array is a list; read in that order, its entries are the tree's levels |
| NAryTree.BFSOrderNodes | src/Algorithm/NAryTree/Traversal.php:258-278 | BFS yields every node occurrence exactly once |
| NAryTree.UniqueIdsFromEnumeration | src/DataStructure/NAryTree/Node.php:12-18 | a listing of all node occurrences with pairwise different ids proves that the tree is made of distinct objects |
| BinarySearch.Mid | src/Algorithm/BinarySearch.php:47 | the midpoint lies in the window, and strictly below its top when the window has two or more indexes |
| BinarySearch.FindIn | src/Algorithm/BinarySearch.php:37-61 | the result is -1 or an index of the window holding the target |
| BinarySearch.FindInAbsent | src/Algorithm/BinarySearch.php:25-61 | on a sorted list, -1 means the target is nowhere in the window |
| BinarySearch.Find | src/Algorithm/BinarySearch.php:37-61 | the loop returns -1 or an in-window index holding the target; on a sorted list it returns -1 exactly when the target is absent from the window; every access is in bounds |
| BinarySearch.LowerBound | src/Algorithm/BinarySearch.php:92-115 | on a sorted list the result splits the window: every value before it is below the target, every value from it on is not |
| BinarySearch.UpperBound | src/Algorithm/BinarySearch.php:146-168 | on a sorted list every value before the result is at most the target, every value from it on is above it |
| BinarySearch.LowerBoundIn | src/Algorithm/BinarySearch.php:92-115 | the result lies between the low and high index |
| BinarySearch.UpperBoundIn | src/Algorithm/BinarySearch.php:146-168 | the result lies between the low and high index |
| BinarySearch.LowerBoundInSplits | src/Algorithm/BinarySearch.php:92-115 | on a sorted list the halving reaches the split point of "below the target" |
| BinarySearch.UpperBoundInSplits | src/Algorithm/BinarySearch.php:146-168 | on a sorted list the halving reaches the split point of "at most the target" |
| BinarySearch.LowerBoundUnique | src/Algorithm/BinarySearch.php:92-115 | there is only one such split point |
| BinarySearch.UpperBoundUnique | src/Algorithm/BinarySearch.php:146-168 | there is only one such split point |
| BinarySearch.BoundsOrdered | tests/Technical/Algorithm/BinarySearchTest.php:146-155 | the lower bound is at most the upper bound, and they coincide when the target is absent |
| BinarySearch.BoundsOutside | tests/Technical/Algorithm/BinarySearchTest.php:173-182 | a target below the head gives 0 for both bounds, a target above the tail gives the length |
| BinarySearch.FindExample | tests/Technical/Algorithm/BinarySearchTest.php:73-77 | `find` of 10 in the basic list is 8 |
| BinarySearch.FindAbsentExample | tests/Technical/Algorithm/BinarySearchTest.php:78-82 | `find` of 3 in the basic list is -1 |
| BinarySearch.FindDuplicateExample | tests/Technical/Algorithm/BinarySearchTest.php:88-93 | with duplicates, `find` of 10 is 9 although index 8 also holds 10 |
| BinarySearch.EmptyListExamples | tests/Technical/Algorithm/BinarySearchTest.php:83-87 | on an empty list `find` is -1 and both bounds are 0 |
| BinarySearch.LowerBoundExample | tests/Technical/Algorithm/BinarySearchTest.php:146-150 | `lowerBound` of 10 in the basic list is 8 |
| BinarySearch.LowerBoundAbsentExample | tests/Technical/Algorithm/BinarySearchTest.php:151-155 | `lowerBound` of 3 in the basic list is 5 |
| BinarySearch.UpperBoundExample | tests/Technical/Algorithm/BinarySearchTest.php:279-283 | `upperBound` of 10 in the basic list is 9 |
| BinarySearch.UpperBoundAbsentExample | tests/Technical/Algorithm/BinarySearchTest.php:284-288 | `upperBound` of 3 in the basic list is 5 |
| BinarySearch.DuplicateLowerBoundExample | tests/Technical/Algorithm/BinarySearchTest.php:189-193 | with duplicates, `lowerBound` of 10 is 8, the first of the run of 10s |
| BinarySearch.DuplicateUpperBoundExample | tests/Technical/Algorithm/BinarySearchTest.php:322-326 | with duplicates, `upperBound` of 10 is 10, just past the run |
| BinaryTreeFactory.FromLevelOrderList | src/Factory/BinaryTreeFactory.php:27-60 | null exactly for an empty list or `[null]`; otherwise the root carries `list[0]`, the BFS order of the result carries the list's non-null values in order, the `j`-th node in BFS order has entries `2j+1` and `2j+2` as left and right child (null or missing meaning none), and the nodes are distinct |
| BinaryTreeFactory.LinkNodes | src/Factory/BinaryTreeFactory.php:36-57 | the queue loop leaves the arena that reading the list pair by pair gives, with every parent dequeued in creation order |
| BinaryTreeFactory.ManageChild | src/Factory/BinaryTreeFactory.php:43-55 | a non-null entry becomes a new node linked as the parent's left or right child and is enqueued; a null entry changes nothing |
| BinaryTreeFactory.RunLoop | src/Factory/BinaryTreeFactory.php:40-57 | while the queue lasts, every link points forward, the children of each dequeued parent are the next nodes created, and the created nodes carry the non-null values read so far |
| BinaryTreeFactory.FillLoop | src/Factory/BinaryTreeFactory.php:42-56 | one dequeue with its left and right entries keeps that invariant |
| BinaryTreeFactory.RunTree | src/Factory/BinaryTreeFactory.php:40-59 | once the list is used up, the arena read as a tree is the tree the list describes, made of distinct nodes |
| BinaryTreeFactory.BFSFromArena | src/Factory/BinaryTreeFactory.php:40-57 | nodes numbered in creation order are numbered in BFS order: the arena, in order, is the tree's BFS order |
| BinaryTreeFactory.ArenaUnique | src/Factory/BinaryTreeFactory.php:36-55 | every node created is a distinct object |
| NAryTreeFactory.FromLevelOrderList | src/Factory/NAryTreeFactory.php:24-53 | null exactly for an empty list or `[null]`; otherwise the root carries `list[0]`, index 1 is skipped, the BFS order carries the root's value then the remaining non-null values, the `j`-th node in BFS order has as children the `j`-th null-separated group, in order, and the nodes are distinct |
| NAryTreeFactory.LinkNodes | src/Factory/NAryTreeFactory.php:31-49 | the queue loop leaves the arena that reading the entries from index 2 one by one gives |
| NAryTreeFactory.ReadEntry | src/Factory/NAryTreeFactory.php:38-46 | a value becomes the new last child of the parent at the front of the queue and is enqueued; a null dequeues that parent |
| NAryTreeFactory.RunLoop | src/Factory/NAryTreeFactory.php:36-49 | while the queue lasts, links point forward, each dequeued parent has the nodes of its group as children, and the created nodes carry the root's value then the non-null values read |
| NAryTreeFactory.ValueLoop | src/Factory/NAryTreeFactory.php:40-42 | reading a value keeps that invariant |
| NAryTreeFactory.NullLoop | src/Factory/NAryTreeFactory.php:43-46 | reading a null keeps that invariant, closing the front parent's group |
| NAryTreeFactory.RunTree | src/Factory/NAryTreeFactory.php:36-51 | once the list is used up, the arena read as a tree is the tree the list describes, made of distinct nodes |
| NAryTreeFactory.BFSFromArena | src/Factory/NAryTreeFactory.php:36-49 | the arena, in creation order, is the tree's BFS order |
| NAryTreeFactory.ArenaUnique | src/Factory/NAryTreeFactory.php:31-42 | every node created is a distinct object |
| LevelOrderArena.SpansFinish | src/Factory/NAryTreeFactory.php:36-49 | the children recorded for the dequeued parents and the one at the front, with the still-queued nodes childless, number the nodes 1 to n-1 child group by child group |
| LevelOrderArena.NonNullAppend | src/Factory/BinaryTreeFactory.php:44-55 | the non-null values of two lists joined are those of each, joined |
| LevelOrderArena.GroupAtValue | src/Factory/NAryTreeFactory.php:40-42 | a value read joins the last null-separated group only |
| LevelOrderArena.GroupAtNull | src/Factory/NAryTreeFactory.php:43-46 | a null read opens a new empty group and leaves the others alone |
| ArrayHelper.InsertAt | src/Helper/ArrayHelper.php:28-42 | the swap loop and the final append give the list with the value inserted at the index |
| ArrayHelper.Inserted | src/Helper/ArrayHelper.php:28-42 | the result is one longer, holds the value at the index, keeps the values before the index and moves each value from the index on one place back |
| ArrayHelper.InsertedUnique | src/Helper/ArrayHelper.php:28-42 | those properties determine the result completely |
| ArrayHelper.InsertedRemoved | src/Helper/ArrayHelper.php:28-42 | removing the inserted value gives the original list back |
| ArrayHelper.InsertedMultiset | src/Helper/ArrayHelper.php:28-42 | the values are the old ones plus the inserted one |
| ArrayHelper.InsertedAtEnd | tests/Technical/Helper/ArrayHelperTest.php:46-51 | inserting at the length appends |
| ArrayHelper.InsertedIntoEmpty | tests/Technical/Helper/ArrayHelperTest.php:52-57 | inserting into an empty list gives the one-value list |
| ArrayHelper.InsertedExample | tests/Technical/Helper/ArrayHelperTest.php:28-33 | inserting 6 at index 5 into [1, 2, 3, 4, 5, 7, 8, 9] gives [1, ..., 9] |
| BinaryTreeExamples.SamplePreOrder | tests/Technical/Algorithm/BinaryTree/AbstractTraversalTestCase.php:27-30 | a hand-built tree matching the level-order list [1,2,7,3,4,null,8,null,null,5,6,9] has pre-order values 1 to 9 |
| BinaryTreeExamples.MirroredSamplePreOrder | tests/Technical/Algorithm/BinaryTree/AbstractTraversalTestCase.php:63-66 | a hand-built tree matching the level-order list [1,5,2,9,6,null,3,null,null,8,7,4] has mirrored pre-order values 1 to 9 |
| NAryTreeExamples.SampleALevels | tests/Technical/Algorithm/NAryTree/AbstractTraversalTestCase.php:59-62 | a hand-built tree matching the level-order list [1,null,3,2,4,null,5,6] has level order [[1],[3,2,4],[5,6]] |
| NAryTreeExamples.SampleBPostOrder | tests/Technical/Algorithm/NAryTree/AbstractTraversalTestCase.php:43-46 | a hand-built tree matching the level-order list [6,null,3,4,5,null,1,2] has post-order values 1 to 6 |

## Left out

- Generators are modelled as the finite sequences they yield. Their laziness and the key handling of `iterator_to_array` are PHP runtime details. The eager wrappers (`preOrder`, `inOrder`, `postOrder`, `levelOrder`, `BFS` and so on) return exactly their generator's sequence, so they are not modelled separately.
- `SplStack` and `SplQueue` are sequences. The `end()`/`prev()` walk over a children list is modelled as pushing the children in reverse; its side effect on the array's internal cursor is left out.
- Some loop bodies of the source are split into helper methods so that each proof stays small. The helpers hold the same statements in the same order:
  - `PostPushLeft` and `PostPop` of the binary post-order;
  - `PostPushRight` and `PostPop` of the mirrored post-order;
  - `PostVisit` and `PushChildren` of the n-ary traversals;
  - `DrainLevel` and `EnqueueAll` of the queue loops;
  - `LinkNodes` and `ManageChild` of the binary factory;
  - `LinkNodes` and `ReadEntry` of the n-ary factory.
- The node objects the factories link in place are kept in an arena of cells, read as a tree value at the end. Aliasing between node objects is not modelled beyond ids.
- The factories' `nodeCreator` callable is modelled as "make a node with this value".
- BinaryTreeFactory.FromLevelOrderList: a non-empty list whose first entry is `null` would pass `null` to the node creator. The model requires `list[0]` to be a value whenever the list is longer than `[null]`.
- NAryTreeFactory.FromLevelOrderList: the same requirement applies to `list[0]`.
- BinaryTreeFactory.FromLevelOrderList: when the list holds more entries than there are open child slots, the source calls `dequeue` on an empty queue, which throws. The model requires `EnoughParents` instead of modelling the exception.
- NAryTreeFactory.FromLevelOrderList: likewise, reading an entry after the queue has emptied calls `bottom` on an empty queue. The model requires `QueueNeverEmpty`.
- NAryTreeFactory.FromLevelOrderList: index 1 is skipped unconditionally, as in the source. A list whose entry 1 is not `null` loses that value, and the model says so in `Describes`.
- BinarySearch: `int|float` lists and targets are integers only. Floating-point comparison is out of scope.
- BinarySearch: PHP integers are 64-bit. Indexes are unbounded here; the midpoint is computed on a non-negative difference, which cannot overflow for list indexes. The right shift by one is division by two.
- BinarySearch.Find and the bounds: the requires clauses ask that the window given be inside the list, as the doc comments demand of callers.
- ArrayHelper.InsertAt: the list is passed by reference in PHP. In the model it goes in as a sequence, and the method returns its new value. The index must lie between 0 and the list's length, as the doc comment demands.
- The time and space complexity claims of the doc comments, and recursion-depth exhaustion, are resource claims, not behaviour.
- The `NodeInterface` files and the node classes carry no behaviour. They are the `Node` datatypes here.
