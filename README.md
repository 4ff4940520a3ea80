# AVL tree map — a verified Dafny model

This project models `an_ok_avl_tree`, a Rust ordered map stored as an AVL tree.
The library has three layers, and each is a module here.

- **Node engine** (`src/node.rs` → module `AvlNode`, file `node.dfy`). A link is the
  datatype `Tree<V> = Nil | Node(key, value, height, left, right)`. Every operation
  that takes a node by value and hands back a new root is a function returning a new
  tree:
  - the rotations and the left/right balance helpers;
  - `update_node`, `insert`, `remove_min`, `combine_two_subtrees`, `delete_root` and `delete`;
  - the lookups and the self-check.

  `prev_order`, `in_order` and `post_order` append to a buffer, so they are methods that
  return the extended buffer. `level_order` is a method with the source's `while` loop over a queue.

  The ghost predicate `Avl` is what `insert` and `delete` preserve. It has three parts:
  - global search order (`Ordered`);
  - correctly cached heights (`HeightsCached`);
  - a balance factor within one at every node (`Balanced`).

  `Contents` is the key/value map a tree represents.
- **Tree facade** (`src/avltree.rs` → module `Facade`, file `avltree.dfy`).
  - `AVLTree` is a class whose only field is `root`. `Insert` and `Delete` replace it and are
    specified against the abstract map `Contents()`.
  - Queries are functions of the root.
  - The four `*_iter` builders are methods. They collect keys, look each key up again and
    queue the pairs found.
- **Iterators** (`src/iterator.rs` → modules `TraverseIteration` and `RangeIteration`,
  file `iterator.dfy`).
  - `TraverseIter` owns a queue and pops its front.
  - `RangePairIter` keeps `prev`, the key it handed out last. It is specified by the ghost
    sequence `Pending()` of keys still to come: the in-order keys of the tree filtered by
    the range that remains.

`scenarios.dfy` (module `Scenarios`) states the traversal, rendering and range expectations
of `tests/test.rs` about the model:
- the traversal and rendering results on the tree those tests build;
- the range windows over the keys 1 to 10.

Panics are preconditions of the members that contain them:
- `expect("AVL broken")` in the rotations and balance helpers;
- `unreachable!()` in `rotate_if_necessary`.

`Insert`, `RemoveMin` and `Delete` require `Avl` and meet those preconditions on every call they make. So under the invariant the panics cannot happen.

## Model

| member | source | states |
|---|---|---|
| AvlNode.NewNode | src/node.rs:15-23 | a new node is an AVL tree of height 1 holding exactly the one pair |
| AvlNode.IsLeaf | src/node.rs:26-28 | a node is a leaf exactly when it holds a single key |
| AvlNode.LeafHasHeightOne | src/node.rs:26-28 | a leaf whose height is cached correctly has height 1 |
| AvlNode.HeightZeroOnlyWhenNil | src/node.rs:31-33 | with correct caches, a link's height is 0 exactly when the link is absent |
| AvlNode.UpdateHeight | src/node.rs:36-38 | recomputing the height from the children (an absent child counts 0) makes the node's cached height correct when its children's are, puts it above both children, and keeps every pair |
| AvlNode.Diff | src/node.rs:87-91 | the height difference of a balanced node lies in [-1, 1] |
| AvlNode.LeftRotate | src/node.rs:41-48 | left rotation keeps the in-order key sequence; it needs the right child, which is the `expect` |
| AvlNode.RightRotate | src/node.rs:51-58 | right rotation keeps the in-order key sequence; it needs the left child |
| AvlNode.LeftRotateKeepsOrderAndContents | src/node.rs:41-48 | left rotation of an ordered node keeps search order and the key/value map |
| AvlNode.RightRotateKeepsOrderAndContents | src/node.rs:51-58 | right rotation of an ordered node keeps search order and the key/value map |
| AvlNode.SingleRightRotationRestores | src/node.rs:51-58 | when the left side is two higher and the left child leans left or is level, a right rotation gives an AVL tree with the same pairs |
| AvlNode.SingleLeftRotationRestores | src/node.rs:41-48 | mirror case: a left rotation gives an AVL tree with the same pairs |
| AvlNode.LeftBalance | src/node.rs:61-71 | `left_balance` keeps the in-order key sequence |
| AvlNode.RightBalance | src/node.rs:74-84 | `right_balance` keeps the in-order key sequence |
| AvlNode.DoubleRightRotationKeepsContents | src/node.rs:61-71 | the left-right double rotation keeps search order and the key/value map |
| AvlNode.DoubleLeftRotationKeepsContents | src/node.rs:74-84 | the right-left double rotation keeps search order and the key/value map |
| AvlNode.DoubleRightRotationShape | src/node.rs:61-71 | the left-right double rotation lifts the left child's right child to the root, with the heights recomputed as stated |
| AvlNode.DoubleLeftRotationShape | src/node.rs:74-84 | the right-left double rotation lifts the right child's left child to the root, with the heights recomputed as stated |
| AvlNode.DoubleRightRotationRestores | src/node.rs:61-71 | when the left child leans right, `left_balance` gives an AVL tree with the same pairs, as high as the left child was |
| AvlNode.DoubleLeftRotationRestores | src/node.rs:74-84 | when the right child leans left, `right_balance` gives an AVL tree with the same pairs, as high as the right child was |
| AvlNode.RotateIfNecessary | src/node.rs:94-105 | keeps the in-order keys; a difference outside [-2, 2] is the `unreachable!` and excluded |
| AvlNode.UpdateNode | src/node.rs:108-111 | refreshing the height and rebalancing keeps the in-order keys |
| AvlNode.UpdateNodeRestoresAvl | src/node.rs:87-111 | a node with AVL children whose heights differ by at most 2 becomes an AVL tree with the same pairs; without a rotation its height is exactly one over the taller child |
| AvlNode.UpdateNodeKeepsAvlNode | src/node.rs:94-111 | on a node that already is an AVL tree `update_node` changes nothing |
| AvlNode.UpdateAfterLeftChange | src/node.rs:108-111 | after a left subtree changes height by at most one, `update_node` gives an AVL tree over the new left subtree, the key and the right subtree, with the height bounds insert and delete rely on |
| AvlNode.UpdateAfterRightChange | src/node.rs:108-111 | mirror case for a changed right subtree |
| AvlNode.Insert | src/node.rs:114-138 | inserting into an AVL tree gives an AVL tree whose map is the old one updated at the key, at most one higher |
| AvlNode.InsertedOnLeft | src/node.rs:115-137 | one step back up after inserting on the left keeps the invariant and the updated map |
| AvlNode.InsertedOnRight | src/node.rs:124-137 | one step back up after inserting on the right keeps the invariant and the updated map |
| AvlNode.InsertStoredOnlyOverwrites | src/node.rs:133-136 | inserting a stored key gives the same tree with only that key's value replaced: no height changes, no rotation |
| AvlNode.Overwrite | src/node.rs:133-136 | replacing a value keeps the key set, the heights and the invariant, and is the identity for an absent key |
| AvlNode.RemoveMin | src/node.rs:141-150 | the detached node has no children and holds the least key; the remainder holds exactly the other pairs, is AVL and is at most one lower |
| AvlNode.LeftmostDetaches | src/node.rs:148 | a node without a left child holds the least key, and its right subtree holds the other pairs |
| AvlNode.CombineTwoSubtrees | src/node.rs:153-164 | joining two AVL trees whose keys are separated gives an AVL tree holding the union of their pairs |
| AvlNode.CombineRestoresAvl | src/node.rs:153-164 | the node built from the right subtree's minimum is within the `update_node` precondition, and the result is AVL with the union of the pairs |
| AvlNode.DeleteRoot | src/node.rs:167-178 | removing the root gives an AVL tree with exactly the other pairs (leaf to nothing, one child to that child, two children combined) |
| AvlNode.RootRemovedContents | src/node.rs:167-178 | the pairs of an ordered tree without its root key are those of its two subtrees |
| AvlNode.Delete | src/node.rs:181-197 | deleting from an AVL tree gives an AVL tree whose map is the old one without the key, at most one lower, and the same tree when the key is absent |
| AvlNode.SearchPair | src/node.rs:274-284 | any pair `search_pair` answers carries the key asked for, and that key is stored |
| AvlNode.SearchPairFinds | src/node.rs:274-284 | in an ordered tree `search_pair` answers the stored pair exactly when the key is stored, and nothing otherwise |
| AvlNode.Search | src/node.rs:287-289 | in an ordered tree `search` answers the stored value exactly when the key is stored, and nothing otherwise |
| AvlNode.MinPair | src/node.rs:292-296 | `min_pair` answers a stored key |
| AvlNode.MaxPair | src/node.rs:299-303 | `max_pair` answers a stored key |
| AvlNode.MinPairIsLeast | src/node.rs:292-296 | in an ordered tree `min_pair` is the stored pair with the least key |
| AvlNode.MaxPairIsGreatest | src/node.rs:299-303 | in an ordered tree `max_pair` is the stored pair with the greatest key |
| AvlNode.Successor | src/node.rs:200-211 | any pair `successor` answers has a stored key |
| AvlNode.SuccessorKey | src/node.rs:200-211 | `successor` answers the least stored key above `k`, and answers nothing only when no key lies above `k` |
| AvlNode.SuccessorStored | src/node.rs:200-211 | every pair `successor` answers is stored with that value |
| AvlNode.SuccessorIsLeastAbove | src/node.rs:200-211 | `successor` answers nothing exactly when no stored key lies above `k`, and otherwise the stored pair of the least such key, whether or not `k` is stored |
| AvlNode.Predecessor | src/node.rs:214-225 | any pair `predecessor` answers has a stored key |
| AvlNode.PredecessorKey | src/node.rs:214-225 | `predecessor` answers the greatest stored key below `k`, and answers nothing only when no key lies below `k` |
| AvlNode.PredecessorStored | src/node.rs:214-225 | every pair `predecessor` answers is stored with that value |
| AvlNode.PredecessorIsGreatestBelow | src/node.rs:214-225 | `predecessor` answers nothing exactly when no stored key lies below `k`, and otherwise the stored pair of the greatest such key |
| AvlNode.IsAvlNode | src/node.rs:306-321 | every node of a tree that keeps the invariant passes `is_avl_node` as written |
| AvlNode.IsAvlTree | src/node.rs:324-334 | every tree that keeps the invariant passes `is_avl_tree` as written |
| AvlNode.CheckMissesDeepDisorder | src/node.rs:306-321 | a tree with a key on the wrong side of its grandparent passes `is_avl_tree` as written without being an AVL tree |
| AvlNode.CheckTrustsCachedHeights | src/node.rs:306-321 | a lone node with a wrong cached height passes `is_avl_tree` as written |
| AvlNode.IsAvlWithinExact | src/node.rs:306-334 | the corrected bounded check accepts exactly the AVL trees whose keys lie within the bounds |
| AvlNode.CheckAvlTree | src/node.rs:306-334 | the corrected `is_avl_tree` accepts exactly the trees that keep the invariant |
| AvlNode.PrevOrder | src/node.rs:228-234 | appends the keys in node-left-right order to the buffer |
| AvlNode.InOrder | src/node.rs:237-243 | appends the keys in left-node-right order to the buffer |
| AvlNode.PostOrder | src/node.rs:246-252 | appends the keys in left-right-node order to the buffer |
| AvlNode.LevelOrder | src/node.rs:255-271 | the queue loop appends the keys in breadth-first order to the buffer |
| AvlNode.BreadthFirstStep | src/node.rs:260-270 | one turn of the loop emits the front node's key and queues its children behind the rest |
| AvlNode.InOrderKeysAreKeys | src/node.rs:237-243 | the in-order keys are exactly the stored keys |
| AvlNode.OrderedIffInOrderIncreasing | src/node.rs:237-243 | a tree is in search order exactly when its in-order keys strictly increase |
| AvlNode.TraversalsPermute | src/node.rs:228-252 | pre-, in- and post-order list the same keys with the same multiplicities |
| AvlNode.BreadthFirstPermutes | src/node.rs:255-271 | draining a queue lists exactly the keys of the queued subtrees |
| AvlNode.LevelOrderPermutes | src/node.rs:255-271 | level order lists the same keys as in-order |
| AvlNode.LinkToString | src/node.rs:349-354 | an absent child renders as `Ø`, and nothing else does |
| AvlNode.NodeToString | src/node.rs:337-347 | a node renders as text that opens with `[` and closes with `]` |
| AvlNode.NodeCount | src/node.rs:337-347 | the number of times any character occurs in a node's rendering is the sum of its counts in the nine pieces: `[K: `, the key, `, V: `, the value, `, L: `, the left child, `, R: `, the right child and `]` |
| AvlNode.RenderingCounts | src/node.rs:337-354 | with key and value renderings free of `[` and `Ø`, a tree's rendering holds one `[` per node and one `Ø` per absent child |
| Facade.AvlTree.constructor | src/avltree.rs:16-18 | a new tree is empty and valid |
| Facade.AvlTree.Insert | src/avltree.rs:30-35 | the map is updated at the key and the invariant kept; a stored key only has its value replaced |
| Facade.AvlTree.Delete | src/avltree.rs:48-52 | the key leaves the map and the invariant is kept; an absent key leaves the tree untouched |
| Facade.AvlTree.IsEmpty | src/avltree.rs:61-63 | true exactly when the map is empty |
| Facade.AvlTree.GetPair | src/avltree.rs:73-75 | the stored pair of the key, or nothing when it is absent |
| Facade.AvlTree.Get | src/avltree.rs:85-87 | the stored value of the key, or nothing when it is absent |
| Facade.AvlTree.GetOr | src/avltree.rs:98-100 | the stored value, or the default exactly when the key is absent |
| Facade.AvlTree.Contains | src/avltree.rs:111-113 | true exactly when the key is stored |
| Facade.AvlTree.MinPair | src/avltree.rs:125-127 | nothing exactly for an empty tree, otherwise the stored pair with the least key |
| Facade.AvlTree.MaxPair | src/avltree.rs:139-141 | nothing exactly for an empty tree, otherwise the stored pair with the greatest key |
| Facade.AvlTree.IsAvlTree | src/avltree.rs:152-157 | false for an empty tree, otherwise whether the whole tree keeps the invariant; on a valid tree it answers as the check as written does, true exactly when the tree is not empty |
| Facade.AvlTree.Successor | src/avltree.rs:171-173 | nothing exactly when no stored key lies above the key (so always on an empty tree), otherwise the stored pair of the least key above it |
| Facade.AvlTree.Predecessor | src/avltree.rs:187-189 | nothing exactly when no stored key lies below the key, otherwise the stored pair of the greatest key below it |
| Facade.AvlTree.PrevOrder | src/avltree.rs:300-304 | the keys in pre-order |
| Facade.AvlTree.InOrder | src/avltree.rs:307-311 | the keys in in-order |
| Facade.AvlTree.PostOrder | src/avltree.rs:314-318 | the keys in post-order |
| Facade.AvlTree.LevelOrder | src/avltree.rs:321-325 | the keys in level order |
| Facade.AvlTree.QueuePairs | src/avltree.rs:224-229 | the loop queues, in key order, the pair found for each collected key |
| Facade.StoredKeysFindPairs | src/avltree.rs:224-229 | when every collected key is stored, each lookup succeeds, so the queue has one pair per key, in key order |
| Facade.DistinctStoredKeysListEachPairOnce | src/avltree.rs:222-231 | looking up distinct keys that are exactly the stored ones lists every stored pair once |
| Facade.TraversalListsEachPairOnce | src/avltree.rs:222-231 | looking up any rearrangement of an AVL tree's in-order keys lists every stored pair once |
| Facade.AvlTree.PreorderIter | src/avltree.rs:222-231 | the iterator's queue is the pairs found for the pre-order keys |
| Facade.AvlTree.InorderIter | src/avltree.rs:244-253 | the iterator's queue is the pairs found for the in-order keys |
| Facade.AvlTree.PostorderIter | src/avltree.rs:266-275 | the iterator's queue is the pairs found for the post-order keys |
| Facade.AvlTree.LevelorderIter | src/avltree.rs:288-297 | the iterator's queue is the pairs found for the level-order keys |
| Facade.TraversalsListEachPairOnce | src/avltree.rs:222-297 | each of the four traversal iterators lists every stored pair exactly once, with its value |
| Facade.InOrderPairsAscend | src/avltree.rs:244-253 | the in-order iterator lists the pairs in strictly ascending key order |
| Facade.AvlTree.ToString | src/avltree.rs:336-342 | `None` exactly for an empty tree, otherwise the root's rendering |
| TraverseIteration.TraverseIter.constructor | src/iterator.rs:81-83 | the iterator takes over the queue as it is |
| TraverseIteration.TraverseIter.Next | src/iterator.rs:89-91 | hands out the front pair and drops it; an empty queue answers nothing and stays empty |
| RangeIteration.RangePairIter.constructor | src/iterator.rs:13-20 | the iterator borrows the tree with the two bounds and has handed out nothing yet |
| RangeIteration.RangePairIter.GetLowerBoundPair | src/iterator.rs:42-50 | the first stored pair passing the lower bound (the key itself if stored under `Included`), nothing exactly when none passes |
| RangeIteration.RangePairIter.GetNextPair | src/iterator.rs:34-39 | the first stored pair from the lower bound, or strictly above the key handed out last |
| RangeIteration.RangePairIter.CheckUpperBound | src/iterator.rs:53-64 | keeps the pair exactly when its key passes the upper bound |
| RangeIteration.RangePairIter.GetNextKeyUnder | src/iterator.rs:23-31 | hands out the next key of the remaining range with its stored value and moves past it; at the end it answers nothing and `prev` stays put |
| RangeIteration.RangePairIter.Next | src/iterator.rs:70-72 | same as `GetNextKeyUnder`, so an exhausted iterator keeps answering nothing |
| RangeIteration.WindowStep | src/iterator.rs:23-39 | the remaining range is empty when no stored key passes its lower bound, else it starts at the first such key if that key passes the upper bound |
| RangeIteration.WindowFront | src/iterator.rs:53-64 | in an ascending key list the range starts at the least key passing the lower bound, and is empty if that key fails the upper bound |
| RangeIteration.WindowAllInside | src/iterator.rs:53-64 | when every listed key passes both bounds, the range is the whole list |
| RangeIteration.WindowConcat | src/iterator.rs:53-64 | the range of two lists joined is the two ranges joined |
| RangeIteration.WindowMembers | src/iterator.rs:53-64 | the range holds exactly the listed keys that pass both bounds |
| RangeIteration.WindowIncreasing | src/iterator.rs:70-72 | a range of a strictly ascending key list is strictly ascending |
| RangeIteration.RangeCoversBounds | src/iterator.rs:23-72 | a fresh range iterator hands out, strictly ascending, exactly the stored keys within the bounds |
| Scenarios.DepthFirstOrdersOfSample | tests/test.rs:126-140 | the test tree's pre-, in- and post-order keys are 2 1 3 4, 1 2 3 4 and 1 4 3 2 |
| Scenarios.LevelOrderOfSample | tests/test.rs:126-140 | the test tree's level-order keys are 2 1 3 4 |
| Scenarios.LeafRendering | src/avltree.rs:328-342 | a one-node tree renders as `[K: 1, V: a, L: Ø, R: Ø]` |
| Scenarios.RightSubtreeRendering | tests/test.rs:198-205 | the test tree's right subtree renders as `[K: 3, V: c, L: Ø, R: [K: 4, V: d, L: Ø, R: Ø]]` |
| Scenarios.SampleRendering | tests/test.rs:198-205 | the test tree renders as `[K: 2, V: b, L: [K: 1, V: a, L: Ø, R: Ø], R: [K: 3, V: c, L: Ø, R: [K: 4, V: d, L: Ø, R: Ø]]]` |
| Scenarios.UnboundedWindow | tests/test.rs:143-182 | with both bounds open, the range over the keys 1 to 10 is all ten keys |
| Scenarios.IncludedWindow | tests/test.rs:183-186 | the range from 1 to 4, both included, is 1 2 3 4 |
| Scenarios.IncludedFromZeroWindow | tests/test.rs:187-190 | the range from 0 to 4, both included, is 1 2 3 4 |
| Scenarios.ExcludedWindow | tests/test.rs:191-194 | the range from 1 to 5, both excluded, is 2 3 4 |

## Left out

- Benchmarks (`examples/bench.rs`) are wall-clock timing and printing, so they are not modelled.
- Ownership and allocation are not modelled: `Box`, `take()` and the moves of `self`. A subtree passed in and handed back is a tree value.
- Keys are `int` rather than a generic `PartialOrd` type. Incomparable keys are not modelled, because the code treats "neither less nor greater" as equal.
- `ToString` on keys and values becomes the function parameters `keyStr` and `valStr`. Only the bracket, `Ø` and `None` grammar is modelled.
- Heights are `nat` and balance differences are `int`, so `u32`/`i32` overflow is not modelled.
- The `VecDeque` queues and `Vec` buffers are sequences. Pairs are returned as values, not borrowed references.
- `Default for AVLTree` is the constructor, as is `new`.
- `AVLTree::range_pair_iter` (src/avltree.rs:207-209) only calls `RangePairIter::new`, so it is modelled by `RangeIteration.RangePairIter.constructor`. A method on the facade would make the facade and iterator modules import each other.
- The borrow that keeps the tree unchanged while a range iterator lives is modelled as a `const` tree field. A range iterator's `Valid` needs the tree valid.
- Changing a tree while a `TraverseIter` is alive is not modelled. The iterator holds copies of the pairs.
- The four `*_iter` builders share one loop, `Facade.AvlTree.QueuePairs`, instead of four copies of it.
- Rust panics are preconditions, not modelled failures:
  - `expect("AVL broken")` and `unreachable!()` in the rotations and in `rotate_if_necessary`;
  - the invariant `Avl` on `insert`, `remove_min` and `delete`, under which those panics cannot occur.
- The scenario tree of the traversal tests is written out, not derived by running the four insertions.
- The range test's windows (tests/test.rs:143-195) are stated over the key list 1 to 10, not over a tree built by the test's insertions. `RangeIteration.RangeCoversBounds` ties a tree's range iterator to that list.
- Facade.AvlTree.IsAvlTree: calls the corrected check `AvlNode.CheckAvlTree`, not the node-local `Node::is_avl_tree` that src/avltree.rs:156 calls. Its contract proves that both answer alike on every valid tree. They differ only on trees that break the invariant, which the facade never builds.
- `Wrappers.Option.Or` is the `or_else` used by `successor` and `get_lower_bound_pair`. It carries no contract of its own.

## Findings

| source | as written | input that shows it | evidently intended | confidence | as-written member | corrected member |
|---|---|---|---|---|---|---|
| src/node.rs:306-334 | `is_avl_tree` compares each node only with its immediate children and trusts the cached heights | the tree 5(2(-, 7), 8) with consistent heights, where 7 sits left of 5; also a lone node whose cached height is 3 | accept exactly the trees that are AVL trees: global search order, correct heights, balance | medium, not executed | AvlNode.CheckMissesDeepDisorder | AvlNode.CheckAvlTree |

`AvlNode.IsAvlTree` models the check as written. `AvlNode.CheckMissesDeepDisorder` and `AvlNode.CheckTrustsCachedHeights` exhibit the two gaps.

`AvlNode.CheckAvlTree` is the corrected check, and its contract states that it accepts exactly the trees that keep the invariant. `Facade.AvlTree.IsAvlTree` uses it and keeps the source's rule that an empty tree answers false.
