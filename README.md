# Balanced search-tree maps: AVL tree and treap

This project models the two self-balancing binary-search-tree maps of the
repository, `AvlTreeMap` and `TreapMap`. Both implement the same ordered-map
operations: `insert`, `put`, `get`, `has`, `remove`, `size` and in-order key
traversal. Each rebalances in its own way:

- **AvlTreeMap** stores a `height` in every node. On the way back up from an
  insert or remove, each ancestor recomputes its height, and `balanceFix`
  applies a single or double rotation when a balance factor leaves [-1, 1].
- **TreapMap** stores a `priority` in every node. Its `balanceFix` makes at
  most one rotation, towards a child whose priority exceeds the node's.

A node with two children is removed by predecessor splicing: `maxTree` finds
the largest node of the left subtree and `removeMax` unlinks it there.

The files:

- `OrderedMap.dfy`: the outcomes shared by both maps.
  - `Option` stands for a nullable key.
  - `Result` and `Outcome` model a value or a thrown `IllegalArgumentException`.
  - `Error` gives the reason it is thrown.
- `SearchTree.dfy`: the node datatype both trees use, and what it means.
  - `Tree<V>` has a key, a value and an integer `rank`, which is the AVL height or the treap priority.
  - `Inorder`, `Contents`, `Ranks`, `Bst`, `FindNode`, `MaxTree` and `SetValue` define its meaning, with lemmas about them.
- `Walks.dfy`: the loops `find` and `maxTree` run with a cursor, and the recursive traversal `iteratorHelper` that appends to a list.
- `AvlTree.dfy` / `AvlProofs.dfy`: the private recursive AVL methods as functions on trees, and their correctness.
  - Map contents are kept.
  - The AVL shape is kept: correct heights and balance factors in [-1, 1].
- `Treap.dfy` / `TreapProofs.dfy`: the same for the treap.
  - Map contents and every surviving priority are kept.
  - Insertion keeps heap order.
  - Removal does not keep heap order; `RemoveBreaksHeap` exhibits a tree where it fails.
- `AvlTreeMap.dfy` / `TreapMap.dfy`: the two map classes, with the fields `root` and `size`.
  - Their methods check arguments first, then hand the tree to the functions above.
  - Each method states the new bindings, the new `size` and every error case.

Keys are `int`. A Java `null` key is `None`. The priority a new treap node
draws at random is a parameter (`TreapMap.Insert`'s `drawn`).

**Heap order after removal.** A treap is normally heap-ordered after every
operation. `removeNow` (TreapMap.java:291-295) fixes the spliced-in
replacement with one `balanceFix` instead of sifting it down, so `remove` can
leave the tree out of heap order, as `RemoveBreaksHeap` shows. The model
follows the code: `TreapMap.Valid` holds search-tree order and the size but
not heap order, and each operation that keeps heap order says so in its own
contract.

## Model

| member | source | states |
|---|---|---|
| AvlMap.AvlTreeMap.constructor | AvlTreeMap.java:56-59 | the new map is empty, satisfies the AVL invariant and has size 0 |
| AvlMap.AvlTreeMap.Size | AvlTreeMap.java:92-94 | the `size` field equals the number of bindings |
| AvlMap.AvlTreeMap.Find | AvlTreeMap.java:115-133 | a null key is refused; otherwise the search ends at a node exactly when the key is bound, holding that key and its value |
| AvlMap.AvlTreeMap.Has | AvlTreeMap.java:141-146 | true exactly when the key is non-null and bound |
| AvlMap.AvlTreeMap.FindForSure | AvlTreeMap.java:153-159 | a null or absent key is refused; otherwise the node holding the key and its value |
| AvlMap.AvlTreeMap.Put | AvlTreeMap.java:180-186 | a null or absent key is refused with no change; otherwise only that key's value changes, and shape, heights and size are kept |
| AvlMap.AvlTreeMap.Get | AvlTreeMap.java:195-201 | a null or absent key is refused; otherwise the bound value |
| AvlMap.AvlTreeMap.Insert | AvlTreeMap.java:210-221 | a null or present key is refused with no change; otherwise the map gains exactly `k -> v`, size grows by one, and the AVL invariant holds |
| AvlMap.AvlTreeMap.Remove | AvlTreeMap.java:403-409 | a null or absent key is refused with no change; otherwise it returns the old value, only `k` loses its binding, size drops by one, and the AVL invariant holds |
| AvlMap.AvlTreeMap.Iterator | AvlTreeMap.java:424-428 | the keys in strictly ascending order, as many as `size`, exactly the bound keys |
| AvlMap.AvlTreeMap.GetBalance | AvlTreeMap.java:481-484 | a null or absent key is refused; otherwise the node's balance factor, which lies in [-1, 1] |
| AvlMap.AvlTreeMap.GetHeight | AvlTreeMap.java:491-494 | a null or absent key is refused; otherwise the node's height, which is non-negative |
| Walks.Search | AvlTreeMap.java:115-133 | the cursor loop stops at the node `FindNode` describes |
| Walks.MaxNode | AvlTreeMap.java:166-171 | the cursor loop down the right spine stops at the node `MaxTree` describes |
| Walks.IteratorHelper | AvlTreeMap.java:413-420 | appends the in-order key sequence of the subtree to the list |
| SearchTree.Inorder | TreapMap.java:357-364 | the in-order key sequence has one entry per node |
| SearchTree.InorderKeys | AvlTreeMap.java:413-420 | a key occurs in the traversal exactly when it is in the tree |
| SearchTree.BstIffAscending | AvlTreeMap.java:413-428 | a tree is a search tree exactly when its in-order traversal is strictly ascending |
| SearchTree.CountIsSize | AvlTreeMap.java:92-94 | in a search tree the node count equals the number of bindings |
| SearchTree.FindNode | TreapMap.java:88-106 | a node found holds the key sought |
| SearchTree.FindNodeCorrect | TreapMap.java:88-106 | in a search tree the search finds a node exactly when the key is bound, and the node carries its value and priority |
| SearchTree.FindNodeSubtree | TreapMap.java:88-106 | the node found roots a search tree whose keys are among the tree's |
| SearchTree.MaxTree | TreapMap.java:242-247 | the rightmost node has no right child and its key is in the tree |
| SearchTree.MaxTreeIsMax | AvlTreeMap.java:166-171 | in a search tree the rightmost node holds the largest key, with its value and rank |
| SearchTree.SetValue | TreapMap.java:143-149 | writing `n.value` keeps the key sequence and every rank |
| SearchTree.SetValueShape | AvlTreeMap.java:180-186 | `put` keeps the shape of the tree |
| SearchTree.SetValueBst | TreapMap.java:143-149 | `put` keeps search-tree order |
| SearchTree.SetValueContents | AvlTreeMap.java:180-186 | `put` rebinds a present key and changes nothing else |
| SearchTree.RegroupInorder | AvlTreeMap.java:311-332 | a rotation, whatever ranks it writes, keeps the in-order sequence |
| SearchTree.RegroupBst | TreapMap.java:254-271 | a rotation keeps search-tree order both ways |
| SearchTree.RegroupContents | AvlTreeMap.java:311-332 | a rotation of a search tree keeps the bindings |
| SearchTree.RegroupRanks | TreapMap.java:254-271 | a rotation that moves ranks with their nodes keeps every key's rank |
| AvlTree.Height | AvlTreeMap.java:299-304 | an absent child has height -1, and no height is below -1 when stored heights are non-negative |
| AvlTree.Balance | AvlTreeMap.java:101-108 | left child height minus right child height, within [-1, 1] on an AVL tree; a missing node is refused (see Left out) |
| AvlTree.MaxChildHeight | AvlTreeMap.java:280-292 | the larger child height, -1 for a leaf |
| AvlTree.Refresh | AvlTreeMap.java:245 | recomputing the height changes nothing but the height |
| AvlTree.RotateRight | AvlTreeMap.java:311-318 | keeps the in-order sequence, raises the left child, and keeps heights non-negative |
| AvlTree.RotateLeft | AvlTreeMap.java:325-332 | keeps the in-order sequence, raises the right child, and keeps heights non-negative |
| AvlTree.BalanceFix | AvlTreeMap.java:255-273 | keeps the in-order sequence and non-negative heights |
| AvlTree.Insert | AvlTreeMap.java:230-248 | refuses only a duplicate key, and otherwise adds one node |
| AvlTree.RemoveMax | AvlTreeMap.java:391-399 | removes exactly one node |
| AvlTree.RemoveNode | AvlTreeMap.java:367-384 | removes exactly one node |
| AvlTree.RemoveNow | AvlTreeMap.java:341-360 | refuses only an absent key, and otherwise removes one node |
| AvlProofs.CorrectHeightsNonNeg | AvlTreeMap.java:34-36 | correctly computed heights are never negative, and a leaf with a correct height has height 0, as a new node starts |
| AvlProofs.RotateRightContents | AvlTreeMap.java:311-318 | a right rotation keeps search-tree order and the bindings |
| AvlProofs.RotateLeftContents | AvlTreeMap.java:325-332 | a left rotation keeps search-tree order and the bindings |
| AvlProofs.BalanceFixContents | AvlTreeMap.java:255-273 | `balanceFix` keeps search-tree order and the bindings |
| AvlProofs.SingleRightAvl | AvlTreeMap.java:257-261 | one right rotation of a left-heavy node whose left child does not lean right gives an AVL tree of the stated height |
| AvlProofs.DoubleRightAvl | AvlTreeMap.java:257-261 | when the left child leans right, the double rotation gives an AVL tree one level lower |
| AvlProofs.SingleLeftAvl | AvlTreeMap.java:263-268 | the mirror image of `SingleRightAvl` |
| AvlProofs.DoubleLeftAvl | AvlTreeMap.java:263-268 | the mirror image of `DoubleRightAvl` |
| AvlProofs.BalanceFixAvl | AvlTreeMap.java:255-273 | for balance factors within [-2, 2], `balanceFix` gives an AVL tree whose height grows by at most one, and only refreshes the height when the node is balanced |
| AvlProofs.RebuildLeftAvl | AvlTreeMap.java:237-247 | after a child's height changes by at most one, refresh and `balanceFix` give an AVL tree whose height changes by at most one |
| AvlProofs.RebuildRightAvl | AvlTreeMap.java:239-247 | the mirror image of `RebuildLeftAvl` |
| AvlProofs.InsertContents | AvlTreeMap.java:230-248 | insertion fails exactly on a present key; otherwise it keeps search-tree order and adds exactly `k -> v` |
| AvlProofs.InsertAvl | AvlTreeMap.java:230-248 | insertion keeps the AVL shape, and the height grows by at most one |
| AvlProofs.RemoveMaxContents | AvlTreeMap.java:391-399 | `removeMax` keeps search-tree order and drops exactly the maximum key |
| AvlProofs.RemoveMaxAvl | AvlTreeMap.java:391-399 | `removeMax` keeps the AVL shape, and the height drops by at most one |
| AvlProofs.RemoveNodeContents | AvlTreeMap.java:367-384 | `removeNode` keeps search-tree order and drops exactly the node's key |
| AvlProofs.RemoveNodeAvl | AvlTreeMap.java:367-384 | `removeNode` keeps the AVL shape, and the height drops by at most one |
| AvlProofs.RemoveNowContents | AvlTreeMap.java:341-360 | removal fails exactly on an absent key; otherwise it keeps search-tree order and drops exactly `k` |
| AvlProofs.RemoveNowAvl | AvlTreeMap.java:341-360 | removal keeps the AVL shape, and the height drops by at most one |
| AvlProofs.SetValueAvl | AvlTreeMap.java:180-186 | `put` keeps heights and the AVL shape |
| AvlProofs.FindNodeAvl | AvlTreeMap.java:481-494 | the subtree a search reaches in an AVL tree is an AVL tree |
| AvlProofs.InsertRemoveRoundTrip | AvlTreeMap.java:210-248 | inserting an absent key and removing it again restores the bindings and keeps the AVL invariant |
| AvlProofs.AscendingInserts | AvlTreeMap.java:230-273 | inserting 1, 2, 3 in turn leaves 2 at the root, with 1 and 3 below it |
| AvlProofs.DescendingInserts | AvlTreeMap.java:230-273 | inserting 3, 2, 1 in turn gives the same tree |
| AvlProofs.RemoveRootOfThree | AvlTreeMap.java:367-384 | removing the root of that tree moves its predecessor up, with the right child below it |
| Treap.RightRotate | TreapMap.java:266-271 | the left child is raised with its priority, the node is lowered with its priority |
| Treap.LeftRotate | TreapMap.java:254-259 | the right child is raised with its priority, the node is lowered with its priority |
| Treap.BalanceFix | TreapMap.java:225-232 | keeps the node count |
| Treap.InsertPri | TreapMap.java:429-447 | the result is never empty |
| Treap.RemoveMax | TreapMap.java:329-336 | removes exactly one node |
| Treap.RemoveNode | TreapMap.java:304-322 | removes exactly one node |
| Treap.RemoveNow | TreapMap.java:280-297 | refuses only with "key not found", and otherwise removes one node |
| TreapProofs.RightRotateKeeps | TreapMap.java:266-271 | keeps the in-order sequence and search-tree order both ways, and keeps the bindings and all priorities |
| TreapProofs.LeftRotateKeeps | TreapMap.java:254-259 | keeps the in-order sequence and search-tree order both ways, and keeps the bindings and all priorities |
| TreapProofs.BalanceFixKeeps | TreapMap.java:225-232 | keeps what the rotations keep, and never lowers the root's priority |
| TreapProofs.BalanceFixOnHeap | TreapMap.java:225-232 | on a heap-ordered node it changes nothing |
| TreapProofs.HeapBound | TreapMap.java:225-232 | in a heap-ordered treap the root's priority bounds every priority |
| TreapProofs.HeapOfShape | TreapMap.java:143-149 | heap order depends only on keys, priorities and shape, so `put` keeps it both ways |
| TreapProofs.FindNodeHeap | TreapMap.java:477-501 | the subtree a search reaches in a heap-ordered treap is heap-ordered |
| TreapProofs.InsertPriContents | TreapMap.java:429-447 | insertion keeps search-tree order, binds `k -> v`, and keeps every other priority; a new key gets `pri` |
| TreapProofs.InsertPriAbsent | TreapMap.java:458-469 | inserting an absent key adds it with priority `pri` and one more node |
| TreapProofs.InsertPriHeap | TreapMap.java:429-447 | inserting into a heap-ordered treap gives a heap-ordered treap whose root is either within the old bound or the new node |
| TreapProofs.InsertPriKeepsHeap | TreapMap.java:198-217 | inserting into a heap-ordered treap keeps it heap-ordered |
| TreapProofs.TwoInsertsRotate | TreapMap.java:228-229 | inserting A, then B > A with a higher priority, leaves B at the root with A as its left child |
| TreapProofs.RemoveMaxContents | TreapMap.java:329-336 | `removeMax` keeps search-tree order and drops exactly the maximum key and its priority |
| TreapProofs.RemoveNodeContents | TreapMap.java:304-322 | `removeNode` keeps search-tree order and drops exactly the node's key and priority |
| TreapProofs.RemoveNowContents | TreapMap.java:280-297 | removal fails exactly on an absent key; otherwise it keeps search-tree order and drops exactly `k` and its priority |
| TreapProofs.InsertRemoveRoundTrip | TreapMap.java:429-447 | inserting an absent key and removing it again restores the bindings and the priorities |
| TreapProofs.RemoveBreaksHeap | TreapMap.java:280-297 | a heap-ordered treap on the keys 1, 5, 7, 8, 9 is no longer heap-ordered after removing 5 |
| TreapMapModel.TreapMap.constructor | TreapMap.java:69-71 | the new map is empty and heap-ordered, with size 0 |
| TreapMapModel.TreapMap.Size | TreapMap.java:78-80 | the `size` field equals the number of bindings |
| TreapMapModel.TreapMap.Find | TreapMap.java:88-106 | a null key is refused; otherwise the search ends at a node exactly when the key is bound, holding it with its value and priority |
| TreapMapModel.TreapMap.Has | TreapMap.java:115-120 | true exactly when the key is non-null and bound |
| TreapMapModel.TreapMap.FindForSure | TreapMap.java:128-134 | a null or absent key is refused; otherwise the node holding the key |
| TreapMapModel.TreapMap.Put | TreapMap.java:143-149 | a null or absent key is refused with no change; otherwise only that key's value changes; shape, priorities and heap order are kept |
| TreapMapModel.TreapMap.Get | TreapMap.java:159-165 | a null or absent key is refused; otherwise the bound value |
| TreapMapModel.TreapMap.InsertPri | TreapMap.java:458-469 | a null or present key is refused with no change; otherwise `k -> v` with priority `pri` is added, other priorities are kept, size grows by one, and heap order is kept |
| TreapMapModel.TreapMap.Insert | TreapMap.java:178-189 | the same as `InsertPri` with the priority the new node draws |
| TreapMapModel.TreapMap.Remove | TreapMap.java:344-353 | a null or absent key is refused with no change; otherwise it returns the old value, only `k` loses its binding and priority, and size drops by one |
| TreapMapModel.TreapMap.Iterator | TreapMap.java:368-372 | the keys in strictly ascending order, as many as `size`, exactly the bound keys |
| TreapMapModel.TreapMap.LeftPriority | TreapMap.java:477-485 | a null or absent key, or an absent left child, is refused; otherwise the left child's priority, for a smaller bound key; in a heap-ordered treap it is at most the node's |
| TreapMapModel.TreapMap.RightPriority | TreapMap.java:493-501 | a null or absent key, or an absent right child, is refused; otherwise the right child's priority, for a larger bound key; in a heap-ordered treap it is at most the node's |

## Left out

- In-place rewiring of `left`/`right` fields and node identity.
  - The private recursive methods are modelled as functions, and nodes are immutable values.
  - Aliasing is not captured. No `Node` escapes either class, so no caller can observe it.
  - The map classes hold the tree as a value in `root`.
- Random priorities (`new Random()` in TreapMap's `Node`). The priority is a parameter of `TreapMap.Insert`.
- `toString`, `setupStringBuilder`, `toStringHelper` and the `StringBuilder` field of both classes. This is formatting only.
- The empty `String`/`ArrayList<String>` stub overloads in AvlTreeMap.java:62-85. They have no behaviour.
- Java `Iterator` objects. Traversal is the sequence of keys the iterator would yield.
- `Comparable` keys in general. Keys are `int` with their usual order.
- Java `int` overflow of `size`, `height` and `priority`. Integers are unbounded here. The Java code is exact only up to 2^31 - 1 nodes, and its priorities are compared without wrap-around.
- Heap order after treap `remove`. The code does not keep it, and `RemoveBreaksHeap` shows why. `TreapMap.Valid` therefore omits heap order.
- `balance(null)` throwing in AvlTreeMap.java:101-108. It is reached only for nodes, so `AvlTree.Balance` requires a node.
- HashMapDouble.java and SparseGraph.java are not part of this model.
