# AVL tree (ido682/avl_tree) in Dafny

This project models `src/avl_tree.c`, a height-balanced binary search tree.
The tree stores caller payloads in the order given by a caller-supplied
comparator. Every node caches its height. Insertion and removal both work
the same way:

- descend by comparison;
- edit at the bottom, either attaching a fresh height-1 node or splicing a
  node out (a node with two children first takes over its in-order
  predecessor's payload);
- call `Balance` on every node on the way back up.

`Balance` recomputes the cached height. When the cached child heights differ
by more than one, it applies one of four rotations. On a tie it picks the
single rotation. The read-only operations are lookup, counting, height,
emptiness and an in-order enumeration that stops at the first non-zero
action result.

Modules, one file each:

- `AvlNode` (`avl_node.dfy`) holds:
  - the node datatype (`Nil` is the NULL node; `Node` carries the cached
    height, the two children and the payload);
  - the comparator;
  - the height utilities `GetHeight`, `CalculateHeight`, `CalculateBalance`
    and `Max`, and `CreateNode`;
  - the specification functions `InOrder`, `Elements`, `Keys` and the true
    `Height`;
  - the invariants `Ordered`, `HeightsOk` (every cached height is right),
    `Balanced` (|balance| ≤ 1) and `Avl` (all three);
  - the logarithmic height bound.
- `AvlBalance` (`avl_balance.dfy`) holds the rotation engine and `Balance`,
  with their correctness lemmas.
- `AvlOps` (`avl_ops.dfy`) holds the recursive insert, find, remove (with
  its one-child, two-children and predecessor-dive helpers), count and
  for-each, with their invariant and key-set lemmas.
- `AvlWalk` (`avl_walk.dfy`) is the reference semantics of enumeration over
  a plain sequence (`Scan`) and the facts about it.
- `AvlApi` (`avl_api.dfy`) is the public handle, `class AvlTree`:
  - it owns the root slot, which the source keeps as the left child of a
    sentinel node;
  - it keeps the comparator fixed at creation;
  - `Insert` and `Remove` reassign the root slot.
- `AvlScenarios` (`avl_scenarios.dfy`) works concrete insert and remove runs
  on integer payloads:
  - the four three-key insertion orders that trigger each of the four
    rotations;
  - a five-key tree built by inserting 2, 1, 4, 3, 5;
  - a two-child removal from that tree whose rebalancing hits the
    equal-height tie-break.

Nodes are values. Each C function that rewires a subtree and returns the new
subtree root becomes a function from the old subtree to the new one. The
node passed in is owned exclusively by its parent in the C, so nothing else
observes the in-place update. `DiveAndRemoveRecursive` overwrites an
ancestor's payload in the C; here it returns the pair (remaining subtree,
predecessor payload) and `RemoveWithTwoChildren` stores the payload.

The comparator `cmp(a, b, param)` is modelled as an integer key projection
`key: T -> int`. `Compare(key, a, b)` is negative, zero or positive as
`key(a)` is below, equal to or above `key(b)`, which makes it a total
preorder. Distinct payloads may share a key. The argument order of each call
is kept as in the source:

- insertion calls `cmp(existing, new)` and goes right when the result is
  negative;
- lookup and removal call `cmp(query, existing)` and go right when the
  result is positive.

## Model

| member | source | states |
|---|---|---|
| AvlNode.GetChild | src/avl_tree.c:577-580 | reading side Left yields the left subtree and side Right the right subtree |
| AvlNode.SetChild | src/avl_tree.c:536-537 | overwrites exactly the named child slot; the other slot, the cached height and the payload are unchanged |
| AvlNode.Compare | include/avl_tree.h:7-9 | negative, zero or positive exactly as the first payload's key is below, equal to or above the second's |
| AvlNode.CompareAntisymmetric | src/avl_tree.c:170-175 | swapping the arguments negates the result, so insertion's `cmp(existing, new) < 0` and lookup's `cmp(query, existing) > 0` both mean "the new or queried key is larger, go right" |
| AvlNode.Max | src/avl_tree.c:625-628 | the result is at least each argument and equals one of them |
| AvlNode.GetHeight | src/avl_tree.c:521-529 | the absent node has height 0; on a height-correct subtree the cached height is the true height |
| AvlNode.CalculateHeight | src/avl_tree.c:499-518 | children and payload are untouched; with height-correct children the node becomes height-correct and its cache is its true height |
| AvlNode.CalculateBalance | src/avl_tree.c:485-496 | with height-correct children it is the true left height minus the true right height |
| AvlNode.CreateNode | src/avl_tree.c:589-604 | a childless node holding exactly the payload, height 1, height-correct and balanced |
| AvlNode.OrderedInOrderAscending | include/avl_tree.h:44-49 | on a search-ordered tree the in-order sequence strictly ascends in comparator order |
| AvlNode.AscendingInOrderOrdered | src/avl_tree.c:532-570 | conversely, a strictly ascending in-order sequence means the tree is search-ordered, so any reshaping that keeps the in-order sequence (a rotation) keeps the order |
| AvlNode.OrderedKeysUnique | include/avl_tree.h:26-30 | in an ordered tree no two stored payloads compare equal |
| AvlNode.AvlHeightLogarithmic | src/avl_tree.c:432-482 | a balanced tree of height h holds at least 2^(h/2) - 1 payloads |
| AvlBalance.RotateOneSide | src/avl_tree.c:532-542 | the result is a node with the same in-order sequence |
| AvlBalance.RotateLeft | src/avl_tree.c:545-548 | the right child is promoted, its left subtree moves under the old root, the in-order sequence is kept, and height-correct subtrees give a height-correct result |
| AvlBalance.RotateRight | src/avl_tree.c:551-554 | mirror image of RotateLeft |
| AvlBalance.RotateLeftRight | src/avl_tree.c:557-562 | the left child's right child ends on top with the exact regrouping of the four subtrees; in-order sequence kept; height-correct subtrees give a height-correct result |
| AvlBalance.RotateRightLeft | src/avl_tree.c:565-570 | mirror image of RotateLeftRight |
| AvlBalance.Balance | src/avl_tree.c:432-482 | the result is a node with the same in-order sequence |
| AvlBalance.BalanceChoosesRotation | src/avl_tree.c:447-479 | in terms of true heights: no rotation within a difference of one; a left excess gets a single right rotation unless the left child leans right (then left-right); mirrored on the right; a balance-0 heavy child gets the single rotation |
| AvlBalance.RotateRightRebalances | src/avl_tree.c:450-457 | a single right rotation repairs a left excess of two whose left child does not lean right; result height is the left child's or one more |
| AvlBalance.RotateLeftRebalances | src/avl_tree.c:465-473 | mirror image for a right excess |
| AvlBalance.RotateLeftRightRebalances | src/avl_tree.c:458-462 | a left-right rotation repairs a left excess of two whose left child leans right; result height equals the left child's |
| AvlBalance.RotateRightLeftRebalances | src/avl_tree.c:474-478 | mirror image for a right excess |
| AvlBalance.BalanceRestoresAvl | src/avl_tree.c:432-482 | with height-correct balanced children at most two apart the result is height-correct and balanced; within one it only recomputes the height; the height ends between the taller child's and one more |
| AvlBalance.BalanceKeepsOrder | src/avl_tree.c:432-482 | Balance keeps the search order |
| AvlBalance.BalanceKeepsAvl | src/avl_tree.c:432-482 | a node whose AVL subtrees lie on either side of its payload, heights at most two apart, is rebalanced into an AVL tree with the height bounds above |
| AvlBalance.RebalanceAfterRightEdit | src/avl_tree.c:176-181 | replacing the right subtree of an AVL node by an AVL tree of larger keys at most one level off and rebalancing gives an AVL tree whose height moves the same way by at most one |
| AvlBalance.RebalanceAfterLeftEdit | src/avl_tree.c:350-357 | mirror image for the left subtree |
| AvlBalance.BalanceOfAvlNodeIsIdentity | src/avl_tree.c:441-481 | on a height-correct balanced node Balance returns the node unchanged |
| AvlOps.InsertRecursive | src/avl_tree.c:158-182 | for a fresh node whose key is absent, the result is a node holding one more payload: exactly the old payloads and the new one |
| AvlOps.InsertKeepsAvl | src/avl_tree.c:158-182 | insertion keeps the AVL invariant (order, cached heights, balance) and grows the height by at most one |
| AvlOps.InsertAddsExactlyOne | src/avl_tree.c:158-182 | the payload set gains exactly the new payload and the key set exactly its key |
| AvlOps.FindRecursive | src/avl_tree.c:284-309 | a found node holds a stored payload comparing equal to the query |
| AvlOps.FindIsComplete | src/avl_tree.c:284-309 | on an ordered tree a node is found exactly when the query's key is stored |
| AvlOps.RemoveWithOneChild | src/avl_tree.c:361-381 | when at most one child is present, the result's in-order sequence is the left's followed by the right's (the node's payload is gone) |
| AvlOps.DiveAndRemoveRecursive | src/avl_tree.c:401-425 | the remaining subtree's in-order sequence followed by the returned payload is the original sequence, so the returned payload is the in-order last |
| AvlOps.RemoveWithTwoChildren | src/avl_tree.c:384-398 | the result holds exactly the payloads of both subtrees, in order, without the node's own |
| AvlOps.RemoveRecursive | src/avl_tree.c:323-358 | no payload is added; every payload with a different key survives; the count drops by one exactly when the same descent finds a node |
| AvlOps.DiveKeepsAvl | src/avl_tree.c:401-425 | removing the rightmost node of an AVL tree leaves an AVL tree whose keys all lie below the removed payload, at most one level lower |
| AvlOps.TwoChildRemovalKeepsAvl | src/avl_tree.c:384-398 | the predecessor replacement keeps the AVL invariant and lowers the height by at most one |
| AvlOps.RemoveKeepsAvl | src/avl_tree.c:323-358 | removal keeps the AVL invariant and lowers the height by at most one |
| AvlOps.RemoveLeavesNoMatch | src/avl_tree.c:323-358 | on an ordered tree no payload comparing equal to the query survives |
| AvlOps.RemoveDropsExactlyKey | src/avl_tree.c:323-358 | on a search-ordered tree the payload set loses exactly the payloads with the query's key and the key set exactly that key; the count drops by one exactly when the key was stored |
| AvlOps.RemoveMissIsIdentity | src/avl_tree.c:329-357 | when the descent reaches an absent child, removal returns the very same tree |
| AvlOps.CountRecursive | src/avl_tree.c:242-261 | the count is the length of the in-order sequence |
| AvlOps.ForEachRecursive | src/avl_tree.c:196-231 | the returned value and the calls made are exactly those of scanning the in-order sequence |
| AvlWalk.ScanMeaning | include/avl_tree.h:44-49 | the calls are a prefix of the sequence; 0 is returned exactly when every element was visited and returned 0; otherwise the result is the last call's, and every earlier call returned 0 |
| AvlWalk.ScanAppend | src/avl_tree.c:212-216 | scanning a concatenation reaches the second part only if the first part ran through with 0 |
| AvlWalk.ScanCons | src/avl_tree.c:218-222 | scanning a sequence headed by d calls the action on d first and stops there on a non-zero result |
| AvlWalk.ScanRanThrough | src/avl_tree.c:212-216 | a scan returning 0 has called the action on every element |
| AvlWalk.ScanStopsLeft | src/avl_tree.c:212-216 | a non-zero result inside the left part ends the walk around a node |
| AvlWalk.ScanStopsAt | src/avl_tree.c:218-222 | after a clean left part, a non-zero result at the node ends the walk there |
| AvlWalk.ScanRunsOn | src/avl_tree.c:224-230 | after a clean left part and node, the walk continues with the right part and returns its result |
| AvlWalk.ScanAfterRunThrough | src/avl_tree.c:224-230 | after a prefix that returned 0 throughout, the scan proceeds exactly as on the rest |
| AvlApi.AvlTree.constructor | src/avl_tree.c:68-91 | a new tree is empty, keeps the comparator, and satisfies the invariant |
| AvlApi.AvlTree.IsEmpty | src/avl_tree.c:120-123 | true exactly when the root is absent, that is, when nothing is stored |
| AvlApi.AvlTree.Height | src/avl_tree.c:126-129 | the root's true height (0 when empty), with 2^(h/2) ≤ count + 1 |
| AvlApi.AvlTree.Count | src/avl_tree.c:234-239 | the number of stored payloads |
| AvlApi.AvlTree.Find | src/avl_tree.c:264-281 | a payload is returned exactly when the query's key is stored, and it is a stored payload with that key |
| AvlApi.AvlTree.ForEach | src/avl_tree.c:185-193 | the payloads the action is called on are a prefix of the ascending in-order sequence; every call but the last returned 0; it returns 0 exactly when the action was called on every payload and returned 0 each time; otherwise it returns the last call's result, which is the first non-zero result in in-order |
| AvlApi.AvlTree.Insert | src/avl_tree.c:132-155 | a failed allocation returns 1 and changes nothing; otherwise it returns 0, keeps the invariant, and adds exactly the payload and its key (count + 1); an empty tree gets the fresh node as its root |
| AvlApi.AvlTree.Remove | src/avl_tree.c:312-320 | keeps the invariant; removes exactly the payloads with the query's key; the count drops by one exactly when the key was stored; an absent key leaves the root untouched |
| AvlScenarios.AscendingInsertsRotateLeft | src/avl_tree.c:465-473 | inserting 1, 2, 3 ends as 2 over 1 and 3, through one single left rotation |
| AvlScenarios.ZigZagInsertsRotateLeftRight | src/avl_tree.c:557-562 | inserting 3, 1, 2 ends as 2 over 1 and 3, through one left-right rotation |
| AvlScenarios.DescendingInsertsRotateRight | src/avl_tree.c:550-553 | inserting 3, 2, 1 ends as 2 over 1 and 3, through one single right rotation |
| AvlScenarios.ZagZigInsertsRotateRightLeft | src/avl_tree.c:565-570 | inserting 1, 3, 2 ends as 2 over 1 and 3, through one right-left rotation |
| AvlScenarios.FiveKeysBuiltByInsertion | src/avl_tree.c:158-182 | inserting 2, 1, 4, 3, 5 into an empty tree, each key absent beforehand, builds the two-level tree with 2 at the root, 1 and 4 below it and 3, 5 under 4, with no rotation |
| AvlScenarios.FiveKeysIsAvl | src/avl_tree.c:432-482 | the five-key tree satisfies the AVL invariant |
| AvlScenarios.TwoChildRemovalUsesSingleRotation | src/avl_tree.c:384-398 | removing the root 2 of that tree copies 1 up; the right child then has balance 0, so the tie-break takes a single left rotation and 4 becomes the root |

## Left out

- Memory management is not modelled: `malloc`, `free`, `AVLTreeDestroy` and `DestroyRecursive`. A failed node allocation in `AVLTreeInsert` is the `nodeAllocated` parameter of `AvlApi.AvlTree.Insert`. A failed allocation of the tree in `AVLTreeCreate` (the NULL return) is not modelled.
- The sentinel node's `BADCOFEE` poison values are not modelled; the root slot is the `root` field.
- `void *` payloads and the `param` context pointer are not modelled. Payloads are values of a type parameter. The comparator and the action are pure functions: the comparator is folded into the `key` projection, and `param` is the projection's and the action's closure.
- Comparators that are not a total preorder on some integer key are not modelled.
- In-place pointer rewiring, node identity and aliasing are not modelled, because nodes are values. Nothing in the source shares a node, so each rewired subtree is observed only through the returned root.
- `DiveAndRemoveRecursive`'s `side` argument is always RIGHT in the source, so the model fixes it.
- Machine-width arithmetic is not modelled: `size_t` heights and counts, and the `size_t`-to-`ssize_t` difference in `CalculateBalance`. Heights, counts and balances are mathematical integers.
- Reentrant calls into the tree from inside a comparator or an action are not modelled; the source leaves them undefined.
- The unused `avl_is_match_func_t` type is not modelled.
- The `assert`s on NULL arguments are not modelled, since no value here can be NULL.
- AvlApi.AvlTree.Insert: inserting a payload whose key is already stored violates the source's `assert` and is undefined by contract. The model makes an absent key a precondition instead of modelling that behaviour.
- AvlApi.AvlTree.Height: the proved bound, h ≤ about 2·log2(count + 1), is weaker than the classical 1.44·log2 AVL bound.
- AvlNode.AvlHeightLogarithmic: states the same 2·log2 bound, weaker than the classical one.
