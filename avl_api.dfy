/**
 * The public tree handle of src/avl_tree.c. The handle owns the root slot
 * (in the source, the left child of a sentinel node) and keeps the
 * comparator given at creation; insertion and removal reassign the root
 * slot with whatever subtree root the recursive operation hands back.
 */
module AvlApi {
  import opened AvlNode
  import opened AvlBalance
  import opened AvlOps
  import opened AvlWalk

  datatype Option<T> = None | Some(value: T)

  class AvlTree<T(!new)> {
    /** The root node, `Nil` while the tree is empty. */
    var root: Tree<T>
    /** The comparator (with its context) fixed at creation. */
    const key: T -> int

    /** The tree invariant between public operations. */
    ghost predicate Valid()
      reads this
    {
      Avl(key, root)
    }

    /** A new, empty tree using the given comparator. */
    constructor (key: T -> int)
      ensures this.key == key && root == Nil && Valid()
    {
      this.key := key;
      root := Nil;
    }

    /** True exactly when the root is absent, that is, when nothing is stored. */
    method IsEmpty() returns (empty: bool)
      ensures empty <==> root.Nil?
      ensures empty <==> InOrder(root) == []
    {
      empty := root.Nil?;
    }

    /** The root's cached height, 0 for an empty tree; logarithmic in the count. */
    method Height() returns (h: nat)
      requires Valid()
      ensures h == AvlNode.Height(root)
      ensures Pow2(h / 2) <= |InOrder(root)| + 1
    {
      h := GetHeight(root);
      AvlHeightLogarithmic(root);
    }

    /** The number of stored payloads. */
    method Count() returns (n: nat)
      ensures n == |InOrder(root)|
    {
      n := CountRecursive(root);
    }

    /**
     * The stored payload comparing equal to `q`, or None when no stored
     * payload does.
     */
    method Find(q: T) returns (found: Option<T>)
      requires Valid()
      ensures found.Some? <==> key(q) in Keys(key, root)
      ensures found.Some? ==> found.value in Elements(root) && key(found.value) == key(q)
    {
      var node := FindRecursive(key, root, q);
      FindIsComplete(key, root, q);
      if node.Node? {
        found := Some(node.data);
      } else {
        found := None;
      }
    }

    /**
     * Calls `action` on the payloads in ascending order and returns the
     * first non-zero result, or 0 when every call returned 0. `calls` is
     * the payloads the action was called on, in call order: a prefix of
     * the ascending sequence that ends at the first non-zero result.
     */
    method ForEach(action: T -> int) returns (ret: int, ghost calls: seq<T>)
      requires Valid()
      ensures calls == Scan(InOrder(root), action).calls && ret == Scan(InOrder(root), action).ret
      ensures Ascending(key, calls)
      ensures calls <= InOrder(root)
      ensures forall i :: 0 <= i < |calls| - 1 ==> action(calls[i]) == 0
      ensures ret == 0 <==> calls == InOrder(root) && forall i :: 0 <= i < |calls| ==> action(calls[i]) == 0
      ensures ret != 0 ==> |calls| > 0 && action(calls[|calls| - 1]) == ret
      ensures ret == 0 <==> forall i :: 0 <= i < |InOrder(root)| ==> action(InOrder(root)[i]) == 0
      ensures ret != 0 ==>
                exists i :: 0 <= i < |InOrder(root)| && action(InOrder(root)[i]) == ret &&
                            forall j :: 0 <= j < i ==> action(InOrder(root)[j]) == 0
    {
      var walk := ForEachRecursive(root, action);
      ret, calls := walk.ret, walk.calls;
      OrderedInOrderAscending(key, root);
      ScanMeaning(InOrder(root), action);
      assert forall i :: 0 <= i < |calls| ==> calls[i] == InOrder(root)[i];
      if ret != 0 {
        var i := |calls| - 1;
        assert calls[i] == InOrder(root)[i];
      }
    }

    /**
     * Inserts a payload whose key is not yet stored. `nodeAllocated` is the
     * outcome of allocating the new node: on failure the status is 1 and the
     * tree is untouched; otherwise the status is 0 and the payload is added.
     */
    method Insert(x: T, nodeAllocated: bool) returns (status: int)
      requires Valid()
      requires key(x) !in Keys(key, root)
      modifies this
      ensures Valid()
      ensures status == if nodeAllocated then 0 else 1
      ensures !nodeAllocated ==> root == old(root)
      ensures nodeAllocated && old(root).Nil? ==> root == Node(1, Nil, Nil, x)
      ensures nodeAllocated ==> Elements(root) == old(Elements(root)) + {x}
      ensures nodeAllocated ==> Keys(key, root) == old(Keys(key, root)) + {key(x)}
      ensures nodeAllocated ==> |InOrder(root)| == old(|InOrder(root)|) + 1
    {
      if !nodeAllocated {
        return 1;
      }
      var newNode := CreateNode(x);
      var empty := IsEmpty();
      if empty {
        root := newNode;
        return 0;
      }
      InsertKeepsAvl(key, root, newNode);
      InsertAddsExactlyOne(key, root, newNode);
      root := InsertRecursive(key, root, newNode);
      return 0;
    }

    /**
     * Removes the stored payload comparing equal to `q`, if any; removing
     * an absent key leaves the tree exactly as it was.
     */
    method Remove(q: T)
      requires Valid()
      modifies this
      ensures Valid()
      ensures Elements(root) == set x | x in old(Elements(root)) && key(x) != key(q)
      ensures Keys(key, root) == old(Keys(key, root)) - {key(q)}
      ensures |InOrder(root)| == old(|InOrder(root)|) - (if key(q) in old(Keys(key, root)) then 1 else 0)
      ensures key(q) !in old(Keys(key, root)) ==> root == old(root)
    {
      RemoveKeepsAvl(key, root, q);
      RemoveDropsExactlyKey(key, root, q);
      FindIsComplete(key, root, q);
      if key(q) !in Keys(key, root) {
        RemoveMissIsIdentity(key, root, q);
      }
      root := RemoveRecursive(key, root, q);
    }
  }
}
