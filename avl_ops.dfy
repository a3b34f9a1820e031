/**
 * The recursive tree operations of src/avl_tree.c: insertion and removal
 * (descend by comparison, edit at the bottom, rebalance every ancestor on
 * the way back up), lookup, counting and in-order enumeration.
 */
module AvlOps {
  import opened AvlNode
  import opened AvlBalance
  import opened AvlWalk

  // ---------------------------------------------------------------------
  // Insertion

  /**
   * Attaches the fresh node below `t` and rebalances every node on the
   * path. The comparator is called as cmp(existing, new); a negative result
   * sends the new node right. A payload comparing equal to a stored one
   * must not be inserted.
   */
  function InsertRecursive<T(!new)>(key: T -> int, t: Tree<T>, newNode: Tree<T>): (r: Tree<T>)
    requires IsFreshNode(newNode)
    requires key(newNode.data) !in Keys(key, t)
    ensures r.Node?
    ensures |InOrder(r)| == |InOrder(t)| + 1
    ensures forall x :: x in InOrder(r) <==> x in InOrder(t) || x == newNode.data
    decreases t
  {
    if t.Nil? then
      newNode
    else
      var cmpResult := Compare(key, t.data, newNode.data);
      assert key(t.data) in Keys(key, t);
      assert cmpResult != 0;
      if cmpResult < 0 then
        assert Keys(key, t.right) <= Keys(key, t);
        Balance(t.(right := InsertRecursive(key, t.right, newNode)))
      else
        assert Keys(key, t.left) <= Keys(key, t);
        Balance(t.(left := InsertRecursive(key, t.left, newNode)))
  }

  /**
   * Inserting a payload whose key is absent into an AVL tree yields an AVL
   * tree; the height grows by at most one.
   */
  lemma {:induction false} InsertKeepsAvl<T(!new)>(key: T -> int, t: Tree<T>, newNode: Tree<T>)
    requires Avl(key, t) && IsFreshNode(newNode)
    requires key(newNode.data) !in Keys(key, t)
    ensures Avl(key, InsertRecursive(key, t, newNode))
    ensures Height(t) <= Height(InsertRecursive(key, t, newNode)) <= Height(t) + 1
    decreases t
  {
    var x := newNode.data;
    if t.Node? {
      assert key(t.data) in Keys(key, t);
      if Compare(key, t.data, x) < 0 {
        assert Keys(key, t.right) <= Keys(key, t);
        InsertKeepsAvl(key, t.right, newNode);
        RebalanceAfterRightEdit(key, t, InsertRecursive(key, t.right, newNode));
      } else {
        assert Keys(key, t.left) <= Keys(key, t);
        InsertKeepsAvl(key, t.left, newNode);
        RebalanceAfterLeftEdit(key, t, InsertRecursive(key, t.left, newNode));
      }
    }
  }

  /**
   * The payload set of the tree after insertion is the old one plus the new
   * payload, and its key set the old one plus the new key.
   */
  lemma InsertAddsExactlyOne<T(!new)>(key: T -> int, t: Tree<T>, newNode: Tree<T>)
    requires IsFreshNode(newNode) && key(newNode.data) !in Keys(key, t)
    ensures Elements(InsertRecursive(key, t, newNode)) == Elements(t) + {newNode.data}
    ensures Keys(key, InsertRecursive(key, t, newNode)) == Keys(key, t) + {key(newNode.data)}
  {
    var r := InsertRecursive(key, t, newNode);
    assert Elements(r) == Elements(t) + {newNode.data};
  }

  // ---------------------------------------------------------------------
  // Lookup

  /**
   * Descends by cmp(key, existing): zero is a match, positive goes right.
   * Returns the matching node, or the absent node when the descent falls
   * off the tree. A found node always holds a stored payload comparing
   * equal to the query.
   */
  function FindRecursive<T(!new)>(key: T -> int, t: Tree<T>, q: T): (found: Tree<T>)
    ensures found.Node? ==> found.data in InOrder(t) && key(found.data) == key(q)
  {
    if t.Nil? then
      Nil
    else
      var cmpResult := Compare(key, q, t.data);
      if cmpResult == 0 then t
      else if cmpResult > 0 then FindRecursive(key, t.right, q)
      else FindRecursive(key, t.left, q)
  }

  /** On an ordered tree the search finds a node exactly when the key is stored. */
  lemma {:induction false} FindIsComplete<T(!new)>(key: T -> int, t: Tree<T>, q: T)
    requires Ordered(key, t)
    ensures FindRecursive(key, t, q).Node? <==> key(q) in Keys(key, t)
  {
    if t.Node? {
      var cmpResult := Compare(key, q, t.data);
      if cmpResult > 0 {
        FindIsComplete(key, t.right, q);
        if key(q) in Keys(key, t) {
          var y :| y in InOrder(t) && key(y) == key(q);
          assert y in InOrder(t.right);
        }
      } else if cmpResult < 0 {
        FindIsComplete(key, t.left, q);
        if key(q) in Keys(key, t) {
          var y :| y in InOrder(t) && key(y) == key(q);
          assert y in InOrder(t.left);
        }
      } else {
        assert key(t.data) in Keys(key, t);
      }
    }
  }

  // ---------------------------------------------------------------------
  // Removal

  /**
   * Splices out a node with at most one child: its left child if it has
   * one, otherwise its right child (absent for a leaf).
   */
  function RemoveWithOneChild<T>(t: Tree<T>): (r: Tree<T>)
    requires t.Node?
    ensures t.left.Nil? || t.right.Nil? ==> InOrder(r) == InOrder(t.left) + InOrder(t.right)
  {
    if t.left.Node? then t.left else t.right
  }

  /**
   * Removes the rightmost node of `t` (the in-order last payload) and
   * returns it alongside the rebalanced remainder; the caller copies the
   * payload into the node being deleted.
   */
  function DiveAndRemoveRecursive<T>(t: Tree<T>): (res: (Tree<T>, T))
    requires t.Node?
    ensures InOrder(res.0) + [res.1] == InOrder(t)
    decreases t
  {
    if t.right.Nil? then
      (RemoveWithOneChild(t), t.data)
    else
      var (rest, predecessor) := DiveAndRemoveRecursive(t.right);
      (Balance(t.(right := rest)), predecessor)
  }

  /**
   * Deletes the payload of a node with a left subtree: the in-order
   * predecessor's payload overwrites it, the predecessor's node is removed
   * from the left subtree, and the node is rebalanced.
   */
  function RemoveWithTwoChildren<T>(t: Tree<T>): (r: Tree<T>)
    requires t.Node? && t.left.Node?
    ensures InOrder(r) == InOrder(t.left) + InOrder(t.right)
  {
    var (rest, predecessor) := DiveAndRemoveRecursive(t.left);
    Balance(t.(left := rest, data := predecessor))
  }

  /**
   * Descends by cmp(key, existing) to the matching node and deletes it,
   * rebalancing every node on the way back up; an absent key leaves the
   * payloads as they were. Exactly one payload is removed when the same
   * descent in FindRecursive finds a node, none otherwise, and only a
   * payload comparing equal to the key can go.
   */
  function RemoveRecursive<T(!new)>(key: T -> int, t: Tree<T>, q: T): (r: Tree<T>)
    ensures forall x :: x in InOrder(r) ==> x in InOrder(t)
    ensures forall x :: x in InOrder(t) && key(x) != key(q) ==> x in InOrder(r)
    ensures |InOrder(r)| == |InOrder(t)| - (if FindRecursive(key, t, q).Node? then 1 else 0)
  {
    if t.Nil? then
      t
    else
      var cmpResult := Compare(key, q, t.data);
      if cmpResult == 0 then
        if t.left.Node? && t.right.Node? then RemoveWithTwoChildren(t) else RemoveWithOneChild(t)
      else if cmpResult > 0 then
        Balance(t.(right := RemoveRecursive(key, t.right, q)))
      else
        Balance(t.(left := RemoveRecursive(key, t.left, q)))
  }

  /**
   * Removing the rightmost node of an AVL tree leaves an AVL tree whose
   * payloads all compare below the removed one, at most one level lower.
   */
  lemma {:induction false} DiveKeepsAvl<T(!new)>(key: T -> int, t: Tree<T>)
    requires t.Node? && Avl(key, t)
    ensures Avl(key, DiveAndRemoveRecursive(t).0)
    ensures forall x :: x in InOrder(DiveAndRemoveRecursive(t).0) ==> key(x) < key(DiveAndRemoveRecursive(t).1)
    ensures Height(t) - 1 <= Height(DiveAndRemoveRecursive(t).0) <= Height(t)
    decreases t
  {
    var (rest, predecessor) := DiveAndRemoveRecursive(t);
    if t.right.Node? {
      var (sub, p) := DiveAndRemoveRecursive(t.right);
      DiveKeepsAvl(key, t.right);
      assert forall y :: y in InOrder(sub) ==> y in InOrder(t.right);
      RebalanceAfterRightEdit(key, t, sub);
    }
    OrderedInOrderAscending(key, t);
    var s := InOrder(t);
    forall x | x in InOrder(rest) ensures key(x) < key(predecessor) {
      var i :| 0 <= i < |InOrder(rest)| && InOrder(rest)[i] == x;
      assert s[i] == x && s[|s| - 1] == predecessor;
    }
  }

  /**
   * Deleting the payload of an AVL node with two children yields an AVL
   * tree at most one level lower.
   */
  lemma TwoChildRemovalKeepsAvl<T(!new)>(key: T -> int, t: Tree<T>)
    requires t.Node? && t.left.Node? && t.right.Node? && Avl(key, t)
    ensures Avl(key, RemoveWithTwoChildren(t))
    ensures Height(t) - 1 <= Height(RemoveWithTwoChildren(t)) <= Height(t)
  {
    var (sub, p) := DiveAndRemoveRecursive(t.left);
    DiveKeepsAvl(key, t.left);
    var edited := t.(left := sub, data := p);
    assert RemoveWithTwoChildren(t) == Balance(edited);
    assert InOrder(sub) + [p] == InOrder(t.left);
    assert p in InOrder(t.left);
    assert forall y :: y in InOrder(t.right) ==> key(p) < key(y);
    BalanceKeepsAvl(key, edited);
  }

  /**
   * Removing from an AVL tree yields an AVL tree at most one level lower.
   */
  lemma {:induction false} RemoveKeepsAvl<T(!new)>(key: T -> int, t: Tree<T>, q: T)
    requires Avl(key, t)
    ensures Avl(key, RemoveRecursive(key, t, q))
    ensures Height(t) - 1 <= Height(RemoveRecursive(key, t, q)) <= Height(t)
    decreases t
  {
    if t.Node? {
      var cmpResult := Compare(key, q, t.data);
      if cmpResult == 0 {
        if t.left.Node? && t.right.Node? {
          TwoChildRemovalKeepsAvl(key, t);
        }
      } else if cmpResult > 0 {
        RemoveKeepsAvl(key, t.right, q);
        RebalanceAfterRightEdit(key, t, RemoveRecursive(key, t.right, q));
      } else {
        RemoveKeepsAvl(key, t.left, q);
        RebalanceAfterLeftEdit(key, t, RemoveRecursive(key, t.left, q));
      }
    }
  }

  /** On an ordered tree, no payload comparing equal to the key survives removal. */
  lemma {:induction false} RemoveLeavesNoMatch<T(!new)>(key: T -> int, t: Tree<T>, q: T)
    requires Ordered(key, t)
    ensures forall x :: x in InOrder(RemoveRecursive(key, t, q)) ==> key(x) != key(q)
    decreases t
  {
    if t.Node? {
      var cmpResult := Compare(key, q, t.data);
      if cmpResult > 0 {
        RemoveLeavesNoMatch(key, t.right, q);
        assert InOrder(RemoveRecursive(key, t, q))
               == InOrder(t.left) + [t.data] + InOrder(RemoveRecursive(key, t.right, q));
      } else if cmpResult < 0 {
        RemoveLeavesNoMatch(key, t.left, q);
        assert InOrder(RemoveRecursive(key, t, q))
               == InOrder(RemoveRecursive(key, t.left, q)) + [t.data] + InOrder(t.right);
      } else {
        assert InOrder(RemoveRecursive(key, t, q)) == InOrder(t.left) + InOrder(t.right);
      }
    }
  }

  /**
   * On an ordered tree, removal takes out exactly the payloads comparing equal
   * to the key (at most one) and nothing else; the count drops by one
   * exactly when the key was stored.
   */
  lemma RemoveDropsExactlyKey<T(!new)>(key: T -> int, t: Tree<T>, q: T)
    requires Ordered(key, t)
    ensures Elements(RemoveRecursive(key, t, q)) == set x | x in Elements(t) && key(x) != key(q)
    ensures Keys(key, RemoveRecursive(key, t, q)) == Keys(key, t) - {key(q)}
    ensures |InOrder(RemoveRecursive(key, t, q))| == |InOrder(t)| - (if key(q) in Keys(key, t) then 1 else 0)
  {
    var r := RemoveRecursive(key, t, q);
    RemoveLeavesNoMatch(key, t, q);
    FindIsComplete(key, t, q);
    assert Elements(r) == set x | x in Elements(t) && key(x) != key(q);
  }

  /**
   * When the descent falls off the tree, removal hands back the very same
   * tree: each node on the path is rebalanced, but its invariants already
   * hold, so Balance returns it untouched.
   */
  lemma {:induction false} RemoveMissIsIdentity<T(!new)>(key: T -> int, t: Tree<T>, q: T)
    requires HeightsOk(t) && Balanced(t)
    requires FindRecursive(key, t, q).Nil?
    ensures RemoveRecursive(key, t, q) == t
  {
    if t.Node? {
      var cmpResult := Compare(key, q, t.data);
      if cmpResult > 0 {
        RemoveMissIsIdentity(key, t.right, q);
        assert t.(right := t.right) == t;
        BalanceOfAvlNodeIsIdentity(t);
      } else if cmpResult < 0 {
        RemoveMissIsIdentity(key, t.left, q);
        assert t.(left := t.left) == t;
        BalanceOfAvlNodeIsIdentity(t);
      }
    }
  }

  // ---------------------------------------------------------------------
  // Counting

  /** Counts the nodes: one per stored payload. */
  function CountRecursive<T>(t: Tree<T>): (n: nat)
    ensures n == |InOrder(t)|
  {
    if t.Nil? then 0 else 1 + CountRecursive(t.left) + CountRecursive(t.right)
  }

  // ---------------------------------------------------------------------
  // Enumeration

  /**
   * In-order enumeration: the left subtree, the node, the right subtree,
   * stopping at the first non-zero action result and returning it (0 when
   * every call returned 0). It behaves exactly as scanning the in-order
   * sequence.
   */
  function ForEachRecursive<T>(t: Tree<T>, action: T -> int): (w: Walk<T>)
    ensures w == Scan(InOrder(t), action)
  {
    if t.Nil? then
      Walk(0, [])
    else
      var inLeft := ForEachRecursive(t.left, action);
      if inLeft.ret != 0 then
        ScanStopsLeft(InOrder(t.left), t.data, InOrder(t.right), action);
        inLeft
      else
        ScanRanThrough(InOrder(t.left), action);
        var mine := action(t.data);
        if mine != 0 then
          ScanStopsAt(InOrder(t.left), t.data, InOrder(t.right), action);
          Walk(mine, inLeft.calls + [t.data])
        else
          ScanRunsOn(InOrder(t.left), t.data, InOrder(t.right), action);
          var inRight := ForEachRecursive(t.right, action);
          Walk(inRight.ret, inLeft.calls + ([t.data] + inRight.calls))
  }
}
