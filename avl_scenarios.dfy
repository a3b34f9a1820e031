/**
 * Concrete runs of the recursive operations on integer payloads ordered by
 * their own value, pinning down the exact shapes the rotation choices of
 * src/avl_tree.c produce.
 */
module AvlScenarios {
  import opened AvlNode
  import opened AvlBalance
  import opened AvlOps

  function Id(x: int): int { x }

  function Leaf(x: int): Tree<int> { Node(1, Nil, Nil, x) }

  /** Keys 1 then 2: the second key becomes the right child, no rotation. */
  lemma AscendingFirstTwo()
    ensures 1 !in Keys(Id, Nil) && InsertRecursive(Id, Nil, Leaf(1)) == Leaf(1)
    ensures 2 !in Keys(Id, Leaf(1)) && InsertRecursive(Id, Leaf(1), Leaf(2)) == Node(2, Nil, Leaf(2), 1)
  {
    assert InOrder(Leaf(1)) == [1];
    assert InsertRecursive(Id, Leaf(1), Leaf(2)) == Balance(Node(1, Nil, Leaf(2), 1));
  }

  /** Inserting 3 under 1 and 2 descends right twice before rebalancing. */
  lemma AscendingThirdDescent()
    ensures 3 !in Keys(Id, Node(2, Nil, Leaf(2), 1))
    ensures InsertRecursive(Id, Node(2, Nil, Leaf(2), 1), Leaf(3))
            == Balance(Node(2, Nil, Node(2, Nil, Leaf(3), 2), 1))
  {
    var t2 := Node(2, Nil, Leaf(2), 1);
    assert InOrder(t2) == [1, 2];
    assert InOrder(Leaf(2)) == [2];
    assert InsertRecursive(Id, Leaf(2), Leaf(3)) == Balance(Node(1, Nil, Leaf(3), 2));
    assert Balance(Node(1, Nil, Leaf(3), 2)) == Node(2, Nil, Leaf(3), 2);
  }

  lemma AscendingHeights()
    ensures CalculateHeight(Node(2, Nil, Node(2, Nil, Leaf(3), 2), 1)) == Node(3, Nil, Node(2, Nil, Leaf(3), 2), 1)
    ensures CalculateBalance(Node(3, Nil, Node(2, Nil, Leaf(3), 2), 1)) == -2
    ensures CalculateBalance(Node(2, Nil, Leaf(3), 2)) == -1
  {
  }

  lemma AscendingRotation()
    ensures RotateLeft(Node(3, Nil, Node(2, Nil, Leaf(3), 2), 1)) == Node(2, Leaf(1), Leaf(3), 2)
  {
    assert RotateLeft(Node(3, Nil, Node(2, Nil, Leaf(3), 2), 1))
           == RotateOneSide(Node(3, Nil, Node(2, Nil, Leaf(3), 2), 1), Left);
  }

  /** Keys 1, 2, 3 inserted in ascending order end as 2 over 1 and 3 (one left rotation). */
  lemma AscendingInsertsRotateLeft()
    ensures 3 !in Keys(Id, Node(2, Nil, Leaf(2), 1))
    ensures InsertRecursive(Id, Node(2, Nil, Leaf(2), 1), Leaf(3)) == Node(2, Leaf(1), Leaf(3), 2)
  {
    var u := Node(2, Nil, Node(2, Nil, Leaf(3), 2), 1);
    AscendingThirdDescent();
    AscendingHeights();
    AscendingRotation();
    assert Balance(u) == RotateLeft(CalculateHeight(u));
  }

  /** Keys 3 then 1: the second key becomes the left child, no rotation. */
  lemma ZigZagFirstTwo()
    ensures 3 !in Keys(Id, Nil) && InsertRecursive(Id, Nil, Leaf(3)) == Leaf(3)
    ensures 1 !in Keys(Id, Leaf(3)) && InsertRecursive(Id, Leaf(3), Leaf(1)) == Node(2, Leaf(1), Nil, 3)
  {
    assert InOrder(Leaf(3)) == [3];
    assert InsertRecursive(Id, Leaf(3), Leaf(1)) == Balance(Node(1, Leaf(1), Nil, 3));
  }

  /** Inserting 2 under 3 and 1 descends left then right before rebalancing. */
  lemma ZigZagThirdDescent()
    ensures 2 !in Keys(Id, Node(2, Leaf(1), Nil, 3))
    ensures InsertRecursive(Id, Node(2, Leaf(1), Nil, 3), Leaf(2))
            == Balance(Node(2, Node(2, Nil, Leaf(2), 1), Nil, 3))
  {
    var t2 := Node(2, Leaf(1), Nil, 3);
    assert InOrder(t2) == [1, 3];
    assert InOrder(Leaf(1)) == [1];
    assert InsertRecursive(Id, Leaf(1), Leaf(2)) == Balance(Node(1, Nil, Leaf(2), 1));
    assert Balance(Node(1, Nil, Leaf(2), 1)) == Node(2, Nil, Leaf(2), 1);
  }

  lemma ZigZagHeights()
    ensures CalculateHeight(Node(2, Node(2, Nil, Leaf(2), 1), Nil, 3)) == Node(3, Node(2, Nil, Leaf(2), 1), Nil, 3)
    ensures CalculateBalance(Node(3, Node(2, Nil, Leaf(2), 1), Nil, 3)) == 2
    ensures CalculateBalance(Node(2, Nil, Leaf(2), 1)) == -1
  {
  }

  lemma ZigZagInnerRotation()
    ensures RotateLeft(Node(2, Nil, Leaf(2), 1)) == Node(2, Leaf(1), Nil, 2)
  {
    assert RotateLeft(Node(2, Nil, Leaf(2), 1)) == RotateOneSide(Node(2, Nil, Leaf(2), 1), Left);
  }

  lemma ZigZagOuterRotation()
    ensures RotateRight(Node(3, Node(2, Leaf(1), Nil, 2), Nil, 3)) == Node(2, Leaf(1), Leaf(3), 2)
  {
    assert RotateRight(Node(3, Node(2, Leaf(1), Nil, 2), Nil, 3))
           == RotateOneSide(Node(3, Node(2, Leaf(1), Nil, 2), Nil, 3), Right);
  }

  /** The rebalancing step of the zig-zag insertion picks the left-right rotation. */
  lemma ZigZagRebalance()
    ensures Balance(Node(2, Node(2, Nil, Leaf(2), 1), Nil, 3)) == Node(2, Leaf(1), Leaf(3), 2)
  {
    var u := Node(2, Node(2, Nil, Leaf(2), 1), Nil, 3);
    var g := Node(3, Node(2, Nil, Leaf(2), 1), Nil, 3);
    ZigZagHeights();
    ZigZagInnerRotation();
    ZigZagOuterRotation();
    assert Balance(u) == RotateLeftRight(g);
    assert SetChild(g, Left, RotateLeft(g.left)) == Node(3, Node(2, Leaf(1), Nil, 2), Nil, 3);
  }

  /** Keys 3, 1, 2 end as 2 over 1 and 3 (one left-right double rotation). */
  lemma ZigZagInsertsRotateLeftRight()
    ensures 2 !in Keys(Id, Node(2, Leaf(1), Nil, 3))
    ensures InsertRecursive(Id, Node(2, Leaf(1), Nil, 3), Leaf(2)) == Node(2, Leaf(1), Leaf(3), 2)
  {
    ZigZagThirdDescent();
    ZigZagRebalance();
  }

  /** Keys 3 then 2: the second key becomes the left child, no rotation. */
  lemma DescendingFirstTwo()
    ensures 3 !in Keys(Id, Nil) && InsertRecursive(Id, Nil, Leaf(3)) == Leaf(3)
    ensures 2 !in Keys(Id, Leaf(3)) && InsertRecursive(Id, Leaf(3), Leaf(2)) == Node(2, Leaf(2), Nil, 3)
  {
    assert InOrder(Leaf(3)) == [3];
    assert InsertRecursive(Id, Leaf(3), Leaf(2)) == Balance(Node(1, Leaf(2), Nil, 3));
  }

  /** Inserting 1 under 3 and 2 descends left twice before rebalancing. */
  lemma DescendingThirdDescent()
    ensures 1 !in Keys(Id, Node(2, Leaf(2), Nil, 3))
    ensures InsertRecursive(Id, Node(2, Leaf(2), Nil, 3), Leaf(1))
            == Balance(Node(2, Node(2, Leaf(1), Nil, 2), Nil, 3))
  {
    var t2 := Node(2, Leaf(2), Nil, 3);
    assert InOrder(t2) == [2, 3];
    assert InOrder(Leaf(2)) == [2];
    assert InsertRecursive(Id, Leaf(2), Leaf(1)) == Balance(Node(1, Leaf(1), Nil, 2));
    assert Balance(Node(1, Leaf(1), Nil, 2)) == Node(2, Leaf(1), Nil, 2);
  }

  lemma DescendingHeights()
    ensures CalculateHeight(Node(2, Node(2, Leaf(1), Nil, 2), Nil, 3)) == Node(3, Node(2, Leaf(1), Nil, 2), Nil, 3)
    ensures CalculateBalance(Node(3, Node(2, Leaf(1), Nil, 2), Nil, 3)) == 2
    ensures CalculateBalance(Node(2, Leaf(1), Nil, 2)) == 1
  {
  }

  /** The rebalancing step of the descending insertion picks the single right rotation. */
  lemma DescendingRebalance()
    ensures Balance(Node(2, Node(2, Leaf(1), Nil, 2), Nil, 3)) == Node(2, Leaf(1), Leaf(3), 2)
  {
    var u := Node(2, Node(2, Leaf(1), Nil, 2), Nil, 3);
    DescendingHeights();
    ZigZagOuterRotation();
    assert Balance(u) == RotateRight(Node(3, Node(2, Leaf(1), Nil, 2), Nil, 3));
  }

  /** Keys 3, 2, 1 end as 2 over 1 and 3 (one right rotation). */
  lemma DescendingInsertsRotateRight()
    ensures 1 !in Keys(Id, Node(2, Leaf(2), Nil, 3))
    ensures InsertRecursive(Id, Node(2, Leaf(2), Nil, 3), Leaf(1)) == Node(2, Leaf(1), Leaf(3), 2)
  {
    DescendingThirdDescent();
    DescendingRebalance();
  }

  /** Keys 1 then 3: the second key becomes the right child, no rotation. */
  lemma ZagZigFirstTwo()
    ensures 1 !in Keys(Id, Nil) && InsertRecursive(Id, Nil, Leaf(1)) == Leaf(1)
    ensures 3 !in Keys(Id, Leaf(1)) && InsertRecursive(Id, Leaf(1), Leaf(3)) == Node(2, Nil, Leaf(3), 1)
  {
    assert InOrder(Leaf(1)) == [1];
    assert InsertRecursive(Id, Leaf(1), Leaf(3)) == Balance(Node(1, Nil, Leaf(3), 1));
  }

  /** Inserting 2 under 1 and 3 descends right then left before rebalancing. */
  lemma ZagZigThirdDescent()
    ensures 2 !in Keys(Id, Node(2, Nil, Leaf(3), 1))
    ensures InsertRecursive(Id, Node(2, Nil, Leaf(3), 1), Leaf(2))
            == Balance(Node(2, Nil, Node(2, Leaf(2), Nil, 3), 1))
  {
    var t2 := Node(2, Nil, Leaf(3), 1);
    assert InOrder(t2) == [1, 3];
    assert InOrder(Leaf(3)) == [3];
    assert InsertRecursive(Id, Leaf(3), Leaf(2)) == Balance(Node(1, Leaf(2), Nil, 3));
    assert Balance(Node(1, Leaf(2), Nil, 3)) == Node(2, Leaf(2), Nil, 3);
  }

  lemma ZagZigHeights()
    ensures CalculateHeight(Node(2, Nil, Node(2, Leaf(2), Nil, 3), 1)) == Node(3, Nil, Node(2, Leaf(2), Nil, 3), 1)
    ensures CalculateBalance(Node(3, Nil, Node(2, Leaf(2), Nil, 3), 1)) == -2
    ensures CalculateBalance(Node(2, Leaf(2), Nil, 3)) == 1
  {
  }

  lemma ZagZigInnerRotation()
    ensures RotateRight(Node(2, Leaf(2), Nil, 3)) == Node(2, Nil, Leaf(3), 2)
  {
    assert RotateRight(Node(2, Leaf(2), Nil, 3)) == RotateOneSide(Node(2, Leaf(2), Nil, 3), Right);
  }

  lemma ZagZigOuterRotation()
    ensures RotateLeft(Node(3, Nil, Node(2, Nil, Leaf(3), 2), 1)) == Node(2, Leaf(1), Leaf(3), 2)
  {
    AscendingRotation();
  }

  /** The rebalancing step of the mirrored zig-zag insertion picks the right-left rotation. */
  lemma ZagZigRebalance()
    ensures Balance(Node(2, Nil, Node(2, Leaf(2), Nil, 3), 1)) == Node(2, Leaf(1), Leaf(3), 2)
  {
    var u := Node(2, Nil, Node(2, Leaf(2), Nil, 3), 1);
    var g := Node(3, Nil, Node(2, Leaf(2), Nil, 3), 1);
    ZagZigHeights();
    ZagZigInnerRotation();
    ZagZigOuterRotation();
    assert Balance(u) == RotateRightLeft(g);
    assert SetChild(g, Right, RotateRight(g.right)) == Node(3, Nil, Node(2, Nil, Leaf(3), 2), 1);
  }

  /** Keys 1, 3, 2 end as 2 over 1 and 3 (one right-left double rotation). */
  lemma ZagZigInsertsRotateRightLeft()
    ensures 2 !in Keys(Id, Node(2, Nil, Leaf(3), 1))
    ensures InsertRecursive(Id, Node(2, Nil, Leaf(3), 1), Leaf(2)) == Node(2, Leaf(1), Leaf(3), 2)
  {
    ZagZigThirdDescent();
    ZagZigRebalance();
  }

  /** The two-level tree with 2, 4 at its top and 1, 3, 5 below, as built by FiveKeysBuiltByInsertion. */
  function FiveKeys(): Tree<int>
  {
    Node(3, Leaf(1), Node(2, Leaf(3), Leaf(5), 4), 2)
  }

  /** Keys 2 then 1: the second key becomes the left child, no rotation. */
  lemma FiveKeysFirstTwo()
    ensures 2 !in Keys(Id, Nil) && InsertRecursive(Id, Nil, Leaf(2)) == Leaf(2)
    ensures 1 !in Keys(Id, Leaf(2)) && InsertRecursive(Id, Leaf(2), Leaf(1)) == Node(2, Leaf(1), Nil, 2)
  {
    assert InOrder(Leaf(2)) == [2];
    assert InsertRecursive(Id, Leaf(2), Leaf(1)) == Balance(Node(1, Leaf(1), Nil, 2));
  }

  /** Then 4 becomes the right child of 2. */
  lemma FiveKeysThird()
    ensures 4 !in Keys(Id, Node(2, Leaf(1), Nil, 2))
    ensures InsertRecursive(Id, Node(2, Leaf(1), Nil, 2), Leaf(4)) == Node(2, Leaf(1), Leaf(4), 2)
  {
    var t := Node(2, Leaf(1), Nil, 2);
    assert InOrder(t) == [1, 2];
    assert InsertRecursive(Id, t, Leaf(4)) == Balance(Node(2, Leaf(1), Leaf(4), 2));
    assert CalculateHeight(Node(2, Leaf(1), Leaf(4), 2)) == Node(2, Leaf(1), Leaf(4), 2);
  }

  /** Then 3 goes under 4, and the root leans right by one: no rotation. */
  lemma FiveKeysFourth()
    ensures 3 !in Keys(Id, Node(2, Leaf(1), Leaf(4), 2))
    ensures InsertRecursive(Id, Node(2, Leaf(1), Leaf(4), 2), Leaf(3))
            == Node(3, Leaf(1), Node(2, Leaf(3), Nil, 4), 2)
  {
    var t := Node(2, Leaf(1), Leaf(4), 2);
    assert InOrder(Leaf(4)) == [4];
    assert InOrder(t) == [1, 2, 4];
    assert InsertRecursive(Id, Leaf(4), Leaf(3)) == Balance(Node(1, Leaf(3), Nil, 4));
    assert Balance(Node(1, Leaf(3), Nil, 4)) == Node(2, Leaf(3), Nil, 4);
    var u := Node(2, Leaf(1), Node(2, Leaf(3), Nil, 4), 2);
    assert InsertRecursive(Id, t, Leaf(3)) == Balance(u);
    assert CalculateHeight(u) == Node(3, Leaf(1), Node(2, Leaf(3), Nil, 4), 2);
  }

  /** Inside the fifth insertion, 5 becomes the right child of 4. */
  lemma FiveKeysFifthDescent()
    ensures InsertRecursive(Id, Node(2, Leaf(3), Nil, 4), Leaf(5)) == Node(2, Leaf(3), Leaf(5), 4)
  {
    var r := Node(2, Leaf(3), Nil, 4);
    assert InsertRecursive(Id, r, Leaf(5)) == Balance(Node(2, Leaf(3), Leaf(5), 4));
    assert CalculateHeight(Node(2, Leaf(3), Leaf(5), 4)) == Node(2, Leaf(3), Leaf(5), 4);
  }

  lemma FiveKeysHeights()
    ensures CalculateHeight(FiveKeys()) == FiveKeys()
    ensures CalculateBalance(FiveKeys()) == -1
  {
  }

  /** Finally 5 goes under 4 and no node needs a rotation. */
  lemma FiveKeysFifth()
    ensures 5 !in Keys(Id, Node(3, Leaf(1), Node(2, Leaf(3), Nil, 4), 2))
    ensures InsertRecursive(Id, Node(3, Leaf(1), Node(2, Leaf(3), Nil, 4), 2), Leaf(5)) == FiveKeys()
  {
    var t := Node(3, Leaf(1), Node(2, Leaf(3), Nil, 4), 2);
    assert InOrder(Node(2, Leaf(3), Nil, 4)) == [3, 4];
    assert InOrder(t) == [1, 2, 3, 4];
    FiveKeysFifthDescent();
    FiveKeysHeights();
    assert InsertRecursive(Id, t, Leaf(5)) == Balance(FiveKeys());
  }

  /** Inserting 2, 1, 4, 3, 5 into an empty tree builds the five-key tree. */
  lemma FiveKeysBuiltByInsertion()
    ensures 2 !in Keys(Id, Nil) && InsertRecursive(Id, Nil, Leaf(2)) == Leaf(2)
    ensures 1 !in Keys(Id, Leaf(2)) && InsertRecursive(Id, Leaf(2), Leaf(1)) == Node(2, Leaf(1), Nil, 2)
    ensures 4 !in Keys(Id, Node(2, Leaf(1), Nil, 2))
    ensures InsertRecursive(Id, Node(2, Leaf(1), Nil, 2), Leaf(4)) == Node(2, Leaf(1), Leaf(4), 2)
    ensures 3 !in Keys(Id, Node(2, Leaf(1), Leaf(4), 2))
    ensures InsertRecursive(Id, Node(2, Leaf(1), Leaf(4), 2), Leaf(3)) == Node(3, Leaf(1), Node(2, Leaf(3), Nil, 4), 2)
    ensures 5 !in Keys(Id, Node(3, Leaf(1), Node(2, Leaf(3), Nil, 4), 2))
    ensures InsertRecursive(Id, Node(3, Leaf(1), Node(2, Leaf(3), Nil, 4), 2), Leaf(5)) == FiveKeys()
  {
    FiveKeysFirstTwo();
    FiveKeysThird();
    FiveKeysFourth();
    FiveKeysFifth();
  }

  lemma LeafIsAvlShaped(x: int)
    ensures HeightsOk(Leaf(x)) && Balanced(Leaf(x)) && Height(Leaf(x)) == 1
    ensures InOrder(Leaf(x)) == [x]
  {
  }

  /** Any five ascending keys in the five-key shape form an AVL tree. */
  lemma FiveKeyShapeIsAvl(a: int, b: int, c: int, d: int, e: int)
    requires a < b < c < d < e
    ensures Avl(Id, Node(3, Leaf(a), Node(2, Leaf(c), Leaf(e), d), b))
  {
    LeafIsAvlShaped(a);
    LeafIsAvlShaped(c);
    LeafIsAvlShaped(e);
    var r := Node(2, Leaf(c), Leaf(e), d);
    var t := Node(3, Leaf(a), r, b);
    assert InOrder(r) == [c, d, e];
    assert InOrder(t) == [a, b, c, d, e];
    AscendingInOrderOrdered(Id, t);
  }

  /** The five-key tree is an AVL tree. */
  lemma FiveKeysIsAvl()
    ensures Avl(Id, FiveKeys())
  {
    FiveKeyShapeIsAvl(1, 2, 3, 4, 5);
  }

  /** Removing the root 2 moves its predecessor 1 up, leaving a right-heavy node. */
  lemma TwoChildRemovalDescent()
    ensures RemoveRecursive(Id, FiveKeys(), 2) == Balance(Node(3, Nil, Node(2, Leaf(3), Leaf(5), 4), 1))
  {
    var t := FiveKeys();
    assert DiveAndRemoveRecursive(Leaf(1)) == (Nil, 1);
    assert RemoveRecursive(Id, t, 2) == RemoveWithTwoChildren(t);
  }

  lemma TwoChildRemovalHeights()
    ensures CalculateHeight(Node(3, Nil, Node(2, Leaf(3), Leaf(5), 4), 1)) == Node(3, Nil, Node(2, Leaf(3), Leaf(5), 4), 1)
    ensures CalculateBalance(Node(3, Nil, Node(2, Leaf(3), Leaf(5), 4), 1)) == -2
    ensures CalculateBalance(Node(2, Leaf(3), Leaf(5), 4)) == 0
  {
  }

  lemma TwoChildRemovalRotation()
    ensures RotateLeft(Node(3, Nil, Node(2, Leaf(3), Leaf(5), 4), 1)) == Node(3, Node(2, Nil, Leaf(3), 1), Leaf(5), 4)
  {
    assert RotateLeft(Node(3, Nil, Node(2, Leaf(3), Leaf(5), 4), 1))
           == RotateOneSide(Node(3, Nil, Node(2, Leaf(3), Leaf(5), 4), 1), Left);
  }

  /**
   * Removing the two-child root 2 from the five-key tree: the predecessor 1
   * overwrites it, the node is then right heavy with a right child of
   * balance 0, and the tie-break picks a single left rotation, so 4 becomes
   * the root (a double rotation would put 3 there).
   */
  lemma TwoChildRemovalUsesSingleRotation()
    ensures RemoveRecursive(Id, FiveKeys(), 2) == Node(3, Node(2, Nil, Leaf(3), 1), Leaf(5), 4)
  {
    var u := Node(3, Nil, Node(2, Leaf(3), Leaf(5), 4), 1);
    TwoChildRemovalDescent();
    TwoChildRemovalHeights();
    TwoChildRemovalRotation();
    assert Balance(u) == RotateLeft(u);
  }
}
