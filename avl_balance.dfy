/**
 * The rotation engine and the one-node rebalancing step of src/avl_tree.c.
 * Each function takes the node that sits at some position and returns the
 * node that should sit there afterwards, as the C functions return the new
 * subtree root.
 */
module AvlBalance {
  import opened AvlNode

  /**
   * Single rotation toward `side`: the grandparent's child on the other
   * side is promoted, its near-side subtree moves under the grandparent,
   * and both touched nodes get their heights recomputed, grandparent first.
   */
  function RotateOneSide<T>(grandparent: Tree<T>, side: Side): (r: Tree<T>)
    requires grandparent.Node? && GetChild(grandparent, Opposite(side)).Node?
    ensures r.Node? && InOrder(r) == InOrder(grandparent)
  {
    var parent := GetChild(grandparent, Opposite(side));
    var lowered := CalculateHeight(SetChild(grandparent, Opposite(side), GetChild(parent, side)));
    CalculateHeight(SetChild(parent, side, lowered))
  }

  /** Left rotation: the right child becomes the subtree root. */
  function RotateLeft<T>(g: Tree<T>): (r: Tree<T>)
    requires g.Node? && g.right.Node?
    ensures r.Node? && r.left.Node?
    ensures r.data == g.right.data && r.right == g.right.right
    ensures r.left.data == g.data && r.left.left == g.left && r.left.right == g.right.left
    ensures InOrder(r) == InOrder(g)
    ensures HeightsOk(g.left) && HeightsOk(g.right.left) && HeightsOk(g.right.right) ==> HeightsOk(r)
  {
    RotateOneSide(g, Left)
  }

  /** Right rotation: the left child becomes the subtree root. */
  function RotateRight<T>(g: Tree<T>): (r: Tree<T>)
    requires g.Node? && g.left.Node?
    ensures r.Node? && r.right.Node?
    ensures r.data == g.left.data && r.left == g.left.left
    ensures r.right.data == g.data && r.right.left == g.left.right && r.right.right == g.right
    ensures InOrder(r) == InOrder(g)
    ensures HeightsOk(g.left.left) && HeightsOk(g.left.right) && HeightsOk(g.right) ==> HeightsOk(r)
  {
    RotateOneSide(g, Right)
  }

  /**
   * Left-right double rotation: left-rotate the left child, then
   * right-rotate the grandparent. The left child's right child ends on top.
   */
  function RotateLeftRight<T>(g: Tree<T>): (r: Tree<T>)
    requires g.Node? && g.left.Node? && g.left.right.Node?
    ensures r.Node? && r.left.Node? && r.right.Node?
    ensures r.data == g.left.right.data
    ensures r.left.data == g.left.data && r.left.left == g.left.left && r.left.right == g.left.right.left
    ensures r.right.data == g.data && r.right.left == g.left.right.right && r.right.right == g.right
    ensures InOrder(r) == InOrder(g)
    ensures (HeightsOk(g.left.left) && HeightsOk(g.left.right.left) && HeightsOk(g.left.right.right)
             && HeightsOk(g.right)) ==> HeightsOk(r)
  {
    var parent := g.left;
    var g' := SetChild(g, Left, RotateLeft(parent));
    RotateRight(g')
  }

  /**
   * Right-left double rotation: right-rotate the right child, then
   * left-rotate the grandparent. The right child's left child ends on top.
   */
  function RotateRightLeft<T>(g: Tree<T>): (r: Tree<T>)
    requires g.Node? && g.right.Node? && g.right.left.Node?
    ensures r.Node? && r.left.Node? && r.right.Node?
    ensures r.data == g.right.left.data
    ensures r.left.data == g.data && r.left.left == g.left && r.left.right == g.right.left.left
    ensures r.right.data == g.right.data && r.right.left == g.right.left.right && r.right.right == g.right.right
    ensures InOrder(r) == InOrder(g)
    ensures (HeightsOk(g.left) && HeightsOk(g.right.left.left) && HeightsOk(g.right.left.right)
             && HeightsOk(g.right.right)) ==> HeightsOk(r)
  {
    var parent := g.right;
    var g' := SetChild(g, Right, RotateRight(parent));
    RotateLeft(g')
  }

  /**
   * Rebalances one node: recompute its height, then, if the cached child
   * heights differ by more than one, apply the one rotation the AVL rule
   * picks. A heavy side whose own balance is 0 gets the single rotation.
   */
  function Balance<T>(t: Tree<T>): (r: Tree<T>)
    requires t.Node?
    ensures r.Node? && InOrder(r) == InOrder(t)
  {
    var node := CalculateHeight(t);
    var difference := CalculateBalance(node);
    if difference > 1 then
      if CalculateBalance(node.left) >= 0 then RotateRight(node) else RotateLeftRight(node)
    else if difference < -1 then
      if CalculateBalance(node.right) <= 0 then RotateLeft(node) else RotateRightLeft(node)
    else
      node
  }

  // ---------------------------------------------------------------------
  // Correctness of Balance

  /**
   * A right rotation repairs a node whose left child is two taller than its
   * right child and is itself not right-heavy (the single-rotation case,
   * including the tie where the left child's balance is 0).
   */
  lemma RotateRightRebalances<T>(g: Tree<T>)
    requires g.Node? && g.left.Node?
    requires HeightsOk(g.left) && HeightsOk(g.right) && Balanced(g.left) && Balanced(g.right)
    requires Height(g.left) == Height(g.right) + 2
    requires Height(g.left.left) >= Height(g.left.right)
    ensures HeightsOk(RotateRight(g)) && Balanced(RotateRight(g))
    ensures Height(g.left) <= Height(RotateRight(g)) <= Height(g.left) + 1
  {
    var res := RotateRight(g);
    assert Height(res.right) == 1 + Max(Height(g.left.right), Height(g.right));
  }

  /** Mirror image: a left rotation repairs a right-heavy node whose right child is not left-heavy. */
  lemma RotateLeftRebalances<T>(g: Tree<T>)
    requires g.Node? && g.right.Node?
    requires HeightsOk(g.left) && HeightsOk(g.right) && Balanced(g.left) && Balanced(g.right)
    requires Height(g.right) == Height(g.left) + 2
    requires Height(g.right.right) >= Height(g.right.left)
    ensures HeightsOk(RotateLeft(g)) && Balanced(RotateLeft(g))
    ensures Height(g.right) <= Height(RotateLeft(g)) <= Height(g.right) + 1
  {
    var res := RotateLeft(g);
    assert Height(res.left) == 1 + Max(Height(g.left), Height(g.right.left));
  }

  /**
   * A left-right rotation repairs a node whose left child is two taller
   * than its right child and is right-heavy; the result is exactly as tall
   * as that left child.
   */
  lemma RotateLeftRightRebalances<T>(g: Tree<T>)
    requires g.Node? && g.left.Node?
    requires HeightsOk(g.left) && HeightsOk(g.right) && Balanced(g.left) && Balanced(g.right)
    requires Height(g.left) == Height(g.right) + 2
    requires Height(g.left.left) < Height(g.left.right)
    ensures g.left.right.Node?
    ensures HeightsOk(RotateLeftRight(g)) && Balanced(RotateLeftRight(g))
    ensures Height(RotateLeftRight(g)) == Height(g.left)
  {
    var res := RotateLeftRight(g);
    var m := g.left.right;
    assert Height(res.left) == 1 + Max(Height(g.left.left), Height(m.left));
    assert Height(res.right) == 1 + Max(Height(m.right), Height(g.right));
  }

  /** Mirror image: a right-left rotation repairs a right-heavy node whose right child is left-heavy. */
  lemma RotateRightLeftRebalances<T>(g: Tree<T>)
    requires g.Node? && g.right.Node?
    requires HeightsOk(g.left) && HeightsOk(g.right) && Balanced(g.left) && Balanced(g.right)
    requires Height(g.right) == Height(g.left) + 2
    requires Height(g.right.right) < Height(g.right.left)
    ensures g.right.left.Node?
    ensures HeightsOk(RotateRightLeft(g)) && Balanced(RotateRightLeft(g))
    ensures Height(RotateRightLeft(g)) == Height(g.right)
  {
    var res := RotateRightLeft(g);
    var m := g.right.left;
    assert Height(res.left) == 1 + Max(Height(g.left), Height(m.left));
    assert Height(res.right) == 1 + Max(Height(m.right), Height(g.right.right));
  }

  /**
   * Given children that are height-correct and balanced and whose heights
   * differ by at most two, Balance yields a height-correct balanced subtree.
   * Within a difference of one it only recomputes the height; otherwise the
   * height ends between the taller child's height and one more.
   */
  lemma BalanceRestoresAvl<T>(t: Tree<T>)
    requires t.Node?
    requires HeightsOk(t.left) && HeightsOk(t.right) && Balanced(t.left) && Balanced(t.right)
    requires -2 <= Height(t.left) - Height(t.right) <= 2
    ensures HeightsOk(Balance(t)) && Balanced(Balance(t))
    ensures -1 <= Height(t.left) - Height(t.right) <= 1 ==>
              Balance(t) == CalculateHeight(t) && Height(Balance(t)) == 1 + Max(Height(t.left), Height(t.right))
    ensures Max(Height(t.left), Height(t.right)) <= Height(Balance(t)) <= 1 + Max(Height(t.left), Height(t.right))
  {
    var node := CalculateHeight(t);
    var l, r := t.left, t.right;
    var hl: int, hr: int := Height(l), Height(r);
    assert CalculateBalance(node) == hl - hr;
    if hl - hr > 1 {
      assert CalculateBalance(l) == Height(l.left) - Height(l.right);
      if Height(l.left) >= Height(l.right) {
        RotateRightRebalances(node);
      } else {
        RotateLeftRightRebalances(node);
      }
    } else if hl - hr < -1 {
      assert CalculateBalance(r) == Height(r.left) - Height(r.right);
      if Height(r.left) <= Height(r.right) {
        RotateLeftRebalances(node);
      } else {
        RotateRightLeftRebalances(node);
      }
    }
  }

  /**
   * Which repair Balance applies, read off the true heights once the
   * children's cached heights are right: none within a difference of one;
   * on a left excess a single right rotation unless the left child leans
   * right, then a left-right rotation; mirrored on a right excess. A heavy
   * child with balance 0 gets the single rotation.
   */
  lemma BalanceChoosesRotation<T>(t: Tree<T>)
    requires t.Node? && HeightsOk(t.left) && HeightsOk(t.right)
    ensures -1 <= Height(t.left) - Height(t.right) <= 1 ==> Balance(t) == CalculateHeight(t)
    ensures Height(t.left) - Height(t.right) > 1 && Height(t.left.left) >= Height(t.left.right) ==>
              Balance(t) == RotateRight(CalculateHeight(t))
    ensures Height(t.left) - Height(t.right) > 1 && Height(t.left.left) < Height(t.left.right) ==>
              Balance(t) == RotateLeftRight(CalculateHeight(t))
    ensures Height(t.left) - Height(t.right) < -1 && Height(t.right.right) >= Height(t.right.left) ==>
              Balance(t) == RotateLeft(CalculateHeight(t))
    ensures Height(t.left) - Height(t.right) < -1 && Height(t.right.right) < Height(t.right.left) ==>
              Balance(t) == RotateRightLeft(CalculateHeight(t))
  {
    var node := CalculateHeight(t);
    assert CalculateBalance(node) == Height(t.left) - Height(t.right);
    if t.left.Node? {
      assert CalculateBalance(t.left) == Height(t.left.left) - Height(t.left.right);
    }
    if t.right.Node? {
      assert CalculateBalance(t.right) == Height(t.right.left) - Height(t.right.right);
    }
  }

  /** Balance keeps the binary search property. */
  lemma BalanceKeepsOrder<T>(key: T -> int, t: Tree<T>)
    requires t.Node? && Ordered(key, t)
    ensures Ordered(key, Balance(t))
  {
    OrderedInOrderAscending(key, t);
    AscendingInOrderOrdered(key, Balance(t));
  }

  /**
   * The step every insertion and removal ends with: a node whose two
   * subtrees are AVL trees on either side of its payload, with heights at
   * most two apart, is rebalanced into an AVL tree.
   */
  lemma BalanceKeepsAvl<T>(key: T -> int, t: Tree<T>)
    requires t.Node? && Avl(key, t.left) && Avl(key, t.right)
    requires forall x :: x in InOrder(t.left) ==> key(x) < key(t.data)
    requires forall x :: x in InOrder(t.right) ==> key(t.data) < key(x)
    requires -2 <= Height(t.left) - Height(t.right) <= 2
    ensures Avl(key, Balance(t))
    ensures -1 <= Height(t.left) - Height(t.right) <= 1 ==> Height(Balance(t)) == 1 + Max(Height(t.left), Height(t.right))
    ensures Max(Height(t.left), Height(t.right)) <= Height(Balance(t)) <= 1 + Max(Height(t.left), Height(t.right))
  {
    BalanceRestoresAvl(t);
    BalanceKeepsOrder(key, t);
  }

  /**
   * Rebalancing after the right subtree of an AVL node was replaced by an
   * AVL tree of keys above the node's, at most one level taller or shorter:
   * the result is an AVL tree, and its height moves in the same direction
   * as the subtree's, by at most one.
   */
  lemma RebalanceAfterRightEdit<T>(key: T -> int, t: Tree<T>, sub: Tree<T>)
    requires t.Node? && Avl(key, t) && Avl(key, sub)
    requires forall x :: x in InOrder(sub) ==> key(t.data) < key(x)
    requires Height(t.right) - 1 <= Height(sub) <= Height(t.right) + 1
    ensures Avl(key, Balance(t.(right := sub)))
    ensures Height(t) - 1 <= Height(Balance(t.(right := sub))) <= Height(t) + 1
    ensures Height(sub) >= Height(t.right) ==> Height(Balance(t.(right := sub))) >= Height(t)
    ensures Height(sub) <= Height(t.right) ==> Height(Balance(t.(right := sub))) <= Height(t)
  {
    BalanceKeepsAvl(key, t.(right := sub));
  }

  /** Mirror image of RebalanceAfterRightEdit for the left subtree. */
  lemma RebalanceAfterLeftEdit<T>(key: T -> int, t: Tree<T>, sub: Tree<T>)
    requires t.Node? && Avl(key, t) && Avl(key, sub)
    requires forall x :: x in InOrder(sub) ==> key(x) < key(t.data)
    requires Height(t.left) - 1 <= Height(sub) <= Height(t.left) + 1
    ensures Avl(key, Balance(t.(left := sub)))
    ensures Height(t) - 1 <= Height(Balance(t.(left := sub))) <= Height(t) + 1
    ensures Height(sub) >= Height(t.left) ==> Height(Balance(t.(left := sub))) >= Height(t)
    ensures Height(sub) <= Height(t.left) ==> Height(Balance(t.(left := sub))) <= Height(t)
  {
    BalanceKeepsAvl(key, t.(left := sub));
  }

  /**
   * Balance on a node whose invariants already hold changes nothing: the
   * recomputed height equals the cached one and no rotation fires.
   */
  lemma BalanceOfAvlNodeIsIdentity<T>(t: Tree<T>)
    requires t.Node? && HeightsOk(t) && Balanced(t)
    ensures Balance(t) == t
  {
    assert CalculateHeight(t) == t;
  }
}
