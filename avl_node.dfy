/**
 * Nodes of the AVL tree, the comparator, and the height utilities of
 * src/avl_tree.c, together with the specification functions (in-order
 * sequence, payload and key sets, true height) and the tree invariants
 * (search order, correct cached heights, height balance).
 */
module AvlNode {

  /** The two child slots of a node. */
  datatype Side = Left | Right

  function Opposite(side: Side): (o: Side)
    ensures o != side
  {
    if side == Left then Right else Left
  }

  /**
   * A node: its cached height, its two owned children and the payload it
   * stores. `Nil` is the absent (NULL) node. The height field is a cache:
   * nothing forces it to agree with the shape; HeightsOk says when it does.
   */
  datatype Tree<T> = Nil | Node(height: nat, left: Tree<T>, right: Tree<T>, data: T)

  /** The child in one slot of a node. */
  function GetChild<T>(t: Tree<T>, side: Side): (c: Tree<T>)
    requires t.Node?
    ensures side == Left ==> c == t.left
    ensures side == Right ==> c == t.right
  {
    if side == Left then t.left else t.right
  }

  /** Overwrites one child slot and leaves height, payload and the other slot alone. */
  function SetChild<T>(t: Tree<T>, side: Side, c: Tree<T>): (r: Tree<T>)
    requires t.Node?
    ensures r.Node? && r.height == t.height && r.data == t.data
    ensures GetChild(r, side) == c && GetChild(r, Opposite(side)) == GetChild(t, Opposite(side))
  {
    if side == Left then t.(left := c) else t.(right := c)
  }

  /**
   * The caller's comparator `cmp(a, b)`. A comparator that is a total order
   * on payloads is represented by the integer key it orders them by: the
   * result is negative, zero or positive as `key(a)` is below, equal to or
   * above `key(b)`. Distinct payloads may share a key (compare equal).
   */
  function Compare<T>(key: T -> int, a: T, b: T): (c: int)
    ensures c < 0 <==> key(a) < key(b)
    ensures c == 0 <==> key(a) == key(b)
    ensures c > 0 <==> key(b) < key(a)
  {
    if key(a) < key(b) then -1 else if key(a) == key(b) then 0 else 1
  }

  /**
   * Swapping the arguments flips the sign. Insertion calls the comparator
   * as cmp(existing, new) and goes right on a negative result, while lookup
   * and removal call cmp(query, existing) and go right on a positive one;
   * this is why both descents send a given key to the same side.
   */
  lemma {:induction false} CompareAntisymmetric<T>(key: T -> int, a: T, b: T)
    ensures Compare(key, a, b) == -Compare(key, b, a)
    ensures Compare(key, a, b) < 0 <==> Compare(key, b, a) > 0
  {
  }

  // ---------------------------------------------------------------------
  // Specification functions and invariants

  /** The payloads in in-order (left, node, right) sequence. */
  ghost function InOrder<T>(t: Tree<T>): seq<T>
  {
    match t
    case Nil => []
    case Node(_, l, r, d) => InOrder(l) + [d] + InOrder(r)
  }

  /** The set of payloads stored in the tree. */
  ghost function Elements<T>(t: Tree<T>): set<T>
  {
    set x | x in InOrder(t)
  }

  /** The set of keys stored in the tree, under the comparator `key`. */
  ghost function Keys<T>(key: T -> int, t: Tree<T>): set<int>
  {
    set x | x in InOrder(t) :: key(x)
  }

  /** The true height: the number of nodes on the longest downward path. */
  ghost function Height<T>(t: Tree<T>): nat
  {
    match t
    case Nil => 0
    case Node(_, l, r, _) => 1 + Max(Height(l), Height(r))
  }

  /** Every cached height equals one more than the larger true child height. */
  ghost predicate HeightsOk<T>(t: Tree<T>)
  {
    match t
    case Nil => true
    case Node(h, l, r, _) => HeightsOk(l) && HeightsOk(r) && h == 1 + Max(Height(l), Height(r))
  }

  /** The AVL condition: at every node the child heights differ by at most one. */
  ghost predicate Balanced<T>(t: Tree<T>)
  {
    match t
    case Nil => true
    case Node(_, l, r, _) => Balanced(l) && Balanced(r) && -1 <= Height(l) - Height(r) <= 1
  }

  /**
   * The binary search property: every payload in a node's left subtree
   * compares strictly below the node's payload, every payload in its right
   * subtree strictly above.
   */
  ghost predicate Ordered<T>(key: T -> int, t: Tree<T>)
  {
    match t
    case Nil => true
    case Node(_, l, r, d) =>
      && Ordered(key, l) && Ordered(key, r)
      && (forall x :: x in InOrder(l) ==> key(x) < key(d))
      && (forall x :: x in InOrder(r) ==> key(d) < key(x))
  }

  /** The invariant that holds between any two public operations. */
  ghost predicate Avl<T>(key: T -> int, t: Tree<T>)
  {
    Ordered(key, t) && HeightsOk(t) && Balanced(t)
  }

  /** Strictly increasing keys along a sequence of payloads. */
  ghost predicate Ascending<T>(key: T -> int, s: seq<T>)
  {
    forall i, j :: 0 <= i < j < |s| ==> key(s[i]) < key(s[j])
  }

  // ---------------------------------------------------------------------
  // Height utilities

  function Max(a: nat, b: nat): (m: nat)
    ensures a <= m && b <= m
    ensures m == a || m == b
  {
    if a >= b then a else b
  }

  /** The cached height of a node, 0 for the absent node. */
  function GetHeight<T>(t: Tree<T>): (h: nat)
    ensures t.Nil? ==> h == 0
    ensures HeightsOk(t) ==> h == Height(t)
  {
    if t.Nil? then 0 else t.height
  }

  /**
   * Rewrites the node's cached height from its children's cached heights.
   * Once both children's caches are right, the node's cache is right too.
   */
  function CalculateHeight<T>(t: Tree<T>): (r: Tree<T>)
    requires t.Node?
    ensures r.Node? && r.left == t.left && r.right == t.right && r.data == t.data
    ensures HeightsOk(t.left) && HeightsOk(t.right) ==> HeightsOk(r) && GetHeight(r) == Height(t)
  {
    Node(1 + Max(GetHeight(t.left), GetHeight(t.right)), t.left, t.right, t.data)
  }

  /**
   * The balance factor read from the cached heights: left minus right.
   * With correct child caches it is the true height difference.
   */
  function CalculateBalance<T>(t: Tree<T>): (b: int)
    requires t.Node?
    ensures HeightsOk(t.left) && HeightsOk(t.right) ==> b == Height(t.left) - Height(t.right)
  {
    GetHeight(t.left) - GetHeight(t.right)
  }

  /** A fresh node: height 1, no children. */
  function CreateNode<T>(x: T): (n: Tree<T>)
    ensures n.Node? && n.data == x && n.left.Nil? && n.right.Nil?
    ensures InOrder(n) == [x] && HeightsOk(n) && Balanced(n) && Height(n) == 1
  {
    Node(1, Nil, Nil, x)
  }

  predicate IsFreshNode<T>(n: Tree<T>)
  {
    n.Node? && n.height == 1 && n.left.Nil? && n.right.Nil?
  }

  // ---------------------------------------------------------------------
  // Lemmas about the invariants

  /**
   * Under the search property the in-order sequence is strictly ascending:
   * an in-order walk meets the payloads in comparator order.
   */
  lemma {:induction false} OrderedInOrderAscending<T>(key: T -> int, t: Tree<T>)
    requires Ordered(key, t)
    ensures Ascending(key, InOrder(t))
  {
    match t
    case Nil =>
    case Node(_, l, r, d) =>
      OrderedInOrderAscending(key, l);
      OrderedInOrderAscending(key, r);
      var s, a, b := InOrder(t), InOrder(l), InOrder(r);
      assert s == a + [d] + b;
      forall i, j | 0 <= i < j < |s|
        ensures key(s[i]) < key(s[j])
      {
        if j < |a| {
        } else if i < |a| {
          assert s[i] in a;
          if j > |a| { assert s[j] == b[j - |a| - 1]; assert s[j] in b; }
        } else if i == |a| {
          assert s[j] == b[j - |a| - 1]; assert s[j] in b;
        } else {
          assert s[i] == b[i - |a| - 1] && s[j] == b[j - |a| - 1];
        }
      }
  }

  /**
   * Conversely, a tree whose in-order sequence is strictly ascending has the
   * search property, so the two characterisations agree.
   */
  lemma {:induction false} AscendingInOrderOrdered<T>(key: T -> int, t: Tree<T>)
    requires Ascending(key, InOrder(t))
    ensures Ordered(key, t)
  {
    match t
    case Nil =>
    case Node(_, l, r, d) =>
      var s, a, b := InOrder(t), InOrder(l), InOrder(r);
      assert s == a + [d] + b;
      assert a == s[..|a|];
      assert b == s[|a| + 1..];
      AscendingInOrderOrdered(key, l);
      AscendingInOrderOrdered(key, r);
      forall x | x in a ensures key(x) < key(d) {
        var i :| 0 <= i < |a| && a[i] == x;
        assert s[i] == x && s[|a|] == d;
      }
      forall x | x in b ensures key(d) < key(x) {
        var i :| 0 <= i < |b| && b[i] == x;
        assert s[|a| + 1 + i] == x && s[|a|] == d;
      }
  }

  /** Under the search property no two stored payloads share a key. */
  lemma OrderedKeysUnique<T>(key: T -> int, t: Tree<T>, x: T, y: T)
    requires Ordered(key, t)
    requires x in InOrder(t) && y in InOrder(t) && key(x) == key(y)
    ensures x == y
  {
    OrderedInOrderAscending(key, t);
    var s := InOrder(t);
    var i :| 0 <= i < |s| && s[i] == x;
    var j :| 0 <= j < |s| && s[j] == y;
    assert !(i < j) && !(j < i);
  }

  // ---------------------------------------------------------------------
  // Height bound

  /** The fewest nodes a balanced tree of height h can hold. */
  ghost function MinNodes(h: nat): nat
  {
    if h == 0 then 0 else if h == 1 then 1 else 1 + MinNodes(h - 1) + MinNodes(h - 2)
  }

  ghost function Pow2(n: nat): nat
  {
    if n == 0 then 1 else 2 * Pow2(n - 1)
  }

  /** A balanced tree of height h holds at least MinNodes(h) payloads. */
  lemma {:induction false} BalancedHasMinNodes<T>(t: Tree<T>)
    requires Balanced(t)
    ensures |InOrder(t)| >= MinNodes(Height(t))
  {
    match t
    case Nil =>
    case Node(_, l, r, _) =>
      BalancedHasMinNodes(l);
      BalancedHasMinNodes(r);
      var h := Height(t);
      assert |InOrder(t)| == |InOrder(l)| + 1 + |InOrder(r)|;
      if h >= 2 {
        assert MinNodes(h) == 1 + MinNodes(h - 1) + MinNodes(h - 2);
        if Height(l) >= Height(r) {
          MinNodesMonotone(Height(r), h - 2);
        } else {
          MinNodesMonotone(Height(l), h - 2);
        }
      }
  }

  lemma {:induction false} MinNodesMonotone(a: nat, b: nat)
    requires a >= b
    ensures MinNodes(a) >= MinNodes(b)
    decreases a
  {
    if a > b {
      MinNodesMonotone(a - 1, b);
    }
  }

  lemma {:induction false} MinNodesExponential(h: nat)
    ensures MinNodes(h) + 1 >= Pow2(h / 2)
  {
    if h >= 2 {
      MinNodesExponential(h - 2);
      MinNodesMonotone(h - 1, h - 2);
      assert (h - 2) / 2 == h / 2 - 1;
    }
  }

  /**
   * The AVL height bound: a balanced tree of height h stores at least
   * 2^(h/2) - 1 payloads, so its height is at most about 2 log2(n + 1).
   */
  lemma AvlHeightLogarithmic<T>(t: Tree<T>)
    requires Balanced(t)
    ensures Pow2(Height(t) / 2) <= |InOrder(t)| + 1
  {
    BalancedHasMinNodes(t);
    MinNodesExponential(Height(t));
  }
}
