/**
 * The AVL tree of HW4. A node keeps the height it was last given, as the
 * source's `height` field does; `Height` is the height a tree really has.
 * Insertion rebalances every node on its path, so it keeps a tree whose stored
 * heights are right and whose nodes are balanced (IsAvl). Removal rebalances
 * only while removing a successor; elsewhere it neither rebalances nor
 * refreshes stored heights, and keeps only the search-tree order.
 *
 * Elements, order, size and the traversals are those of the binary search
 * tree of HW3, read off the tree with its heights dropped (Shape).
 */
module AvlTrees {
  import opened Common
  import BinarySearchTrees

  datatype Tree = Nil | Node(left: Tree, data: int, right: Tree, height: nat)

  /** The tree without its stored heights. */
  function Shape(t: Tree): (s: BinarySearchTrees.Tree)
    ensures s.Node? <==> t.Node?
  {
    match t
    case Nil => BinarySearchTrees.Nil
    case Node(l, d, r, _) => BinarySearchTrees.Node(Shape(l), d, Shape(r))
  }

  function Elements(t: Tree): set<int>
  {
    BinarySearchTrees.Elements(Shape(t))
  }

  predicate Ordered(t: Tree)
  {
    BinarySearchTrees.Ordered(Shape(t))
  }

  function Size(t: Tree): nat
  {
    BinarySearchTrees.Size(Shape(t))
  }

  /** min(node).data: the data of the leftmost node. */
  function MinOf(t: Tree): int
    requires t.Node?
  {
    BinarySearchTrees.MinOf(Shape(t))
  }

  function Max(a: int, b: int): int
  {
    if a < b then b else a
  }

  /** getHeight(node): the stored height, -1 for null. */
  function H(t: Tree): (h: int)
    ensures h >= -1
  {
    if t.Nil? then -1 else t.height
  }

  /** node.height = updateHeight(node): one more than the greater stored height of the children. */
  function Fixed(t: Tree): (r: Tree)
    requires t.Node?
    ensures r.Node? && r.left == t.left && r.data == t.data && r.right == t.right
  {
    t.(height := Max(H(t.left), H(t.right)) + 1)
  }

  /** getBalance(node) */
  function Balance(t: Tree): int
    requires t.Node?
  {
    H(t.left) - H(t.right)
  }

  /** The height the tree really has: -1 for the empty tree. */
  function Height(t: Tree): (h: int)
    ensures h >= -1 && (t.Node? ==> h >= 0)
  {
    match t
    case Nil => -1
    case Node(l, _, r, _) => Max(Height(l), Height(r)) + 1
  }

  /** Every node stores its real height. */
  predicate HeightsOk(t: Tree)
  {
    match t
    case Nil => true
    case Node(l, _, r, h) => HeightsOk(l) && HeightsOk(r) && h == Height(t)
  }

  /** The heights of the two subtrees of every node differ by at most one. */
  predicate Balanced(t: Tree)
  {
    match t
    case Nil => true
    case Node(l, _, r, _) => Balanced(l) && Balanced(r) && -1 <= Height(l) - Height(r) <= 1
  }

  predicate IsAvl(t: Tree)
  {
    HeightsOk(t) && Balanced(t)
  }

  lemma {:induction false} StoredHeight(t: Tree)
    requires HeightsOk(t)
    ensures H(t) == Height(t)
  {
  }

  /** Re-linking a node keeps elements and order as in the search tree: the common step of the rotations. */
  lemma ShapeOfNode(l: Tree, d: int, r: Tree, h: nat)
    ensures Shape(Node(l, d, r, h)) == BinarySearchTrees.Node(Shape(l), d, Shape(r))
    ensures Elements(Node(l, d, r, h)) == Elements(l) + {d} + Elements(r)
    ensures Size(Node(l, d, r, h)) == Size(l) + 1 + Size(r)
    ensures Ordered(Node(l, d, r, h)) <==>
      Ordered(l) && Ordered(r) && (forall y :: y in Elements(l) ==> y < d) && (forall y :: y in Elements(r) ==> d < y)
  {
  }

  /** Everything in t lies strictly between lo and hi. */
  ghost predicate Within(t: BinarySearchTrees.Tree, lo: int, hi: int)
  {
    forall z :: z in BinarySearchTrees.Elements(t) ==> lo < z < hi
  }

  /** The order of a, x, b, y, c, each subtree between its neighbours. */
  ghost predicate InSequence(a: BinarySearchTrees.Tree, x: int, b: BinarySearchTrees.Tree, y: int, c: BinarySearchTrees.Tree)
  {
    x < y && BinarySearchTrees.Ordered(a) && BinarySearchTrees.Ordered(b) && BinarySearchTrees.Ordered(c) &&
    (forall z :: z in BinarySearchTrees.Elements(a) ==> z < x) && Within(b, x, y) && (forall z :: z in BinarySearchTrees.Elements(c) ==> y < z)
  }

  /** With y at the root and x its left child: ordered exactly when a, x, b, y, c are in sequence. */
  lemma LowerOrder(a: BinarySearchTrees.Tree, x: int, b: BinarySearchTrees.Tree, y: int, c: BinarySearchTrees.Tree)
    ensures BinarySearchTrees.Ordered(BinarySearchTrees.Node(BinarySearchTrees.Node(a, x, b), y, c)) <==> InSequence(a, x, b, y, c)
  {
    var ax := BinarySearchTrees.Node(a, x, b);
    assert BinarySearchTrees.Elements(ax) == BinarySearchTrees.Elements(a) + {x} + BinarySearchTrees.Elements(b);
    if BinarySearchTrees.Ordered(BinarySearchTrees.Node(ax, y, c)) {
      assert BinarySearchTrees.Ordered(ax) && x in BinarySearchTrees.Elements(ax);
      assert BinarySearchTrees.Ordered(a) && BinarySearchTrees.Ordered(b);
      assert Within(b, x, y);
    }
    if InSequence(a, x, b, y, c) {
      assert forall z :: z in BinarySearchTrees.Elements(a) ==> z < y;
      assert forall z :: z in BinarySearchTrees.Elements(ax) ==> z < y;
    }
  }

  /** With x at the root and y its right child: ordered exactly when a, x, b, y, c are in sequence. */
  lemma UpperOrder(a: BinarySearchTrees.Tree, x: int, b: BinarySearchTrees.Tree, y: int, c: BinarySearchTrees.Tree)
    ensures BinarySearchTrees.Ordered(BinarySearchTrees.Node(a, x, BinarySearchTrees.Node(b, y, c))) <==> InSequence(a, x, b, y, c)
  {
    var yc := BinarySearchTrees.Node(b, y, c);
    assert BinarySearchTrees.Elements(yc) == BinarySearchTrees.Elements(b) + {y} + BinarySearchTrees.Elements(c);
    if BinarySearchTrees.Ordered(BinarySearchTrees.Node(a, x, yc)) {
      assert BinarySearchTrees.Ordered(yc) && y in BinarySearchTrees.Elements(yc);
      assert BinarySearchTrees.Ordered(b) && BinarySearchTrees.Ordered(c);
      assert Within(b, x, y);
    }
    if InSequence(a, x, b, y, c) {
      assert forall z :: z in BinarySearchTrees.Elements(c) ==> x < z;
      assert forall z :: z in BinarySearchTrees.Elements(yc) ==> x < z;
    }
  }

  /**
   * Moving the root between x and y, in either direction, keeps the in-order
   * sequence, the elements, the size and the search-tree order.
   */
  lemma Rotation(a: BinarySearchTrees.Tree, x: int, b: BinarySearchTrees.Tree, y: int, c: BinarySearchTrees.Tree)
    ensures var lower, upper := BinarySearchTrees.Node(BinarySearchTrees.Node(a, x, b), y, c), BinarySearchTrees.Node(a, x, BinarySearchTrees.Node(b, y, c));
      BinarySearchTrees.InOrder(lower) == BinarySearchTrees.InOrder(upper) && BinarySearchTrees.Elements(lower) == BinarySearchTrees.Elements(upper) &&
      BinarySearchTrees.Size(lower) == BinarySearchTrees.Size(upper) && (BinarySearchTrees.Ordered(lower) <==> BinarySearchTrees.Ordered(upper))
  {
    var A, C := BinarySearchTrees.InOrder(a), BinarySearchTrees.InOrder(c);
    assert BinarySearchTrees.InOrder(BinarySearchTrees.Node(BinarySearchTrees.Node(a, x, b), y, c)) == A + [x] + BinarySearchTrees.InOrder(b) + [y] + C;
    assert BinarySearchTrees.InOrder(BinarySearchTrees.Node(a, x, BinarySearchTrees.Node(b, y, c))) == A + [x] + (BinarySearchTrees.InOrder(b) + [y] + C);
    LowerOrder(a, x, b, y, c);
    UpperOrder(a, x, b, y, c);
  }

  /**
   * rotateRight(node): the left child becomes the root and node its right
   * child, taking over that child's right subtree; the heights of the two
   * moved nodes are recomputed.
   */
  function RotateRight(t: Tree): (r: Tree)
    requires t.Node? && t.left.Node?
    ensures r.Node? && r.right.Node?
    ensures r == Fixed(Node(t.left.left, t.left.data, Fixed(Node(t.left.right, t.data, t.right, t.height)), t.left.height))
    ensures BinarySearchTrees.InOrder(Shape(r)) == BinarySearchTrees.InOrder(Shape(t))
    ensures Elements(r) == Elements(t) && Size(r) == Size(t)
    ensures Ordered(t) <==> Ordered(r)
  {
    var node := t.left;
    var temp := Fixed(t.(left := node.right));
    Rotation(Shape(node.left), node.data, Shape(node.right), t.data, Shape(t.right));
    Fixed(node.(right := temp))
  }

  /** rotateLeft(node): the mirror image of rotateRight. */
  function RotateLeft(t: Tree): (r: Tree)
    requires t.Node? && t.right.Node?
    ensures r.Node? && r.left.Node?
    ensures r == Fixed(Node(Fixed(Node(t.left, t.data, t.right.left, t.height)), t.right.data, t.right.right, t.right.height))
    ensures BinarySearchTrees.InOrder(Shape(r)) == BinarySearchTrees.InOrder(Shape(t))
    ensures Elements(r) == Elements(t) && Size(r) == Size(t)
    ensures Ordered(t) <==> Ordered(r)
  {
    var node := t.right;
    var temp := Fixed(t.(right := node.left));
    Rotation(Shape(t.left), t.data, Shape(node.left), node.data, Shape(node.right));
    Fixed(node.(left := temp))
  }

  /**
   * rebalance(node): a left-heavy node by more than one is rotated right,
   * after rotating its left child left when that child is right-heavy; the
   * mirror image for a right-heavy node; otherwise only the node's height
   * is recomputed. The stored heights decide, whether or not they are right.
   */
  function Rebalance(t: Tree): (r: Tree)
    requires t.Node?
    ensures r.Node?
    ensures BinarySearchTrees.InOrder(Shape(r)) == BinarySearchTrees.InOrder(Shape(t))
    ensures Elements(r) == Elements(t) && Size(r) == Size(t)
    ensures Ordered(t) ==> Ordered(r)
  {
    if Balance(t) > 1 then
      if H(t.left.left) >= H(t.left.right) then RotateRight(t)
      else RotateRight(t.(left := RotateLeft(t.left)))
    else if Balance(t) < -1 then
      if H(t.right.right) >= H(t.right.left) then RotateLeft(t)
      else RotateLeft(t.(right := RotateRight(t.right)))
    else Fixed(t)
  }

  /**
   * addMe(dta, node): a new leaf of height 0 where the comparisons lead to an
   * empty position, nothing new for an equal element; every node on the path,
   * the one holding an equal element included, is then rebalanced. The flag
   * says whether nodeCount grew.
   */
  function AddMe(t: Tree, x: int): (r: (Tree, bool))
    ensures r.0.Node?
    ensures Elements(r.0) == Elements(t) + {x}
    ensures Size(r.0) == Size(t) + (if r.1 then 1 else 0)
    ensures Ordered(t) ==> Ordered(r.0) && (r.1 <==> x !in Elements(t))
  {
    match t
    case Nil => (Fixed(Node(Nil, x, Nil, 0)), true)
    case Node(l, d, rt, h) =>
      ShapeOfNode(l, d, rt, h);
      if x > d then
        var (r2, added) := AddMe(rt, x);
        ShapeOfNode(l, d, r2, h);
        (Rebalance(Node(l, d, r2, h)), added)
      else if x < d then
        var (l2, added) := AddMe(l, x);
        ShapeOfNode(l2, d, rt, h);
        (Rebalance(Node(l2, d, rt, h)), added)
      else (Rebalance(t), false)
  }

  /** min(node): the leftmost node. */
  function MinNode(t: Tree): (m: Tree)
    requires t.Node?
    ensures m.Node? && m.data == MinOf(t)
  {
    if t.left == Nil then t else MinNode(t.left)
  }

  /** removeMin(node): the tree without its leftmost node, each node above it rebalanced. */
  function RemoveMin(t: Tree): (r: Tree)
    requires t.Node?
    ensures Size(r) == Size(t) - 1
    ensures Ordered(t) ==> Ordered(r) && Elements(r) == Elements(t) - {MinOf(t)}
  {
    ShapeOfNode(t.left, t.data, t.right, t.height);
    if t.left == Nil then t.right
    else
      var l2 := RemoveMin(t.left);
      ShapeOfNode(l2, t.data, t.right, t.height);
      Rebalance(t.(left := l2))
  }

  /**
   * The two-children case of remove: the leftmost node of the right subtree,
   * with its stored height, takes the place of the root over the left subtree
   * and what removeMin leaves of the right one.
   */
  function Successor(t: Tree): (r: Tree)
    requires t.Node? && t.left.Node? && t.right.Node?
    ensures Size(r) == Size(t) - 1
    ensures Ordered(t) ==> Ordered(r) && Elements(r) == Elements(t) - {t.data}
  {
    var m := MinNode(t.right);
    ShapeOfNode(t.left, t.data, t.right, t.height);
    ShapeOfNode(t.left, m.data, RemoveMin(t.right), m.height);
    Node(t.left, m.data, RemoveMin(t.right), m.height)
  }

  /**
   * remove(node, dta): the tree without dta, with no rebalancing and no
   * stored height refreshed on the path. A node with two children is
   * replaced by the leftmost node of its right subtree, with that node's
   * stored height, over the subtree removeMin leaves. The flag says whether
   * nodeCount was decremented.
   */
  function RemoveFrom(t: Tree, x: int): (r: (Tree, bool))
    ensures Size(r.0) == Size(t) - (if r.1 then 1 else 0)
    ensures Ordered(t) ==> Ordered(r.0) && Elements(r.0) == Elements(t) - {x} && (r.1 <==> x in Elements(t))
  {
    match t
    case Nil => (Nil, false)
    case Node(l, d, rt, h) =>
      ShapeOfNode(l, d, rt, h);
      if x < d then
        var (l2, removed) := RemoveFrom(l, x);
        ShapeOfNode(l2, d, rt, h);
        (Node(l2, d, rt, h), removed)
      else if x > d then
        var (r2, removed) := RemoveFrom(rt, x);
        ShapeOfNode(l, d, r2, h);
        (Node(l, d, r2, h), removed)
      else if rt == Nil then (l, true)
      else if l == Nil then (rt, true)
      else (Successor(t), true)
  }

  /** The subtrees of an AVL node are AVL trees within one of each other in height. */
  lemma AvlChildren(t: Tree)
    requires t.Node? && IsAvl(t)
    ensures IsAvl(t.left) && IsAvl(t.right) && -1 <= Height(t.left) - Height(t.right) <= 1
    ensures Height(t) == Max(Height(t.left), Height(t.right)) + 1
  {
  }

  /** A node whose height updateHeight has just set, over two AVL subtrees. */
  lemma FixedNode(l: Tree, d: int, r: Tree, h: nat)
    requires IsAvl(l) && IsAvl(r)
    ensures var f := Fixed(Node(l, d, r, h));
      HeightsOk(f) && Height(f) == Max(Height(l), Height(r)) + 1 &&
      (IsAvl(f) <==> -1 <= Height(l) - Height(r) <= 1)
  {
    StoredHeight(l);
    StoredHeight(r);
  }

  /** A node left-heavy by two whose left child is not right-heavy: one right rotation balances it. */
  lemma RotateRightAvl(t: Tree)
    requires t.Node? && t.left.Node? && IsAvl(t.left) && IsAvl(t.right)
    requires Height(t.left) - Height(t.right) == 2 && Height(t.left.left) >= Height(t.left.right)
    ensures IsAvl(RotateRight(t)) && Height(t.left) <= Height(RotateRight(t)) <= Height(t.left) + 1
  {
    AvlChildren(t.left);
    var ll, lr := t.left.left, t.left.right;
    FixedNode(lr, t.data, t.right, t.height);
    FixedNode(ll, t.left.data, Fixed(Node(lr, t.data, t.right, t.height)), t.left.height);
  }

  /** A node left-heavy by two whose left child is right-heavy: the double rotation balances it. */
  lemma RotateLeftRightAvl(t: Tree)
    requires t.Node? && t.left.Node? && IsAvl(t.left) && IsAvl(t.right)
    requires Height(t.left) - Height(t.right) == 2 && Height(t.left.left) < Height(t.left.right)
    ensures t.left.right.Node?
    ensures var u := RotateRight(t.(left := RotateLeft(t.left)));
      IsAvl(u) && Height(u) == Height(t.left)
  {
    var l := t.left;
    AvlChildren(l);
    var ll, lr := l.left, l.right;
    AvlChildren(lr);
    var lrl, lrr := lr.left, lr.right;
    var a := Fixed(Node(ll, l.data, lrl, l.height));
    FixedNode(ll, l.data, lrl, l.height);
    FixedNode(lrr, t.data, t.right, t.height);
    FixedNode(a, lr.data, Fixed(Node(lrr, t.data, t.right, t.height)), lr.height);
  }

  /** A node right-heavy by two whose right child is not left-heavy: one left rotation balances it. */
  lemma RotateLeftAvl(t: Tree)
    requires t.Node? && t.right.Node? && IsAvl(t.left) && IsAvl(t.right)
    requires Height(t.right) - Height(t.left) == 2 && Height(t.right.right) >= Height(t.right.left)
    ensures IsAvl(RotateLeft(t)) && Height(t.right) <= Height(RotateLeft(t)) <= Height(t.right) + 1
  {
    AvlChildren(t.right);
    var rl, rr := t.right.left, t.right.right;
    FixedNode(t.left, t.data, rl, t.height);
    FixedNode(Fixed(Node(t.left, t.data, rl, t.height)), t.right.data, rr, t.right.height);
  }

  /** A node right-heavy by two whose right child is left-heavy: the double rotation balances it. */
  lemma RotateRightLeftAvl(t: Tree)
    requires t.Node? && t.right.Node? && IsAvl(t.left) && IsAvl(t.right)
    requires Height(t.right) - Height(t.left) == 2 && Height(t.right.right) < Height(t.right.left)
    ensures t.right.left.Node?
    ensures var u := RotateLeft(t.(right := RotateRight(t.right)));
      IsAvl(u) && Height(u) == Height(t.right)
  {
    var r := t.right;
    AvlChildren(r);
    var rl, rr := r.left, r.right;
    AvlChildren(rl);
    var rll, rlr := rl.left, rl.right;
    var b := Fixed(Node(rlr, r.data, rr, r.height));
    FixedNode(rlr, r.data, rr, r.height);
    FixedNode(t.left, t.data, rll, t.height);
    FixedNode(Fixed(Node(t.left, t.data, rll, t.height)), rl.data, b, rl.height);
  }

  /**
   * rebalance on a node whose subtrees are AVL trees differing in height by
   * at most two gives an AVL tree, as high as the higher subtree or one more,
   * and exactly one more when the subtrees were already within one.
   */
  lemma RebalanceAvl(t: Tree)
    requires t.Node? && IsAvl(t.left) && IsAvl(t.right) && -2 <= Height(t.left) - Height(t.right) <= 2
    ensures var r, m := Rebalance(t), Max(Height(t.left), Height(t.right));
      IsAvl(r) && m <= Height(r) <= m + 1 &&
      (-1 <= Height(t.left) - Height(t.right) <= 1 ==> Height(r) == m + 1)
  {
    StoredHeight(t.left);
    StoredHeight(t.right);
    if Balance(t) > 1 {
      StoredHeight(t.left.left);
      StoredHeight(t.left.right);
      if H(t.left.left) >= H(t.left.right) {
        RotateRightAvl(t);
      } else {
        RotateLeftRightAvl(t);
      }
    } else if Balance(t) < -1 {
      StoredHeight(t.right.right);
      StoredHeight(t.right.left);
      if H(t.right.right) >= H(t.right.left) {
        RotateLeftAvl(t);
      } else {
        RotateRightLeftAvl(t);
      }
    } else {
      FixedNode(t.left, t.data, t.right, t.height);
    }
  }

  /**
   * Adding to an AVL tree gives an AVL tree, as high as before or one
   * higher: every node on the path is rebalanced with its subtrees at most
   * two apart in height.
   */
  lemma {:induction false} AddMeAvl(t: Tree, x: int)
    requires IsAvl(t)
    ensures IsAvl(AddMe(t, x).0) && Height(t) <= Height(AddMe(t, x).0) <= Height(t) + 1
  {
    match t
    case Nil =>
      FixedNode(Nil, x, Nil, 0);
    case Node(l, d, rt, h) =>
      AvlChildren(t);
      if x > d {
        AddMeAvl(rt, x);
        var r := AddMe(rt, x).0;
        assert AddMe(t, x).0 == Rebalance(Node(l, d, r, h));
        RebalanceAvl(Node(l, d, r, h));
      } else if x < d {
        AddMeAvl(l, x);
        var r := AddMe(l, x).0;
        assert AddMe(t, x).0 == Rebalance(Node(r, d, rt, h));
        RebalanceAvl(Node(r, d, rt, h));
      } else {
        RebalanceAvl(t);
      }
  }

  /** On an AVL tree, rebalance at a node that needs none only confirms its stored height. */
  lemma RebalanceAvlUnchanged(t: Tree)
    requires t.Node? && IsAvl(t)
    ensures Rebalance(t) == t
  {
    AvlChildren(t);
    StoredHeight(t.left);
    StoredHeight(t.right);
  }

  /** Adding an element already present in an AVL search tree changes nothing. */
  lemma {:induction false} AddPresentUnchanged(t: Tree, x: int)
    requires IsAvl(t) && Ordered(t) && x in Elements(t)
    ensures AddMe(t, x) == (t, false)
  {
    match t
    case Node(l, d, rt, h) =>
      AvlChildren(t);
      ShapeOfNode(l, d, rt, h);
      if x > d {
        AddPresentUnchanged(rt, x);
      } else if x < d {
        AddPresentUnchanged(l, x);
      }
      RebalanceAvlUnchanged(t);
  }

  /**
   * removeMin on an AVL tree gives an AVL tree, as high as before or one
   * lower: every node above the removed one is rebalanced.
   */
  lemma {:induction false} RemoveMinAvl(t: Tree)
    requires t.Node? && IsAvl(t)
    ensures IsAvl(RemoveMin(t)) && Height(t) - 1 <= Height(RemoveMin(t)) <= Height(t)
  {
    AvlChildren(t);
    if t.left != Nil {
      RemoveMinAvl(t.left);
      RebalanceAvl(t.(left := RemoveMin(t.left)));
    }
  }

  /** Removing 1 from the AVL tree 2(1, -) leaves a leaf that still stores height 1. */
  lemma RemoveLeavesStaleHeight()
    ensures IsAvl(Node(Node(Nil, 1, Nil, 0), 2, Nil, 1))
    ensures RemoveFrom(Node(Node(Nil, 1, Nil, 0), 2, Nil, 1), 1).0 == Node(Nil, 2, Nil, 1)
    ensures !HeightsOk(Node(Nil, 2, Nil, 1))
  {
  }

  /** 2(1, 3(-, 4)) is an AVL tree. */
  lemma SmallAvl()
    ensures IsAvl(Node(Node(Nil, 1, Nil, 0), 2, Node(Nil, 3, Node(Nil, 4, Nil, 0), 1), 2))
  {
  }

  /** Removing 1 from the AVL tree 2(1, 3(-, 4)) leaves 2(-, 3(-, 4)), unbalanced at its root. */
  lemma RemoveLeavesImbalance()
    ensures RemoveFrom(Node(Node(Nil, 1, Nil, 0), 2, Node(Nil, 3, Node(Nil, 4, Nil, 0), 1), 2), 1).0 ==
      Node(Nil, 2, Node(Nil, 3, Node(Nil, 4, Nil, 0), 1), 2)
    ensures !Balanced(Node(Nil, 2, Node(Nil, 3, Node(Nil, 4, Nil, 0), 1), 2))
  {
  }

  /**
   * floor(node, value) for a non-null value: down the left when value is at
   * most the node's data (null at a missing left child); otherwise the node
   * itself when it has no right child or the least element of its right
   * subtree is at least value, and down the right when it is below.
   */
  function FloorAt(t: Tree, v: int): Option<int>
  {
    match t
    case Nil => None
    case Node(l, d, rt, _) =>
      if v <= d then (if l != Nil then FloorAt(l, v) else None)
      else if rt == Nil then Some(d)
      else if v > MinOf(rt) then FloorAt(rt, v)
      else Some(d)
  }

  /**
   * floor(value): null for a null value; min(root) dereferences null on an
   * empty tree; null when value is at most the least element; otherwise the
   * data of the node floor(root, value) finds, which dereferences null if
   * it finds none.
   */
  function FloorAsWritten(t: Tree, v: Option<int>): Outcome<Option<int>>
  {
    if v.None? then Ok(None)
    else if t == Nil then Thrown(NullPointer)
    else if v.value <= MinOf(t) then Ok(None)
    else match FloorAt(t, v.value)
      case None => Thrown(NullPointer)
      case Some(x) => Ok(Some(x))
  }

  /** Below a least element under v, floor(node, value) finds the greatest element strictly below v. */
  lemma {:induction false} FloorAtBelow(t: Tree, v: int)
    requires Ordered(t) && t.Node? && MinOf(t) < v
    ensures FloorAt(t, v) == BinarySearchTrees.FloorBelow(Shape(t), v) && FloorAt(t, v).Some?
  {
    var l, d, rt := t.left, t.data, t.right;
    ShapeOfNode(l, d, rt, t.height);
    if v <= d {
      FloorAtBelow(l, v);
    } else if rt != Nil {
      if v > MinOf(rt) {
        FloorAtBelow(rt, v);
      } else {
        BinarySearchTrees.FloorBelowMeaning(Shape(rt), v);
      }
    }
  }

  /**
   * floor as written: null for a null value, a null dereference on an empty
   * tree, and otherwise the greatest element strictly below the value, or
   * null when there is none; it agrees with the corrected floor of the
   * binary search tree.
   */
  lemma FloorMeaning(t: Tree, v: Option<int>)
    requires Ordered(t)
    ensures v.None? ==> FloorAsWritten(t, v) == Ok(None)
    ensures v.Some? && t == Nil ==> FloorAsWritten(t, v) == Thrown(NullPointer)
    ensures v.Some? && t != Nil ==> FloorAsWritten(t, v) == Ok(BinarySearchTrees.FloorBelow(Shape(t), v.value))
    ensures v.Some? && t != Nil ==>
      var r := FloorAsWritten(t, v);
      r.Ok? && (r.value.None? <==> forall y :: y in Elements(t) ==> y >= v.value) &&
      (r.value.Some? ==> BinarySearchTrees.GreatestBelow(r.value.value, Shape(t), v.value))
  {
    if v.Some? && t != Nil {
      BinarySearchTrees.FloorBelowMeaning(Shape(t), v.value);
      if v.value > MinOf(t) {
        FloorAtBelow(t, v.value);
        assert FloorAsWritten(t, v) == Ok(FloorAt(t, v.value));
        assert MinOf(t) in Elements(t);
      } else {
        assert forall y :: y in BinarySearchTrees.Elements(Shape(t)) ==> y >= v.value;
      }
    }
  }

  class AVLTree {
    var root: Tree
    var nodeCount: int

    /** The tree is ordered and nodeCount counts its nodes. Balance is not part of it: remove does not keep it. */
    ghost predicate Valid()
      reads this
    {
      Ordered(root) && nodeCount == Size(root)
    }

    /** AVLTree(): an empty tree. */
    constructor ()
      ensures Valid() && IsAvl(root) && root == Nil && nodeCount == 0
    {
      root := Nil;
      nodeCount := 0;
    }

    /**
     * add(item): false for null; otherwise true exactly when item was not
     * already present, and item is an element afterwards. An AVL tree stays
     * one, and is left as it was when item was present.
     */
    method Add(item: Option<int>) returns (added: bool)
      requires Valid()
      modifies this
      ensures Valid()
      ensures item.None? ==> !added && root == old(root)
      ensures item.Some? ==> root == AddMe(old(root), item.value).0
      ensures item.Some? ==> (added <==> item.value !in Elements(old(root)))
      ensures Elements(root) == Elements(old(root)) + (if item.Some? then {item.value} else {})
      ensures nodeCount == old(nodeCount) + (if added then 1 else 0)
      ensures IsAvl(old(root)) ==> IsAvl(root)
      ensures IsAvl(old(root)) && item.Some? && item.value in Elements(old(root)) ==> root == old(root)
    {
      if item.None? {
        return false;
      }
      ghost var wasAvl := IsAvl(root);
      if wasAvl {
        AddMeAvl(root, item.value);
        if item.value in Elements(root) {
          AddPresentUnchanged(root, item.value);
        }
      }
      var oldSize := nodeCount;
      var (t, grew) := AddMe(root, item.value);
      root := t;
      if grew {
        nodeCount := nodeCount + 1;
      }
      added := oldSize < nodeCount;
    }

    /** max(): the greatest element by walking right, or null on an empty tree. */
    method Max() returns (m: Option<int>)
      requires Valid()
      ensures m.None? <==> root == Nil
      ensures m.Some? ==> m.value in Elements(root) && forall y :: y in Elements(root) ==> y <= m.value
    {
      if root == Nil {
        return None;
      }
      var current := root;
      while current.right != Nil
        invariant current.Node? && Ordered(current) && Elements(current) <= Elements(root)
        invariant forall y :: y in Elements(root) ==> y in Elements(current) || y < current.data
        decreases Size(current)
      {
        ShapeOfNode(current.left, current.data, current.right, current.height);
        current := current.right;
      }
      ShapeOfNode(current.left, current.data, current.right, current.height);
      return Some(current.data);
    }

    /** min(): the least element by walking left, or null on an empty tree. */
    method Min() returns (m: Option<int>)
      requires Valid()
      ensures m.None? <==> root == Nil
      ensures m.Some? ==> m.value in Elements(root) && forall y :: y in Elements(root) ==> m.value <= y
    {
      if root == Nil {
        return None;
      }
      var current := root;
      while current.left != Nil
        invariant current.Node? && Ordered(current) && Elements(current) <= Elements(root)
        invariant forall y :: y in Elements(root) ==> y in Elements(current) || current.data < y
        decreases Size(current)
      {
        ShapeOfNode(current.left, current.data, current.right, current.height);
        current := current.left;
      }
      ShapeOfNode(current.left, current.data, current.right, current.height);
      return Some(current.data);
    }

    /** isEmpty() */
    method IsEmpty() returns (e: bool)
      requires Valid()
      ensures e <==> root == Nil
    {
      e := nodeCount == 0;
    }

    /** size() */
    method Count() returns (n: int)
      requires Valid()
      ensures n == Size(root) && n == |BinarySearchTrees.InOrder(Shape(root))|
    {
      BinarySearchTrees.InOrderSorted(Shape(root));
      n := nodeCount;
    }

    /** getPreOrder(): preOrder is the search tree's, on the tree without its heights. */
    method GetPreOrder() returns (r: seq<int>)
      requires Valid()
      ensures r == BinarySearchTrees.PreOrder(Shape(root)) && multiset(r) == multiset(BinarySearchTrees.InOrder(Shape(root)))
      ensures root.Node? ==> r[0] == root.data
    {
      BinarySearchTrees.PreOrderPermutes(Shape(root));
      r := [];
      if nodeCount != 0 {
        r := BinarySearchTrees.BST.PreOrderInto(Shape(root), r);
      }
    }

    /** getInOrder(): the elements in increasing order. */
    method GetInOrder() returns (r: seq<int>)
      requires Valid()
      ensures r == BinarySearchTrees.InOrder(Shape(root)) && BinarySearchTrees.StrictlyIncreasing(r)
      ensures forall y :: y in r <==> y in Elements(root)
    {
      BinarySearchTrees.InOrderSorted(Shape(root));
      r := [];
      if nodeCount != 0 {
        r := BinarySearchTrees.BST.InOrderInto(Shape(root), r);
      }
    }

    /** getPostOrder() */
    method GetPostOrder() returns (r: seq<int>)
      requires Valid()
      ensures r == BinarySearchTrees.PostOrder(Shape(root)) && multiset(r) == multiset(BinarySearchTrees.InOrder(Shape(root)))
      ensures root.Node? ==> r[|r| - 1] == root.data
    {
      BinarySearchTrees.PostOrderPermutes(Shape(root));
      r := [];
      if nodeCount != 0 {
        r := BinarySearchTrees.BST.PostOrderInto(Shape(root), r);
      }
    }

    /** getLevelOrder() */
    method GetLevelOrder() returns (r: seq<int>)
      requires Valid()
      ensures r == (if root == Nil then [] else BinarySearchTrees.Bfs([Shape(root)]))
      ensures multiset(r) == multiset(BinarySearchTrees.InOrder(Shape(root)))
      ensures root.Node? ==> r[0] == root.data
    {
      BinarySearchTrees.LevelOrderPermutes(Shape(root));
      r := [];
      if nodeCount != 0 {
        r := BinarySearchTrees.BST.LevelOrderInto(Shape(root), r);
      }
    }

    /** contains(dta): false on an empty tree; otherwise a search down from the root. */
    method Contains(x: int) returns (found: bool)
      requires Valid()
      ensures found <==> x in Elements(root)
    {
      if nodeCount == 0 {
        return false;
      }
      var node := root;
      while true
        invariant node.Node? && Ordered(node)
        invariant x in Elements(root) <==> x in Elements(node)
        decreases Size(node)
      {
        ShapeOfNode(node.left, node.data, node.right, node.height);
        if x == node.data {
          return true;
        } else if x > node.data {
          if node.right == Nil {
            return false;
          }
          node := node.right;
        } else {
          if node.left == Nil {
            return false;
          }
          node := node.left;
        }
      }
    }

    /** clear() */
    method Clear()
      modifies this
      ensures Valid() && IsAvl(root) && root == Nil && nodeCount == 0
    {
      root := Nil;
      nodeCount := 0;
    }

    /**
     * remove(dta): false for null or an empty tree; otherwise true exactly
     * when dta was present, which it no longer is. The order is kept; balance
     * and stored heights are not (RemoveLeavesImbalance, RemoveLeavesStaleHeight).
     */
    method Remove(x: Option<int>) returns (removed: bool)
      requires Valid()
      modifies this
      ensures Valid()
      ensures x.None? || old(root) == Nil ==> !removed && root == old(root)
      ensures x.Some? && old(root) != Nil ==> root == RemoveFrom(old(root), x.value).0
      ensures x.Some? ==> (removed <==> x.value in Elements(old(root)))
      ensures Elements(root) == Elements(old(root)) - (if x.Some? then {x.value} else {})
      ensures nodeCount == old(nodeCount) - (if removed then 1 else 0)
    {
      if x.None? || root == Nil {
        return false;
      }
      var beginSize := nodeCount;
      var (t, dropped) := RemoveFrom(root, x.value);
      root := t;
      if dropped {
        nodeCount := nodeCount - 1;
      }
      removed := beginSize != nodeCount;
    }

    /** floor(value); FloorMeaning says what it computes. */
    method Floor(v: Option<int>) returns (r: Outcome<Option<int>>)
      requires Valid()
      ensures r == FloorAsWritten(root, v)
      ensures v.Some? && root != Nil ==> r == Ok(BinarySearchTrees.FloorBelow(Shape(root), v.value))
    {
      FloorMeaning(root, v);
      if v.None? {
        return Ok(None);
      }
      if root == Nil {
        return Thrown(NullPointer);
      }
      if v.value <= MinNode(root).data {
        return Ok(None);
      }
      var found := FloorAt(root, v.value);
      if found.None? {
        return Thrown(NullPointer);
      }
      return Ok(found);
    }
  }

  /** MyBSTIterator: a snapshot of the in-order traversal and a cursor into it. */
  class AVLIterator {
    var inOrder: seq<int>
    var cursor: int

    constructor (tree: AVLTree)
      requires tree.Valid()
      ensures inOrder == BinarySearchTrees.InOrder(Shape(tree.root)) && cursor == 0
    {
      var snapshot := tree.GetInOrder();
      inOrder := snapshot;
      cursor := 0;
    }

    /** hasNext() */
    method HasNext() returns (b: bool)
      requires 0 <= cursor
      ensures b <==> cursor < |inOrder|
    {
      b := cursor < |inOrder|;
    }

    /** next(): the element under the cursor, or IndexOutOfBoundsException past the end. */
    method Next() returns (r: Outcome<int>)
      requires 0 <= cursor
      modifies this
      ensures inOrder == old(inOrder)
      ensures old(cursor) >= |inOrder| ==> r == Thrown(IndexOutOfBounds) && cursor == old(cursor)
      ensures old(cursor) < |inOrder| ==> r == Ok(inOrder[old(cursor)]) && cursor == old(cursor) + 1
    {
      if cursor >= |inOrder| {
        return Thrown(IndexOutOfBounds);
      }
      r := Ok(inOrder[cursor]);
      cursor := cursor + 1;
    }
  }

  /* The AVL driver: adding 1, 3, ..., 15 in turn, each step as a separate concrete case. */

  function Leaf(x: int): Tree { Node(Nil, x, Nil, 0) }

  /** A third ascending element below a right child is fixed by one left rotation. */
  lemma AddToRightChain(a: int, b: int, c: int)
    requires a < b < c
    ensures AddMe(Node(Nil, a, Leaf(b), 1), c).0 == Node(Leaf(a), b, Leaf(c), 1)
  {
    assert AddMe(Leaf(b), c).0 == Node(Nil, b, Leaf(c), 1);
  }

  lemma DriverAddOne()
    ensures AddMe(Nil, 1).0 == Leaf(1)
  {
  }

  lemma DriverAddThree()
    ensures AddMe(Leaf(1), 3).0 == Node(Nil, 1, Leaf(3), 1)
  {
  }

  lemma DriverAddFive()
    ensures AddMe(Node(Nil, 1, Leaf(3), 1), 5).0 == Node(Leaf(1), 3, Leaf(5), 1)
  {
    AddToRightChain(1, 3, 5);
  }

  lemma DriverAddSeven()
    ensures AddMe(Node(Leaf(1), 3, Leaf(5), 1), 7).0 == Node(Leaf(1), 3, Node(Nil, 5, Leaf(7), 1), 2)
  {
  }

  lemma DriverAddNine()
    ensures AddMe(Node(Leaf(1), 3, Node(Nil, 5, Leaf(7), 1), 2), 9).0
         == Node(Leaf(1), 3, Node(Leaf(5), 7, Leaf(9), 1), 2)
  {
    AddToRightChain(5, 7, 9);
  }

  lemma DriverAddEleven()
    ensures AddMe(Node(Leaf(1), 3, Node(Leaf(5), 7, Leaf(9), 1), 2), 11).0
         == Node(Node(Leaf(1), 3, Leaf(5), 1), 7, Node(Nil, 9, Leaf(11), 1), 2)
  {
    assert AddMe(Leaf(9), 11).0 == Node(Nil, 9, Leaf(11), 1);
    assert AddMe(Node(Leaf(5), 7, Leaf(9), 1), 11).0 == Node(Leaf(5), 7, Node(Nil, 9, Leaf(11), 1), 2);
  }

  lemma DriverAddThirteen()
    ensures AddMe(Node(Node(Leaf(1), 3, Leaf(5), 1), 7, Node(Nil, 9, Leaf(11), 1), 2), 13).0
         == Node(Node(Leaf(1), 3, Leaf(5), 1), 7, Node(Leaf(9), 11, Leaf(13), 1), 2)
  {
    AddToRightChain(9, 11, 13);
  }

  lemma DriverAddFifteen()
    ensures AddMe(Node(Node(Leaf(1), 3, Leaf(5), 1), 7, Node(Leaf(9), 11, Leaf(13), 1), 2), 15).0 == DriverTree()
  {
  }

  /** The tree the driver builds. */
  function DriverTree(): Tree
  {
    Node(Node(Leaf(1), 3, Leaf(5), 1), 7, Node(Leaf(9), 11, Node(Nil, 13, Leaf(15), 1), 2), 3)
  }

  /** The driver's level order: 7 3 11 1 5 9 13 15. */
  lemma DriverLevelOrder()
    ensures BinarySearchTrees.Bfs([Shape(DriverTree())]) == [7, 3, 11, 1, 5, 9, 13, 15]
  {
    var s1, s5, s9, s15 := BinarySearchTrees.Node(BinarySearchTrees.Nil, 1, BinarySearchTrees.Nil), BinarySearchTrees.Node(BinarySearchTrees.Nil, 5, BinarySearchTrees.Nil), BinarySearchTrees.Node(BinarySearchTrees.Nil, 9, BinarySearchTrees.Nil), BinarySearchTrees.Node(BinarySearchTrees.Nil, 15, BinarySearchTrees.Nil);
    var s13 := BinarySearchTrees.Node(BinarySearchTrees.Nil, 13, s15);
    var s3, s11 := BinarySearchTrees.Node(s1, 3, s5), BinarySearchTrees.Node(s9, 11, s13);
    var s7 := BinarySearchTrees.Node(s3, 7, s11);
    assert Shape(DriverTree()) == s7;
    assert BinarySearchTrees.Bfs([s7]) == [7] + BinarySearchTrees.Bfs([s3, s11]) by {
      BinarySearchTrees.BfsHead([s7]);
      assert [s7][1..] + BinarySearchTrees.Children(s7) == [s3, s11];
    }
    assert BinarySearchTrees.Bfs([s3, s11]) == [3] + BinarySearchTrees.Bfs([s11, s1, s5]) by {
      BinarySearchTrees.BfsHead([s3, s11]);
      assert [s3, s11][1..] + BinarySearchTrees.Children(s3) == [s11, s1, s5];
    }
    assert BinarySearchTrees.Bfs([s11, s1, s5]) == [11] + BinarySearchTrees.Bfs([s1, s5, s9, s13]) by {
      BinarySearchTrees.BfsHead([s11, s1, s5]);
      assert [s11, s1, s5][1..] + BinarySearchTrees.Children(s11) == [s1, s5, s9, s13];
    }
    DriverLevelOrderTail(s1, s5, s9, s13, s15);
  }

  lemma DriverLevelOrderTail(s1: BinarySearchTrees.Tree, s5: BinarySearchTrees.Tree, s9: BinarySearchTrees.Tree, s13: BinarySearchTrees.Tree, s15: BinarySearchTrees.Tree)
    requires s1 == BinarySearchTrees.Node(BinarySearchTrees.Nil, 1, BinarySearchTrees.Nil) && s5 == BinarySearchTrees.Node(BinarySearchTrees.Nil, 5, BinarySearchTrees.Nil) && s9 == BinarySearchTrees.Node(BinarySearchTrees.Nil, 9, BinarySearchTrees.Nil)
    requires s15 == BinarySearchTrees.Node(BinarySearchTrees.Nil, 15, BinarySearchTrees.Nil) && s13 == BinarySearchTrees.Node(BinarySearchTrees.Nil, 13, s15)
    ensures BinarySearchTrees.Bfs([s1, s5, s9, s13]) == [1, 5, 9, 13, 15]
  {
    assert BinarySearchTrees.Bfs([s1, s5, s9, s13]) == [1] + BinarySearchTrees.Bfs([s5, s9, s13]) by {
      BinarySearchTrees.BfsHead([s1, s5, s9, s13]);
      assert [s1, s5, s9, s13][1..] + BinarySearchTrees.Children(s1) == [s5, s9, s13];
    }
    assert BinarySearchTrees.Bfs([s5, s9, s13]) == [5] + BinarySearchTrees.Bfs([s9, s13]) by {
      BinarySearchTrees.BfsHead([s5, s9, s13]);
      assert [s5, s9, s13][1..] + BinarySearchTrees.Children(s5) == [s9, s13];
    }
    assert BinarySearchTrees.Bfs([s9, s13]) == [9] + BinarySearchTrees.Bfs([s13]) by {
      BinarySearchTrees.BfsHead([s9, s13]);
      assert [s9, s13][1..] + BinarySearchTrees.Children(s9) == [s13];
    }
    assert BinarySearchTrees.Bfs([s13]) == [13] + BinarySearchTrees.Bfs([s15]) by {
      BinarySearchTrees.BfsHead([s13]);
      assert [s13][1..] + BinarySearchTrees.Children(s13) == [s15];
    }
    assert BinarySearchTrees.Bfs([s15]) == [15] by {
      BinarySearchTrees.BfsHead([s15]);
      assert [s15][1..] + BinarySearchTrees.Children(s15) == [];
    }
  }

  /** The driver's floor(-7): every element is at least -7, so null. */
  lemma DriverFloor()
    ensures FloorAsWritten(DriverTree(), Some(-7)) == Ok(None)
  {
    assert MinOf(DriverTree()) == 1;
  }
}
