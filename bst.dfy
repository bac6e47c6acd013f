/**
 * The binary search tree of HW3. Elements are integers ordered by <; the
 * tree is a value held in the `root` field, and the operations that relink
 * nodes in the source (addMe, remove, removeMin) rebuild the affected path.
 * `nodeCount` is kept beside it as in the source.
 */
module BinarySearchTrees {
  import opened Common

  datatype Tree = Nil | Node(left: Tree, data: int, right: Tree)

  function Elements(t: Tree): set<int>
  {
    match t
    case Nil => {}
    case Node(l, d, r) => Elements(l) + {d} + Elements(r)
  }

  /** The number of nodes. */
  function Size(t: Tree): nat
  {
    match t
    case Nil => 0
    case Node(l, _, r) => Size(l) + 1 + Size(r)
  }

  /** The search-tree order: everything left of a node is smaller, everything right of it larger. */
  predicate Ordered(t: Tree)
  {
    match t
    case Nil => true
    case Node(l, d, r) =>
      Ordered(l) && Ordered(r) &&
      (forall y :: y in Elements(l) ==> y < d) && (forall y :: y in Elements(r) ==> d < y)
  }

  /** s is t or lies below it. */
  predicate SubtreeOf(s: Tree, t: Tree)
  {
    s == t || (t.Node? && (SubtreeOf(s, t.left) || SubtreeOf(s, t.right)))
  }

  lemma {:induction false} SubtreeFacts(s: Tree, t: Tree)
    requires SubtreeOf(s, t)
    ensures Elements(s) <= Elements(t) && Size(s) <= Size(t)
    ensures Ordered(t) ==> Ordered(s)
  {
    if s != t {
      if SubtreeOf(s, t.left) {
        SubtreeFacts(s, t.left);
      } else {
        SubtreeFacts(s, t.right);
      }
    }
  }

  lemma {:induction false} SubtreeTrans(a: Tree, b: Tree, c: Tree)
    requires SubtreeOf(a, b) && SubtreeOf(b, c)
    ensures SubtreeOf(a, c)
  {
    if b != c {
      if SubtreeOf(b, c.left) {
        SubtreeTrans(a, b, c.left);
      } else {
        SubtreeTrans(a, b, c.right);
      }
    }
  }

  /** min(node): the data of the leftmost node, the least element of an ordered tree. */
  function MinOf(t: Tree): (m: int)
    requires t.Node?
    ensures m in Elements(t)
    ensures Ordered(t) ==> forall y :: y in Elements(t) ==> m <= y
  {
    if t.left == Nil then t.data else MinOf(t.left)
  }

  /** The data of the rightmost node, the greatest element of an ordered tree. */
  function MaxOf(t: Tree): (m: int)
    requires t.Node?
    ensures m in Elements(t)
    ensures Ordered(t) ==> forall y :: y in Elements(t) ==> y <= m
  {
    if t.right == Nil then t.data else MaxOf(t.right)
  }

  /**
   * addMe(x, node) below a non-empty tree: x goes to the empty child position
   * its comparisons lead to; an equal element stops the descent. The flag
   * says whether a node was added.
   */
  function AddMe(t: Tree, x: int): (r: (Tree, bool))
    ensures Elements(r.0) == Elements(t) + {x}
    ensures Size(r.0) == Size(t) + (if r.1 then 1 else 0)
    ensures Ordered(t) ==> Ordered(r.0) && (r.1 <==> x !in Elements(t))
  {
    match t
    case Nil => (Node(Nil, x, Nil), true)
    case Node(l, d, rt) =>
      if x > d then
        var (r2, added) := AddMe(rt, x);
        (Node(l, d, r2), added)
      else if x < d then
        var (l2, added) := AddMe(l, x);
        (Node(l2, d, rt), added)
      else (t, false)
  }

  /** removeMin(node): the tree without its leftmost node. */
  function RemoveMin(t: Tree): (r: Tree)
    requires t.Node?
    ensures Size(r) == Size(t) - 1
    ensures Ordered(t) ==> Ordered(r) && Elements(r) == Elements(t) - {MinOf(t)}
  {
    if t.left == Nil then t.right else Node(RemoveMin(t.left), t.data, t.right)
  }

  /**
   * remove(node, x): the tree without x. A node with two children takes the
   * least element of its right subtree, which leaves that subtree. The flag
   * says whether nodeCount was decremented.
   */
  function RemoveFrom(t: Tree, x: int): (r: (Tree, bool))
    ensures Size(r.0) == Size(t) - (if r.1 then 1 else 0)
    ensures Ordered(t) ==> Ordered(r.0) && Elements(r.0) == Elements(t) - {x} && (r.1 <==> x in Elements(t))
  {
    match t
    case Nil => (Nil, false)
    case Node(l, d, rt) =>
      if x < d then
        var (l2, removed) := RemoveFrom(l, x);
        (Node(l2, d, rt), removed)
      else if x > d then
        var (r2, removed) := RemoveFrom(rt, x);
        (Node(l, d, r2), removed)
      else if rt == Nil then (l, true)
      else if l == Nil then (rt, true)
      else (Node(l, MinOf(rt), RemoveMin(rt)), true)
  }

  function PreOrder(t: Tree): seq<int>
  {
    match t
    case Nil => []
    case Node(l, d, r) => [d] + PreOrder(l) + PreOrder(r)
  }

  function InOrder(t: Tree): seq<int>
  {
    match t
    case Nil => []
    case Node(l, d, r) => InOrder(l) + [d] + InOrder(r)
  }

  function PostOrder(t: Tree): seq<int>
  {
    match t
    case Nil => []
    case Node(l, d, r) => PostOrder(l) + PostOrder(r) + [d]
  }

  predicate StrictlyIncreasing(s: seq<int>)
  {
    forall i, j :: 0 <= i < j < |s| ==> s[i] < s[j]
  }

  /** The in-order traversal of an ordered tree lists its elements once each, in increasing order. */
  lemma {:induction false} InOrderSorted(t: Tree)
    requires Ordered(t)
    ensures StrictlyIncreasing(InOrder(t))
    ensures forall y :: y in InOrder(t) <==> y in Elements(t)
    ensures |InOrder(t)| == Size(t)
  {
    match t
    case Nil =>
    case Node(l, d, r) =>
      InOrderSorted(l);
      InOrderSorted(r);
      var s := InOrder(t);
      var L, R := InOrder(l), InOrder(r);
      assert s == L + [d] + R;
      forall i, j | 0 <= i < j < |s|
        ensures s[i] < s[j]
      {
        if j < |L| {
        } else if i < |L| {
          assert s[i] == L[i] && L[i] in Elements(l);
          if j > |L| { assert s[j] == R[j - |L| - 1] && R[j - |L| - 1] in Elements(r); }
        } else if i == |L| {
          assert s[j] == R[j - |L| - 1] && R[j - |L| - 1] in Elements(r);
        }
      }
  }

  /** Pre-order lists the same elements as in-order, each as often, starting with the root. */
  lemma {:induction false} PreOrderPermutes(t: Tree)
    ensures multiset(PreOrder(t)) == multiset(InOrder(t))
    ensures t.Node? ==> PreOrder(t)[0] == t.data
  {
    match t
    case Nil =>
    case Node(l, d, r) =>
      PreOrderPermutes(l);
      PreOrderPermutes(r);
      var L, R, P, Q := InOrder(l), InOrder(r), PreOrder(l), PreOrder(r);
      assert InOrder(t) == L + [d] + R;
      assert multiset(L + [d] + R) == multiset(L) + multiset([d]) + multiset(R);
      assert PreOrder(t) == [d] + P + Q;
      assert multiset([d] + P + Q) == multiset([d]) + multiset(P) + multiset(Q);
  }

  /** Post-order lists the same elements as in-order, each as often, ending with the root. */
  lemma {:induction false} PostOrderPermutes(t: Tree)
    ensures multiset(PostOrder(t)) == multiset(InOrder(t))
    ensures t.Node? ==> PostOrder(t)[|PostOrder(t)| - 1] == t.data
  {
    match t
    case Nil =>
    case Node(l, d, r) =>
      PostOrderPermutes(l);
      PostOrderPermutes(r);
      var L, R, P, Q := InOrder(l), InOrder(r), PostOrder(l), PostOrder(r);
      assert InOrder(t) == L + [d] + R;
      assert multiset(L + [d] + R) == multiset(L) + multiset([d]) + multiset(R);
      assert PostOrder(t) == P + Q + [d];
      assert multiset(P + Q + [d]) == multiset(P) + multiset(Q) + multiset([d]);
  }

  /** The total weight of a queue of subtrees, an empty position counting one: what makes level order terminate. */
  function Weight(t: Tree): nat
  {
    match t
    case Nil => 1
    case Node(l, _, r) => 1 + Weight(l) + Weight(r)
  }

  function QueueWeight(q: seq<Tree>): nat
  {
    if q == [] then 0 else Weight(q[0]) + QueueWeight(q[1..])
  }

  lemma {:induction false} QueueWeightConcat(a: seq<Tree>, b: seq<Tree>)
    ensures QueueWeight(a + b) == QueueWeight(a) + QueueWeight(b)
    decreases |a|
  {
    if a == [] {
      assert a + b == b;
    } else {
      assert (a + b)[1..] == a[1..] + b;
      QueueWeightConcat(a[1..], b);
    }
  }

  /** The children of a node that levelOrder enqueues: the non-null ones, left first. */
  function Children(t: Tree): (r: seq<Tree>)
    requires t.Node?
    ensures QueueWeight(r) < Weight(t)
  {
    var l := if t.left == Nil then [] else [t.left];
    var r := if t.right == Nil then [] else [t.right];
    QueueWeightConcat(l, r);
    l + r
  }

  /** Breadth-first order of a queue of subtrees: the head's data, then the rest with its children enqueued. */
  function Bfs(q: seq<Tree>): seq<int>
    decreases QueueWeight(q)
  {
    if q == [] then []
    else if q[0] == Nil then Bfs(q[1..])
    else
      QueueWeightConcat(q[1..], Children(q[0]));
      [q[0].data] + Bfs(q[1..] + Children(q[0]))
  }

  /** The bag of the elements of a queue of subtrees. */
  function QueueBag(q: seq<Tree>): multiset<int>
  {
    if q == [] then multiset{} else multiset(InOrder(q[0])) + QueueBag(q[1..])
  }

  lemma {:induction false} QueueBagConcat(a: seq<Tree>, b: seq<Tree>)
    ensures QueueBag(a + b) == QueueBag(a) + QueueBag(b)
    decreases |a|
  {
    if a == [] {
      assert a + b == b;
    } else {
      assert (a + b)[1..] == a[1..] + b;
      QueueBagConcat(a[1..], b);
    }
  }

  /** The enqueued children of a node hold the elements of its two subtrees. */
  lemma ChildrenBag(t: Tree)
    requires t.Node?
    ensures QueueBag(Children(t)) == multiset(InOrder(t.left)) + multiset(InOrder(t.right))
  {
    var l := if t.left == Nil then [] else [t.left];
    var r := if t.right == Nil then [] else [t.right];
    QueueBagConcat(l, r);
    assert QueueBag(l) == multiset(InOrder(t.left)) by { if l != [] { assert l[1..] == []; } }
    assert QueueBag(r) == multiset(InOrder(t.right)) by { if r != [] { assert r[1..] == []; } }
  }

  /** Breadth-first order lists every element of the queue once. */
  lemma {:induction false} BfsPermutes(q: seq<Tree>)
    ensures multiset(Bfs(q)) == QueueBag(q)
    decreases QueueWeight(q)
  {
    if q != [] {
      if q[0] == Nil {
        BfsPermutes(q[1..]);
      } else {
        var t, rest := q[0], q[1..];
        var c := Children(t);
        QueueWeightConcat(rest, c);
        BfsPermutes(rest + c);
        QueueBagConcat(rest, c);
        ChildrenBag(t);
        assert Bfs(q) == [t.data] + Bfs(rest + c);
        assert multiset(InOrder(t)) == multiset(InOrder(t.left)) + multiset{t.data} + multiset(InOrder(t.right));
      }
    }
  }

  /** Level order of a tree lists each element once, the root first. */
  lemma LevelOrderPermutes(t: Tree)
    ensures multiset(Bfs([t])) == multiset(InOrder(t))
    ensures t.Node? ==> Bfs([t])[0] == t.data
  {
    BfsPermutes([t]);
    assert [t][1..] == [];
  }

  /** firstLessThan(node, v): going left from node while v is smaller, the first node whose data is at most v; Nil for null. */
  function FirstLessThan(t: Tree, v: int): (r: Tree)
    ensures SubtreeOf(r, t)
    ensures t.Node? && MinOf(t) <= v ==> r.Node? && r.data <= v && MinOf(r) == MinOf(t)
    ensures Ordered(t) ==> forall y :: y in Elements(t) && y <= v ==> y in Elements(r)
  {
    match t
    case Nil => Nil
    case Node(l, d, _) => if v < d then FirstLessThan(l, v) else t
  }

  /**
   * The loop of floor(v) from curr on: temp1 = firstLessThan(curr, v),
   * temp2 = min(temp1.right), which dereferences null when temp1 has no right
   * child; temp1's data is the answer once temp2 is at least v, otherwise the
   * search goes on in temp1's right subtree.
   */
  function FloorFrom(curr: Tree, v: int): Outcome<Option<int>>
    requires curr.Node? && MinOf(curr) < v
    decreases Size(curr)
  {
    var temp1 := FirstLessThan(curr, v);
    SubtreeFacts(temp1, curr);
    if temp1.right == Nil then Thrown(NullPointer)
    else if MinOf(temp1.right) >= v then Ok(Some(temp1.data))
    else FloorFrom(temp1.right, v)
  }

  /** floor(v) as written: min(root) dereferences null on an empty tree; null when the least element is at least v. */
  function FloorAsWritten(t: Tree, v: int): Outcome<Option<int>>
  {
    if t == Nil then Thrown(NullPointer)
    else if MinOf(t) >= v then Ok(None)
    else FloorFrom(t, v)
  }

  /** x is the greatest element of t strictly below v. */
  ghost predicate GreatestBelow(x: int, t: Tree, v: int)
  {
    x in Elements(t) && x < v && forall y :: y in Elements(t) && y < v ==> y <= x
  }

  /**
   * One round of the loop of floor, for elements of root outside curr that
   * are at most v all lying below curr: temp1 = firstLessThan(curr, v) is a
   * node of root holding at most v, and every element of root that is at
   * most v is either at most temp1's data or lies in temp1's right subtree.
   */
  lemma FloorStep(root: Tree, curr: Tree, v: int)
    requires Ordered(root) && SubtreeOf(curr, root) && curr.Node? && MinOf(curr) < v
    requires forall y :: y in Elements(root) && y <= v && y !in Elements(curr) ==> y < MinOf(curr)
    ensures var temp1 := FirstLessThan(curr, v);
      temp1.Node? && temp1.data <= v && temp1.data in Elements(root) && SubtreeOf(temp1, root) &&
      Ordered(temp1) && Size(temp1) <= Size(curr) &&
      (forall y :: y in Elements(root) && y <= v ==> y <= temp1.data || y in Elements(temp1.right))
  {
    SubtreeFacts(curr, root);
    var temp1 := FirstLessThan(curr, v);
    SubtreeFacts(temp1, curr);
    SubtreeTrans(temp1, curr, root);
    assert MinOf(temp1) <= temp1.data;
  }

  /** When temp1 has a right child, the next round of the loop starts there under the same conditions. */
  lemma FloorStepRight(root: Tree, curr: Tree, v: int)
    requires Ordered(root) && SubtreeOf(curr, root) && curr.Node? && MinOf(curr) < v
    requires forall y :: y in Elements(root) && y <= v && y !in Elements(curr) ==> y < MinOf(curr)
    requires FirstLessThan(curr, v).Node? && FirstLessThan(curr, v).right.Node?
    ensures var next := FirstLessThan(curr, v).right;
      SubtreeOf(next, root) && Size(next) < Size(curr) &&
      FirstLessThan(curr, v).data < MinOf(next) &&
      forall y :: y in Elements(root) && y <= v && y !in Elements(next) ==> y < MinOf(next)
  {
    FloorStep(root, curr, v);
    var temp1 := FirstLessThan(curr, v);
    var next := temp1.right;
    assert SubtreeOf(next, temp1);
    SubtreeTrans(next, temp1, root);
    assert MinOf(next) in Elements(next);
  }

  /**
   * What the loop of floor computes from curr, under the conditions of
   * FloorStep: when it returns, an element of root that is at most v with no
   * element of root strictly between it and v.
   */
  lemma {:induction false} FloorFromOk(root: Tree, curr: Tree, v: int)
    requires Ordered(root) && SubtreeOf(curr, root) && curr.Node? && MinOf(curr) < v
    requires forall y :: y in Elements(root) && y <= v && y !in Elements(curr) ==> y < MinOf(curr)
    ensures var r := FloorFrom(curr, v);
      r.Ok? ==> r.value.Some? && r.value.value in Elements(root) && r.value.value <= v &&
                forall y :: y in Elements(root) && y < v ==> y <= r.value.value
    decreases Size(curr)
  {
    FloorStep(root, curr, v);
    var temp1 := FirstLessThan(curr, v);
    if temp1.right != Nil && MinOf(temp1.right) < v {
      FloorStepRight(root, curr, v);
      FloorFromOk(root, temp1.right, v);
    }
  }

  /**
   * Under the same conditions, when the loop of floor dereferences null it
   * does so at the node holding the greatest element at most v, which then
   * has no right child.
   */
  lemma {:induction false} FloorFromThrown(root: Tree, curr: Tree, v: int)
    requires Ordered(root) && SubtreeOf(curr, root) && curr.Node? && MinOf(curr) < v
    requires forall y :: y in Elements(root) && y <= v && y !in Elements(curr) ==> y < MinOf(curr)
    ensures var r := FloorFrom(curr, v);
      r.Thrown? ==> r.failure == NullPointer &&
                    exists s :: SubtreeOf(s, root) && s.Node? && s.right == Nil && s.data <= v &&
                                forall y :: y in Elements(root) && y <= v ==> y <= s.data
    decreases Size(curr)
  {
    FloorStep(root, curr, v);
    var temp1 := FirstLessThan(curr, v);
    if temp1.right == Nil {
      assert FloorFrom(curr, v) == Thrown(NullPointer);
      assert SubtreeOf(temp1, root) && temp1.right == Nil;
    } else if MinOf(temp1.right) < v {
      FloorStepRight(root, curr, v);
      assert FloorFrom(curr, v) == FloorFrom(temp1.right, v);
      FloorFromThrown(root, temp1.right, v);
    }
  }

  /**
   * floor as written returns null exactly when no element is below v, and
   * otherwise either an element at most v with nothing strictly between it and
   * v, or a null dereference at a node without a right child.
   */
  lemma FloorMeaning(t: Tree, v: int)
    requires Ordered(t)
    ensures t == Nil ==> FloorAsWritten(t, v) == Thrown(NullPointer)
    ensures t != Nil ==> (FloorAsWritten(t, v) == Ok(None) <==> forall y :: y in Elements(t) ==> y >= v)
    ensures FloorAsWritten(t, v).Ok? && FloorAsWritten(t, v).value.Some? ==>
      var x := FloorAsWritten(t, v).value.value;
      x in Elements(t) && x <= v && forall y :: y in Elements(t) && y < v ==> y <= x
    ensures t != Nil && FloorAsWritten(t, v).Thrown? ==>
      FloorAsWritten(t, v).failure == NullPointer &&
      exists s :: SubtreeOf(s, t) && s.Node? && s.right == Nil && s.data <= v &&
                  forall y :: y in Elements(t) && y <= v ==> y <= s.data
  {
    if t == Nil {
    } else if MinOf(t) >= v {
      assert FloorAsWritten(t, v) == Ok(None);
    } else {
      assert SubtreeOf(t, t) && MinOf(t) in Elements(t);
      FloorFromOk(t, t, v);
      FloorFromThrown(t, t, v);
      assert FloorAsWritten(t, v) == FloorFrom(t, v) != Ok(None);
    }
  }

  /** The corrected floor: the greatest element strictly below v, or None when there is none. */
  function FloorBelow(t: Tree, v: int): (r: Option<int>)
  {
    match t
    case Nil => None
    case Node(l, d, rt) =>
      if v <= d then FloorBelow(l, v)
      else match FloorBelow(rt, v)
        case None => Some(d)
        case Some(x) => Some(x)
  }

  lemma {:induction false} FloorBelowMeaning(t: Tree, v: int)
    requires Ordered(t)
    ensures FloorBelow(t, v).None? <==> forall y :: y in Elements(t) ==> y >= v
    ensures FloorBelow(t, v).Some? ==> GreatestBelow(FloorBelow(t, v).value, t, v)
  {
    match t
    case Nil =>
    case Node(l, d, rt) =>
      FloorBelowMeaning(l, v);
      FloorBelowMeaning(rt, v);
      assert Elements(t) == Elements(l) + {d} + Elements(rt);
      if v <= d {
        assert forall y :: y in Elements(rt) ==> y >= v;
        if FloorBelow(l, v).Some? {
          var x := FloorBelow(l, v).value;
          assert x in Elements(t) && x < v;
        }
      } else if FloorBelow(rt, v).None? {
        assert FloorBelow(t, v) == Some(d);
        assert d in Elements(t) && d < v;
        assert forall y :: y in Elements(rt) ==> y >= v;
      } else {
        var x := FloorBelow(rt, v).value;
        assert x in Elements(t) && x < v;
        assert forall y :: y in Elements(l) ==> y <= x;
        assert GreatestBelow(x, t, v);
      }
  }

  class BST {
    var root: Tree
    var nodeCount: int

    /** The tree is ordered and nodeCount counts its nodes. */
    ghost predicate Valid()
      reads this
    {
      Ordered(root) && nodeCount == Size(root)
    }

    /** BST(): an empty tree. */
    constructor ()
      ensures Valid() && root == Nil && nodeCount == 0
    {
      root := Nil;
      nodeCount := 0;
    }

    /**
     * add(item): false for null; otherwise true exactly when item was not
     * already present, and item is an element afterwards.
     */
    method Add(item: Option<int>) returns (added: bool)
      requires Valid()
      modifies this
      ensures Valid()
      ensures item.None? ==> !added && root == old(root)
      ensures item.Some? ==> root == AddMe(old(root), item.value).0
      ensures item.Some? ==> (added <==> item.value !in Elements(old(root)))
      ensures Elements(root) == Elements(old(root)) + (if item.Some? then {item.value} else {})
      ensures nodeCount == old(nodeCount) + (if added then 1 else 0)
    {
      if item.None? {
        return false;
      }
      if nodeCount == 0 {
        root := Node(Nil, item.value, Nil);
        nodeCount := nodeCount + 1;
        return true;
      }
      var (t, grew) := AddMe(root, item.value);
      root := t;
      if grew {
        nodeCount := nodeCount + 1;
      }
      added := grew;
    }

    /** max(): the greatest element by walking right, or null on an empty tree. */
    method Max() returns (m: Option<int>)
      requires Valid()
      ensures m.None? <==> root == Nil
      ensures m.Some? ==> m.value in Elements(root) && forall y :: y in Elements(root) ==> y <= m.value
    {
      if root == Nil {
        return None;
      }
      var current := root;
      while current.right != Nil
        invariant current.Node? && Ordered(current) && Elements(current) <= Elements(root)
        invariant forall y :: y in Elements(root) ==> y in Elements(current) || y < current.data
        decreases Size(current)
      {
        current := current.right;
      }
      return Some(current.data);
    }

    /** min(): the least element by walking left, or null on an empty tree. */
    method Min() returns (m: Option<int>)
      requires Valid()
      ensures m.None? <==> root == Nil
      ensures m.Some? ==> m.value in Elements(root) && forall y :: y in Elements(root) ==> m.value <= y
    {
      if root == Nil {
        return None;
      }
      var current := root;
      while current.left != Nil
        invariant current.Node? && Ordered(current) && Elements(current) <= Elements(root)
        invariant forall y :: y in Elements(root) ==> y in Elements(current) || current.data < y
        decreases Size(current)
      {
        current := current.left;
      }
      return Some(current.data);
    }

    /** isEmpty() */
    method IsEmpty() returns (e: bool)
      requires Valid()
      ensures e <==> root == Nil
    {
      e := nodeCount == 0;
    }

    /** size() */
    method Count() returns (n: int)
      requires Valid()
      ensures n == Size(root) && n == |InOrder(root)|
    {
      InOrderSorted(root);
      n := nodeCount;
    }

    /** preOrder(node, accum): appends node's data, then its left and right subtrees. */
    static method PreOrderInto(node: Tree, accum: seq<int>) returns (r: seq<int>)
      ensures r == accum + PreOrder(node)
    {
      r := accum;
      if node.Node? {
        r := r + [node.data];
        r := PreOrderInto(node.left, r);
        r := PreOrderInto(node.right, r);
      }
    }

    /** inOrder(node, accum): appends the left subtree, node's data, then the right subtree. */
    static method InOrderInto(node: Tree, accum: seq<int>) returns (r: seq<int>)
      ensures r == accum + InOrder(node)
    {
      r := accum;
      if node.Node? {
        r := InOrderInto(node.left, r);
        r := r + [node.data];
        r := InOrderInto(node.right, r);
      }
    }

    /** postOrder(node, accum): appends the left and right subtrees, then node's data. */
    static method PostOrderInto(node: Tree, accum: seq<int>) returns (r: seq<int>)
      ensures r == accum + PostOrder(node)
    {
      r := accum;
      if node.Node? {
        r := PostOrderInto(node.left, r);
        r := PostOrderInto(node.right, r);
        r := r + [node.data];
      }
    }

    /** levelOrder(node, accum): a queue of nodes, polled from the front, children appended at the back. */
    static method LevelOrderInto(node: Tree, accum: seq<int>) returns (r: seq<int>)
      requires node.Node?
      ensures r == accum + Bfs([node])
    {
      var q := [node];
      r := accum;
      while q != []
        invariant forall i :: 0 <= i < |q| ==> q[i].Node?
        invariant r + Bfs(q) == accum + Bfs([node])
        decreases QueueWeight(q)
      {
        var temp := q[0];
        r := r + [temp.data];
        QueueWeightConcat(q[1..], Children(temp));
        q := q[1..] + Children(temp);
      }
    }

    /** getPreOrder() */
    method GetPreOrder() returns (r: seq<int>)
      requires Valid()
      ensures r == PreOrder(root) && multiset(r) == multiset(InOrder(root))
      ensures root.Node? ==> r[0] == root.data
    {
      PreOrderPermutes(root);
      r := [];
      if nodeCount != 0 {
        r := PreOrderInto(root, r);
      }
    }

    /** getInOrder(): the elements in increasing order. */
    method GetInOrder() returns (r: seq<int>)
      requires Valid()
      ensures r == InOrder(root) && StrictlyIncreasing(r)
      ensures forall y :: y in r <==> y in Elements(root)
    {
      InOrderSorted(root);
      r := [];
      if nodeCount != 0 {
        r := InOrderInto(root, r);
      }
    }

    /** getPostOrder() */
    method GetPostOrder() returns (r: seq<int>)
      requires Valid()
      ensures r == PostOrder(root) && multiset(r) == multiset(InOrder(root))
      ensures root.Node? ==> r[|r| - 1] == root.data
    {
      PostOrderPermutes(root);
      r := [];
      if nodeCount != 0 {
        r := PostOrderInto(root, r);
      }
    }

    /** getLevelOrder() */
    method GetLevelOrder() returns (r: seq<int>)
      requires Valid()
      ensures r == (if root == Nil then [] else Bfs([root]))
      ensures multiset(r) == multiset(InOrder(root))
      ensures root.Node? ==> r[0] == root.data
    {
      LevelOrderPermutes(root);
      r := [];
      if nodeCount != 0 {
        r := LevelOrderInto(root, r);
      }
    }

    /** contains(x): false on an empty tree; otherwise a search down from the root. */
    method Contains(x: int) returns (found: bool)
      requires Valid()
      ensures found <==> x in Elements(root)
    {
      if nodeCount == 0 {
        return false;
      }
      var node := root;
      while true
        invariant node.Node? && Ordered(node)
        invariant x in Elements(root) <==> x in Elements(node)
        decreases Size(node)
      {
        if x == node.data {
          return true;
        } else if x > node.data {
          if node.right == Nil {
            return false;
          }
          node := node.right;
        } else {
          if node.left == Nil {
            return false;
          }
          node := node.left;
        }
      }
    }

    /** clear() */
    method Clear()
      modifies this
      ensures Valid() && root == Nil && nodeCount == 0
    {
      root := Nil;
      nodeCount := 0;
    }

    /**
     * remove(x): false for null or an empty tree; otherwise true exactly when x
     * was present, which it no longer is.
     */
    method Remove(x: Option<int>) returns (removed: bool)
      requires Valid()
      modifies this
      ensures Valid()
      ensures x.None? || old(root) == Nil ==> !removed && root == old(root)
      ensures x.Some? && old(root) != Nil ==> root == RemoveFrom(old(root), x.value).0
      ensures x.Some? ==> (removed <==> x.value in Elements(old(root)))
      ensures Elements(root) == Elements(old(root)) - (if x.Some? then {x.value} else {})
      ensures nodeCount == old(nodeCount) - (if removed then 1 else 0)
    {
      if x.None? || root == Nil {
        return false;
      }
      var beginSize := nodeCount;
      var (t, dropped) := RemoveFrom(root, x.value);
      root := t;
      if dropped {
        nodeCount := nodeCount - 1;
      }
      removed := beginSize != nodeCount;
    }

    /** floor(v), as written; FloorMeaning says what it computes. */
    method Floor(v: int) returns (r: Outcome<Option<int>>)
      requires Valid()
      ensures r == FloorAsWritten(root, v)
    {
      if root == Nil {
        return Thrown(NullPointer);
      }
      var curr := root;
      if MinOf(root) >= v {
        return Ok(None);
      }
      while true
        invariant curr.Node? && MinOf(curr) < v
        invariant FloorFrom(curr, v) == FloorAsWritten(root, v)
        decreases Size(curr)
      {
        var temp1 := FirstLessThan(curr, v);
        SubtreeFacts(temp1, curr);
        if temp1.right == Nil {
          return Thrown(NullPointer);
        }
        var temp2 := MinOf(temp1.right);
        if temp2 >= v {
          return Ok(Some(temp1.data));
        }
        curr := temp1.right;
      }
    }
  }

  /** MyBSTIterator: a snapshot of the in-order traversal and a cursor into it. */
  class BSTIterator {
    var inOrder: seq<int>
    var cursor: int

    constructor (tree: BST)
      requires tree.Valid()
      ensures inOrder == InOrder(tree.root) && cursor == 0
    {
      var snapshot := tree.GetInOrder();
      inOrder := snapshot;
      cursor := 0;
    }

    /** hasNext() */
    method HasNext() returns (b: bool)
      requires 0 <= cursor
      ensures b <==> cursor < |inOrder|
    {
      b := cursor < |inOrder|;
    }

    /** next(): the element under the cursor, or IndexOutOfBoundsException past the end. */
    method Next() returns (r: Outcome<int>)
      requires 0 <= cursor
      modifies this
      ensures inOrder == old(inOrder)
      ensures old(cursor) >= |inOrder| ==> r == Thrown(IndexOutOfBounds) && cursor == old(cursor)
      ensures old(cursor) < |inOrder| ==> r == Ok(inOrder[old(cursor)]) && cursor == old(cursor) + 1
    {
      if cursor >= |inOrder| {
        return Thrown(IndexOutOfBounds);
      }
      r := Ok(inOrder[cursor]);
      cursor := cursor + 1;
    }
  }

  /** The tree reached by adding xs, in order, to t. */
  function AddAll(t: Tree, xs: seq<int>): Tree
    decreases |xs|
  {
    if xs == [] then t else AddAll(AddMe(t, xs[0]).0, xs[1..])
  }

  /** The tree that adding M H S D K N T A L U (as character codes) builds. */
  function LetterTree(): Tree
  {
    Node(Node(Node(Node(Nil, 65, Nil), 68, Nil), 72, Node(Nil, 75, Node(Nil, 76, Nil))), 77,
         Node(Node(Nil, 78, Nil), 83, Node(Nil, 84, Node(Nil, 85, Nil))))
  }

  /** The tree after the first five letters, M H S D K; adding N T A L U to it gives the letter tree. */
  function LetterHalfTree(): Tree
  {
    Node(Node(Node(Nil, 68, Nil), 72, Node(Nil, 75, Nil)), 77, Node(Nil, 83, Nil))
  }

  lemma LetterHalfBuild()
    ensures AddAll(Nil, [77, 72, 83, 68, 75]) == LetterHalfTree()
  {
  }

  lemma LetterRestBuild()
    ensures AddAll(LetterHalfTree(), [78, 84, 65, 76, 85]) == LetterTree()
  {
  }

  /** The in-order traversal of the letter tree: A D H K L M N S T U. */
  lemma LetterInOrder()
    ensures InOrder(LetterTree()) == [65, 68, 72, 75, 76, 77, 78, 83, 84, 85]
  {
  }

  /** The pre-order traversal of the letter tree: M H D A K L S N T U. */
  lemma LetterPreOrder()
    ensures PreOrder(LetterTree()) == [77, 72, 68, 65, 75, 76, 83, 78, 84, 85]
  {
  }

  /** The post-order traversal of the letter tree: A D L K H N U T S M. */
  lemma LetterPostOrder()
    ensures PostOrder(LetterTree()) == [65, 68, 76, 75, 72, 78, 85, 84, 83, 77]
  {
  }

  /** One step of the breadth-first order: poll the head, enqueue its children. */
  lemma BfsHead(q: seq<Tree>)
    requires q != [] && q[0].Node?
    ensures Bfs(q) == [q[0].data] + Bfs(q[1..] + Children(q[0]))
  {
  }

  /** The letter tree's level order once the queue holds A L U. */
  lemma LetterLevelOrderLast(a: Tree, l: Tree, u: Tree)
    requires a == Node(Nil, 65, Nil) && l == Node(Nil, 76, Nil) && u == Node(Nil, 85, Nil)
    ensures Bfs([a, l, u]) == [65, 76, 85]
  {
    assert Bfs([a, l, u]) == [65] + Bfs([l, u]) by {
      BfsHead([a, l, u]);
      assert [a, l, u][1..] + Children(a) == [l, u];
    }
    assert Bfs([l, u]) == [76] + Bfs([u]) by {
      BfsHead([l, u]);
      assert [l, u][1..] + Children(l) == [u];
    }
    assert Bfs([u]) == [85] by {
      BfsHead([u]);
      assert [u][1..] + Children(u) == [];
    }
  }

  /** The letter tree's level order once the queue holds K N T A. */
  lemma LetterLevelOrderTail(k: Tree, n: Tree, t: Tree, a: Tree)
    requires k == Node(Nil, 75, Node(Nil, 76, Nil)) && n == Node(Nil, 78, Nil)
    requires t == Node(Nil, 84, Node(Nil, 85, Nil)) && a == Node(Nil, 65, Nil)
    ensures Bfs([k, n, t, a]) == [75, 78, 84, 65, 76, 85]
  {
    var l, u := k.right, t.right;
    assert Bfs([k, n, t, a]) == [75] + Bfs([n, t, a, l]) by {
      BfsHead([k, n, t, a]);
      assert [k, n, t, a][1..] + Children(k) == [n, t, a, l];
    }
    assert Bfs([n, t, a, l]) == [78] + Bfs([t, a, l]) by {
      BfsHead([n, t, a, l]);
      assert [n, t, a, l][1..] + Children(n) == [t, a, l];
    }
    assert Bfs([t, a, l]) == [84] + Bfs([a, l, u]) by {
      BfsHead([t, a, l]);
      assert [t, a, l][1..] + Children(t) == [a, l, u];
    }
    LetterLevelOrderLast(a, l, u);
  }

  /** The first four steps of the level order of a tree shaped like the letter tree. */
  lemma LetterLevelOrderHead(m: Tree, h: Tree, s: Tree, d: Tree, k: Tree, n: Tree, t: Tree, a: Tree)
    requires m == Node(h, 77, s) && h == Node(d, 72, k) && s == Node(n, 83, t) && d == Node(a, 68, Nil)
    requires k.Node? && n.Node? && t.Node? && a.Node?
    ensures Bfs([m]) == [77, 72, 83, 68] + Bfs([k, n, t, a])
  {
    assert Bfs([m]) == [77] + Bfs([h, s]) by {
      BfsHead([m]);
      assert [m][1..] + Children(m) == [h, s];
    }
    assert Bfs([h, s]) == [72] + Bfs([s, d, k]) by {
      BfsHead([h, s]);
      assert [h, s][1..] + Children(h) == [s, d, k];
    }
    assert Bfs([s, d, k]) == [83] + Bfs([d, k, n, t]) by {
      BfsHead([s, d, k]);
      assert [s, d, k][1..] + Children(s) == [d, k, n, t];
    }
    assert Bfs([d, k, n, t]) == [68] + Bfs([k, n, t, a]) by {
      BfsHead([d, k, n, t]);
      assert [d, k, n, t][1..] + Children(d) == [k, n, t, a];
    }
  }

  /** The level order of the letter tree: M H S D K N T A L U. */
  lemma LetterLevelOrder()
    ensures Bfs([LetterTree()]) == [77, 72, 83, 68, 75, 78, 84, 65, 76, 85]
  {
    var a, k := Node(Nil, 65, Nil), Node(Nil, 75, Node(Nil, 76, Nil));
    var n, t := Node(Nil, 78, Nil), Node(Nil, 84, Node(Nil, 85, Nil));
    var d := Node(a, 68, Nil);
    LetterLevelOrderHead(LetterTree(), Node(d, 72, k), Node(n, 83, t), d, k, n, t, a);
    LetterLevelOrderTail(k, n, t, a);
  }

  /**
   * Removing K (one child) lifts L into its place; removing the root M (two
   * children) puts its successor N there.
   */
  lemma LetterRemovals()
    ensures RemoveFrom(LetterTree(), 75) ==
      (Node(Node(Node(Node(Nil, 65, Nil), 68, Nil), 72, Node(Nil, 76, Nil)), 77,
            Node(Node(Nil, 78, Nil), 83, Node(Nil, 84, Node(Nil, 85, Nil)))), true)
    ensures RemoveFrom(LetterTree(), 77) ==
      (Node(Node(Node(Node(Nil, 65, Nil), 68, Nil), 72, Node(Nil, 75, Node(Nil, 76, Nil))), 78,
            Node(Nil, 83, Node(Nil, 84, Node(Nil, 85, Nil)))), true)
  {
  }

  /** The tree that adding 24 34 14 20 27 45 18 builds. */
  function NumberTree(): Tree
  {
    Node(Node(Nil, 14, Node(Node(Nil, 18, Nil), 20, Nil)), 24, Node(Node(Nil, 27, Nil), 34, Node(Nil, 45, Nil)))
  }

  lemma NumberBuild()
    ensures AddAll(Nil, [24, 34, 14, 20, 27, 45, 18]) == NumberTree()
  {
  }

  /**
   * floor as written on the number tree: null, 14, 34 and 24 for 14, 17, 45
   * and 27, each strictly below its argument, but a null dereference for 21
   * (the node 20 has no right child) and 34 itself for 34.
   */
  lemma FloorCounterexample()
    ensures FloorAsWritten(NumberTree(), 14) == Ok(None) && FloorAsWritten(NumberTree(), 17) == Ok(Some(14))
    ensures FloorAsWritten(NumberTree(), 45) == Ok(Some(34)) && FloorAsWritten(NumberTree(), 27) == Ok(Some(24))
    ensures FloorAsWritten(NumberTree(), 21) == Thrown(NullPointer) && FloorAsWritten(NumberTree(), 34) == Ok(Some(34))
  {
  }

  /** The corrected floor on the number tree: 20 for 21 and 27 for 34, agreeing elsewhere. */
  lemma FloorBelowExamples()
    ensures FloorBelow(NumberTree(), 14) == None && FloorBelow(NumberTree(), 17) == Some(14)
    ensures FloorBelow(NumberTree(), 45) == Some(34) && FloorBelow(NumberTree(), 27) == Some(24)
    ensures FloorBelow(NumberTree(), 21) == Some(20) && FloorBelow(NumberTree(), 34) == Some(27)
  {
  }
}
