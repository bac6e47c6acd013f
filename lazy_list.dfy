/**
 * The lazy-deletion doubly-linked list of HW2. Removing an element only marks
 * its node deleted and pushes the node on a stack; a later add reuses the most
 * recently deleted node, and compress pops the stack and unlinks each node.
 *
 * The nodes live in an arena: a node reference is an index into `nodes` and
 * -1 stands for null. The ghost `chain` lists the node indices met from head
 * to tail; `Live` reads the list's elements off it and `Dead` the nodes that
 * are marked deleted but still linked.
 */
module LazyLists {
  import opened Common

  /** The null reference. */
  const Null := -1

  datatype Node<T> = Node(data: T, left: int, right: int, isDeleted: bool)

  /** The list's fields: the node arena, the end pointers, both counters and the stack of deleted nodes (top last). */
  datatype Arena<T> = Arena(nodes: seq<Node<T>>, head: int, tail: int, count: int, deletedCount: int, deleted: seq<int>)

  /** What a run of compress's loop leaves: the fields, the nodes popped, and the exception it stopped on, if any. */
  datatype Compressed<T> = Compressed(state: Arena<T>, popped: int, failure: Option<Failure>)

  predicate IsRef<T>(nodes: seq<Node<T>>, p: int)
  {
    p == Null || 0 <= p < |nodes|
  }

  /** Every reference held by the list or by a node is null or a node of the arena. */
  ghost predicate Closed<T>(s: Arena<T>)
  {
    && IsRef(s.nodes, s.head) && IsRef(s.nodes, s.tail)
    && RefsIn(s.nodes)
    && (forall i :: 0 <= i < |s.deleted| ==> 0 <= s.deleted[i] < |s.nodes|)
  }

  ghost predicate RefsIn<T>(nodes: seq<Node<T>>)
  {
    forall i :: 0 <= i < |nodes| ==> IsRef(nodes, nodes[i].left) && IsRef(nodes, nodes[i].right)
  }

  /** Replacing one node by one whose links are references keeps every link a reference. */
  lemma Relinked<T>(nodes: seq<Node<T>>, i: int, n: Node<T>)
    requires RefsIn(nodes) && 0 <= i < |nodes| && IsRef(nodes, n.left) && IsRef(nodes, n.right)
    ensures RefsIn(nodes[i := n])
  {
  }

  ghost predicate Distinct(c: seq<int>)
  {
    forall a, b :: 0 <= a < b < |c| ==> c[a] != c[b]
  }

  /** `chain` is the doubly-linked list from head to tail: right links go forward, left links back. */
  ghost predicate Linked<T>(s: Arena<T>, chain: seq<int>)
  {
    LinkedParts(s.nodes, s.head, s.tail, chain)
  }

  ghost predicate LinkedParts<T>(nodes: seq<Node<T>>, head: int, tail: int, chain: seq<int>)
  {
    && (forall k :: 0 <= k < |chain| ==> 0 <= chain[k] < |nodes|)
    && Distinct(chain)
    && head == (if chain == [] then Null else chain[0])
    && tail == (if chain == [] then Null else chain[|chain| - 1])
    && (forall k {:trigger nodes[chain[k]]} :: 0 <= k < |chain| ==>
          nodes[chain[k]].right == (if k + 1 < |chain| then chain[k + 1] else Null) &&
          nodes[chain[k]].left == (if k > 0 then chain[k - 1] else Null))
  }

  /** The data of the nodes along `chain` that are not marked deleted: the list's elements. */
  ghost function Live<T>(nodes: seq<Node<T>>, chain: seq<int>): seq<T>
  {
    if chain == [] then []
    else
      (if 0 <= chain[0] < |nodes| && !nodes[chain[0]].isDeleted then [nodes[chain[0]].data] else [])
      + Live(nodes, chain[1..])
  }

  /** The nodes along `chain` marked deleted but still linked. */
  ghost function Dead<T>(nodes: seq<Node<T>>, chain: seq<int>): seq<int>
  {
    if chain == [] then []
    else
      (if 0 <= chain[0] < |nodes| && nodes[chain[0]].isDeleted then [chain[0]] else [])
      + Dead(nodes, chain[1..])
  }

  /**
   * The list's invariant: a well-linked chain whose deleted nodes are exactly
   * the ones on the stack, with count and deletedCount their numbers.
   */
  ghost predicate Wellformed<T>(s: Arena<T>, chain: seq<int>)
  {
    && Closed(s) && Linked(s, chain)
    && Bag(s.deleted) == Bag(Dead(s.nodes, chain))
    && s.count == |Live(s.nodes, chain)|
    && s.deletedCount == |s.deleted|
  }

  /** The nodes of a stack as a bag: which nodes it holds, and how often. */
  ghost function Bag(xs: seq<int>): multiset<int>
  {
    if xs == [] then multiset{} else Bag(xs[..|xs| - 1]) + multiset{xs[|xs| - 1]}
  }

  /** The data met by following right links from node p, at most `fuel` nodes: what the iterator yields. */
  function Walk<T>(nodes: seq<Node<T>>, p: int, fuel: nat): seq<T>
    decreases fuel
  {
    if fuel == 0 || !(0 <= p < |nodes|) then [] else [nodes[p].data] + Walk(nodes, nodes[p].right, fuel - 1)
  }

  /** The list's elements with the first occurrence of x taken out. */
  ghost function RemoveFirst<T>(xs: seq<T>, x: T): seq<T>
  {
    if xs == [] then []
    else
      if xs[0] == x then xs[1..] else [xs[0]] + RemoveFirst(xs[1..], x)
  }

  /** Position on `chain` of the first live node holding `item`; |chain| when there is none. */
  ghost function FirstLive<T>(nodes: seq<Node<T>>, chain: seq<int>, item: T): (k: nat)
    ensures k <= |chain|
  {
    if chain == [] then 0
    else if 0 <= chain[0] < |nodes| && !nodes[chain[0]].isDeleted && nodes[chain[0]].data == item then 0
    else 1 + FirstLive(nodes, chain[1..], item)
  }

  // ---------------------------------------------------------------------------
  // add and remove on the fields

  /** add with nothing to reuse into an empty list: the new node is head and tail. */
  function AddAlone<T>(s: Arena<T>, data: T): Arena<T>
  {
    var m := |s.nodes|;
    s.(nodes := s.nodes + [Node(data, Null, Null, false)], head := m, tail := m, count := s.count + 1)
  }

  /** add with nothing to reuse: a new node is linked after the tail and becomes the tail. */
  function AddAfter<T>(s: Arena<T>, data: T): Arena<T>
    requires 0 <= s.tail < |s.nodes|
  {
    var m := |s.nodes|;
    s.(nodes := s.nodes[s.tail := s.nodes[s.tail].(right := m)] + [Node(data, s.tail, Null, false)],
       tail := m, count := s.count + 1)
  }

  /** add with a deleted node waiting: the top of the stack is popped and revived with the data. */
  function Revive<T>(s: Arena<T>, data: T): Arena<T>
    requires s.deleted != [] && 0 <= s.deleted[|s.deleted| - 1] < |s.nodes|
  {
    var t := s.deleted[|s.deleted| - 1];
    s.(nodes := s.nodes[t := s.nodes[t].(data := data, isDeleted := false)],
       deleted := s.deleted[..|s.deleted| - 1], deletedCount := s.deletedCount - 1, count := s.count + 1)
  }

  /** remove's hit: node c is marked deleted and pushed on the stack. */
  function Mark<T>(s: Arena<T>, c: int): Arena<T>
    requires 0 <= c < |s.nodes|
  {
    s.(nodes := s.nodes[c := s.nodes[c].(isDeleted := true)],
       deleted := s.deleted + [c], deletedCount := s.deletedCount + 1, count := s.count - 1)
  }

  // ---------------------------------------------------------------------------
  // Facts about Live and Dead

  lemma LiveAppend<T>(nodes: seq<Node<T>>, a: seq<int>, b: seq<int>)
    ensures Live(nodes, a + b) == Live(nodes, a) + Live(nodes, b)
    ensures Dead(nodes, a + b) == Dead(nodes, a) + Dead(nodes, b)
  {
    LiveCat(nodes, a, b);
    DeadCat(nodes, a, b);
  }

  lemma {:induction false} LiveCat<T>(nodes: seq<Node<T>>, a: seq<int>, b: seq<int>)
    ensures Live(nodes, a + b) == Live(nodes, a) + Live(nodes, b)
  {
    if a == [] {
      assert a + b == b;
    } else {
      assert (a + b)[0] == a[0] && (a + b)[1..] == a[1..] + b;
      LiveCat(nodes, a[1..], b);
    }
  }

  lemma {:induction false} DeadCat<T>(nodes: seq<Node<T>>, a: seq<int>, b: seq<int>)
    ensures Dead(nodes, a + b) == Dead(nodes, a) + Dead(nodes, b)
  {
    if a == [] {
      assert a + b == b;
    } else {
      assert (a + b)[0] == a[0] && (a + b)[1..] == a[1..] + b;
      DeadCat(nodes, a[1..], b);
    }
  }

  /** Live and Dead only look at the data and the deleted flags of the chain's nodes. */
  ghost predicate SameMarks<T>(n1: seq<Node<T>>, n2: seq<Node<T>>, c: seq<int>)
  {
    forall k :: 0 <= k < |c| ==>
      (0 <= c[k] < |n1| <==> 0 <= c[k] < |n2|) &&
      (0 <= c[k] < |n1| ==> n1[c[k]].data == n2[c[k]].data && n1[c[k]].isDeleted == n2[c[k]].isDeleted)
  }

  lemma {:induction false} LiveAgree<T>(n1: seq<Node<T>>, n2: seq<Node<T>>, c: seq<int>)
    requires SameMarks(n1, n2, c)
    ensures Live(n1, c) == Live(n2, c) && Dead(n1, c) == Dead(n2, c)
  {
    if c != [] {
      assert SameMarks(n1, n2, c[1..]) by {
        forall k | 0 <= k < |c[1..]|
          ensures c[1..][k] == c[k + 1]
        {
        }
      }
      LiveAgree(n1, n2, c[1..]);
    }
  }

  /** Two arenas whose nodes differ in their links at most. */
  ghost predicate SameMarksAll<T>(n1: seq<Node<T>>, n2: seq<Node<T>>)
  {
    |n1| == |n2| &&
    forall i :: 0 <= i < |n1| ==> n1[i].data == n2[i].data && n1[i].isDeleted == n2[i].isDeleted
  }

  /** Two arenas whose nodes differ in their data and deleted flags at most. */
  ghost predicate SameLinks<T>(n1: seq<Node<T>>, n2: seq<Node<T>>)
  {
    |n1| == |n2| &&
    forall i :: 0 <= i < |n1| ==> n1[i].left == n2[i].left && n1[i].right == n2[i].right
  }

  /** Relinking nodes leaves Live and Dead alone. */
  lemma LinksOnly<T>(n1: seq<Node<T>>, n2: seq<Node<T>>, c: seq<int>)
    requires SameMarksAll(n1, n2)
    ensures Live(n1, c) == Live(n2, c) && Dead(n1, c) == Dead(n2, c)
  {
    LiveAgree(n1, n2, c);
  }

  /** Changing data and deleted flags only keeps the links and the references. */
  lemma MarksOnly<T>(s: Arena<T>, s2: Arena<T>, chain: seq<int>)
    requires Closed(s) && Linked(s, chain) && SameLinks(s.nodes, s2.nodes)
    requires s2.head == s.head && s2.tail == s.tail
    requires forall i :: 0 <= i < |s2.deleted| ==> 0 <= s2.deleted[i] < |s2.nodes|
    ensures Closed(s2) && Linked(s2, chain)
  {
    forall k | 0 <= k < |chain|
      ensures s2.nodes[chain[k]].right == (if k + 1 < |chain| then chain[k + 1] else Null)
      ensures s2.nodes[chain[k]].left == (if k > 0 then chain[k - 1] else Null)
    {
      assert s.nodes[chain[k]].right == (if k + 1 < |chain| then chain[k + 1] else Null);
    }
  }

  /** Every node of the chain is either live or dead. */
  lemma {:induction false} LiveDeadCount<T>(nodes: seq<Node<T>>, chain: seq<int>)
    requires forall k :: 0 <= k < |chain| ==> 0 <= chain[k] < |nodes|
    ensures |Live(nodes, chain)| + |Dead(nodes, chain)| == |chain|
  {
    if chain != [] {
      LiveDeadCount(nodes, chain[1..]);
    }
  }

  /** A dead node sits at some position of the chain. */
  lemma {:induction false} DeadAt<T>(nodes: seq<Node<T>>, chain: seq<int>, x: int) returns (k: int)
    requires x in Dead(nodes, chain)
    ensures 0 <= k < |chain| && chain[k] == x && 0 <= x < |nodes| && nodes[x].isDeleted
  {
    if 0 <= chain[0] < |nodes| && nodes[chain[0]].isDeleted && chain[0] == x {
      k := 0;
    } else {
      var j := DeadAt(nodes, chain[1..], x);
      k := j + 1;
    }
  }

  /** The chain cut around position k: before it, the node itself, after it. */
  lemma SplitAt<T>(nodes: seq<Node<T>>, chain: seq<int>, k: int)
    requires 0 <= k < |chain|
    ensures Live(nodes, chain) == Live(nodes, chain[..k]) + Live(nodes, [chain[k]]) + Live(nodes, chain[k + 1..])
    ensures Dead(nodes, chain) == Dead(nodes, chain[..k]) + Dead(nodes, [chain[k]]) + Dead(nodes, chain[k + 1..])
  {
    assert chain == chain[..k] + ([chain[k]] + chain[k + 1..]);
    LiveAppend(nodes, chain[..k], [chain[k]] + chain[k + 1..]);
    LiveAppend(nodes, [chain[k]], chain[k + 1..]);
  }

  /** One more step along the chain. */
  lemma LiveSnoc<T>(nodes: seq<Node<T>>, chain: seq<int>, k: int)
    requires 0 <= k < |chain|
    ensures Live(nodes, chain[..k + 1]) == Live(nodes, chain[..k]) + Live(nodes, [chain[k]])
  {
    assert chain[..k + 1] == chain[..k] + [chain[k]];
    LiveAppend(nodes, chain[..k], [chain[k]]);
  }

  /** The chain without the node at position k. */
  lemma LiveWithout<T>(nodes: seq<Node<T>>, chain: seq<int>, k: int)
    requires 0 <= k < |chain|
    ensures Live(nodes, chain[..k] + chain[k + 1..]) == Live(nodes, chain[..k]) + Live(nodes, chain[k + 1..])
    ensures Dead(nodes, chain[..k] + chain[k + 1..]) == Dead(nodes, chain[..k]) + Dead(nodes, chain[k + 1..])
  {
    LiveAppend(nodes, chain[..k], chain[k + 1..]);
  }

  /** Nodes of a distinct chain other than the one at position k are not that node. */
  lemma OthersDiffer(chain: seq<int>, k: int)
    requires Distinct(chain) && 0 <= k < |chain|
    ensures chain[k] !in chain[..k] && chain[k] !in chain[k + 1..]
  {
    assert forall i :: 0 <= i < k ==> chain[i] != chain[k];
    assert forall i :: k < i < |chain| ==> chain[i] != chain[k];
  }

  /** A change at node chain[k] alone leaves Live and Dead of the parts before and after it alone. */
  lemma OutsideParts<T>(nodes: seq<Node<T>>, n2: seq<Node<T>>, chain: seq<int>, k: int)
    requires forall j :: 0 <= j < |chain| ==> 0 <= chain[j] < |nodes|
    requires Distinct(chain) && 0 <= k < |chain| && |n2| == |nodes|
    requires forall i :: 0 <= i < |nodes| && i != chain[k] ==> n2[i] == nodes[i]
    ensures Live(n2, chain[..k]) == Live(nodes, chain[..k]) && Dead(n2, chain[..k]) == Dead(nodes, chain[..k])
    ensures Live(n2, chain[k + 1..]) == Live(nodes, chain[k + 1..]) && Dead(n2, chain[k + 1..]) == Dead(nodes, chain[k + 1..])
  {
    OthersDiffer(chain, k);
    var a := chain[..k];
    var b := chain[k + 1..];
    assert SameMarks(nodes, n2, a) by {
      forall j | 0 <= j < |a|
        ensures a[j] == chain[j] && n2[a[j]] == nodes[a[j]]
      {
        assert a[j] in a;
      }
    }
    assert SameMarks(nodes, n2, b) by {
      forall j | 0 <= j < |b|
        ensures b[j] == chain[k + 1 + j] && n2[b[j]] == nodes[b[j]]
      {
        assert b[j] in b;
      }
    }
    LiveAgree(nodes, n2, a);
    LiveAgree(nodes, n2, b);
  }

  /** The chain split around position k, before and after a change at node chain[k] alone. */
  lemma ChangeAt<T>(nodes: seq<Node<T>>, n2: seq<Node<T>>, chain: seq<int>, k: int)
    requires forall j :: 0 <= j < |chain| ==> 0 <= chain[j] < |nodes|
    requires Distinct(chain) && 0 <= k < |chain| && |n2| == |nodes|
    requires forall i :: 0 <= i < |nodes| && i != chain[k] ==> n2[i] == nodes[i]
    ensures Live(nodes, chain) == Live(nodes, chain[..k]) + Live(nodes, [chain[k]]) + Live(nodes, chain[k + 1..])
    ensures Live(n2, chain) == Live(nodes, chain[..k]) + Live(n2, [chain[k]]) + Live(nodes, chain[k + 1..])
    ensures Dead(nodes, chain) == Dead(nodes, chain[..k]) + Dead(nodes, [chain[k]]) + Dead(nodes, chain[k + 1..])
    ensures Dead(n2, chain) == Dead(nodes, chain[..k]) + Dead(n2, [chain[k]]) + Dead(nodes, chain[k + 1..])
  {
    SplitAt(nodes, chain, k);
    SplitAt(n2, chain, k);
    OutsideParts(nodes, n2, chain, k);
  }

  /** Taking out the first occurrence removes one copy of x, when there is one, and nothing else. */
  lemma {:induction false} RemoveFirstBag<T>(xs: seq<T>, x: T)
    ensures x in xs ==> |RemoveFirst(xs, x)| == |xs| - 1 && multiset(RemoveFirst(xs, x)) == multiset(xs) - multiset{x}
    ensures x !in xs ==> RemoveFirst(xs, x) == xs
  {
    if xs != [] {
      assert xs == [xs[0]] + xs[1..];
      if xs[0] != x {
        RemoveFirstBag(xs[1..], x);
      }
    }
  }

  /** The first occurrence of x, with none before it, is the one taken out. */
  lemma {:induction false} RemoveFirstAfter<T>(xs: seq<T>, x: T, ys: seq<T>)
    requires x !in xs
    ensures RemoveFirst(xs + [x] + ys, x) == xs + ys
  {
    var t := xs + [x] + ys;
    if xs == [] {
      assert t == [x] + ys;
    } else {
      var u := xs[1..] + [x] + ys;
      assert t[0] == xs[0] && t[1..] == u;
      assert xs[0] != x && x !in xs[1..] by {
        assert xs == [xs[0]] + xs[1..];
      }
      assert RemoveFirst(t, x) == [xs[0]] + RemoveFirst(u, x);
      RemoveFirstAfter(xs[1..], x, ys);
      assert xs == [xs[0]] + xs[1..];
    }
  }

  /** The loop of remove and contains stopping at position k means FirstLive is k. */
  lemma {:induction false} FirstLiveAt<T>(nodes: seq<Node<T>>, chain: seq<int>, item: T, k: int)
    requires forall j :: 0 <= j < |chain| ==> 0 <= chain[j] < |nodes|
    requires 0 <= k <= |chain| && item !in Live(nodes, chain[..k])
    requires k < |chain| ==> !nodes[chain[k]].isDeleted && nodes[chain[k]].data == item
    ensures FirstLive(nodes, chain, item) == k
  {
    if k > 0 {
      var c1 := chain[1..];
      assert item !in Live(nodes, c1[..k - 1]) && (nodes[chain[0]].isDeleted || nodes[chain[0]].data != item) by {
        assert chain[..k] == [chain[0]] + c1[..k - 1];
        LiveCat(nodes, [chain[0]], c1[..k - 1]);
        assert [chain[0]][1..] == [];
      }
      FirstLiveAt(nodes, c1, item, k - 1);
    }
  }

  // ---------------------------------------------------------------------------
  // One pop of compress's loop

  /**
   * One turn of compress's loop as written: pop the top node and unlink it.
   * The tail branch clears the new tail's left link where its right link was
   * meant, and the middle branch never points the right neighbour back at the
   * left one. A null dereference stops the turn with the fields as they were
   * at that moment.
   */
  function PopAsWritten<T>(s: Arena<T>): (r: (Arena<T>, Option<Failure>))
    requires Closed(s) && s.deleted != []
    ensures Closed(r.0) && r.0.deleted == s.deleted[..|s.deleted| - 1] && r.0.count == s.count
    ensures r.1.None? ==> r.0.deletedCount == s.deletedCount - 1
  {
    var t := s.deleted[|s.deleted| - 1];
    var s1 := s.(deleted := s.deleted[..|s.deleted| - 1]);
    if s.deletedCount == 1 && s.count == 0 then
      (s1.(head := Null, tail := Null, deletedCount := s.deletedCount - 1), None)
    else if t == s.tail then
      var l := s.nodes[t].left;
      if l == Null then (s1.(tail := Null), Some(NullPointer))
      else
        Relinked(s.nodes, l, s.nodes[l].(left := Null));
        (s1.(tail := l, nodes := s.nodes[l := s.nodes[l].(left := Null)], deletedCount := s.deletedCount - 1), None)
    else if t == s.head then
      var r := s.nodes[t].right;
      if r == Null then (s1.(head := Null), Some(NullPointer))
      else
        Relinked(s.nodes, r, s.nodes[r].(left := Null));
        (s1.(head := r, nodes := s.nodes[r := s.nodes[r].(left := Null)], deletedCount := s.deletedCount - 1), None)
    else
      var l := s.nodes[t].left;
      if l == Null then (s1, Some(NullPointer))
      else
        Relinked(s.nodes, l, s.nodes[l].(right := s.nodes[t].right));
        (s1.(nodes := s.nodes[l := s.nodes[l].(right := s.nodes[t].right)], deletedCount := s.deletedCount - 1), None)
  }

  /**
   * One turn of compress's loop with the links fixed: the new tail's right
   * link is cleared, and a middle node's neighbours are pointed at each other
   * both ways.
   */
  function PopFixed<T>(s: Arena<T>): (r: (Arena<T>, Option<Failure>))
    requires Closed(s) && s.deleted != []
    ensures Closed(r.0) && r.0.deleted == s.deleted[..|s.deleted| - 1] && r.0.count == s.count
    ensures r.1.None? ==> r.0.deletedCount == s.deletedCount - 1
  {
    var t := s.deleted[|s.deleted| - 1];
    var s1 := s.(deleted := s.deleted[..|s.deleted| - 1]);
    if s.deletedCount == 1 && s.count == 0 then
      (s1.(head := Null, tail := Null, deletedCount := s.deletedCount - 1), None)
    else if t == s.tail then
      var l := s.nodes[t].left;
      if l == Null then (s1.(tail := Null), Some(NullPointer))
      else
        Relinked(s.nodes, l, s.nodes[l].(right := Null));
        (s1.(tail := l, nodes := s.nodes[l := s.nodes[l].(right := Null)], deletedCount := s.deletedCount - 1), None)
    else if t == s.head then
      var r := s.nodes[t].right;
      if r == Null then (s1.(head := Null), Some(NullPointer))
      else
        Relinked(s.nodes, r, s.nodes[r].(left := Null));
        (s1.(head := r, nodes := s.nodes[r := s.nodes[r].(left := Null)], deletedCount := s.deletedCount - 1), None)
    else
      var l := s.nodes[t].left;
      if l == Null then (s1, Some(NullPointer))
      else
        Relinked(s.nodes, l, s.nodes[l].(right := s.nodes[t].right));
        var n1 := s.nodes[l := s.nodes[l].(right := s.nodes[t].right)];
        var r := n1[t].right;
        if r == Null then (s1.(nodes := n1), Some(NullPointer))
        else
          Relinked(n1, r, n1[r].(left := l));
          (s1.(nodes := n1[r := n1[r].(left := l)], deletedCount := s.deletedCount - 1), None)
  }

  /** compress's whole loop as written, from the given fields until the stack is empty or a dereference fails. */
  function PopAllAsWritten<T>(s: Arena<T>): (r: Compressed<T>)
    requires Closed(s)
    ensures Closed(r.state) && r.state.count == s.count
    ensures r.failure.None? ==> r.state.deleted == [] && r.popped == |s.deleted| && r.state.deletedCount == s.deletedCount - |s.deleted|
    decreases |s.deleted|
  {
    if s.deleted == [] then Compressed(s, 0, None)
    else
      var p := PopAsWritten(s);
      if p.1.Some? then Compressed(p.0, 0, p.1)
      else
        var r := PopAllAsWritten(p.0);
        r.(popped := r.popped + 1)
  }

  // ---------------------------------------------------------------------------
  // Three small lists on which compress and iterator as written go wrong

  /** The fields of a new list. */
  function Empty<T>(): (s: Arena<T>)
    ensures Wellformed(s, []) && Live(s.nodes, []) == []
  {
    Arena([], Null, Null, 0, 0, [])
  }

  /** add(1), add(2): two live nodes. */
  function TwoAdded(): (s: Arena<int>)
    ensures s == AddAfter(AddAlone(Empty(), 1), 2)
  {
    Arena([Node(1, Null, 1, false), Node(2, 0, Null, false)], 0, 1, 2, 0, [])
  }

  /** add(1), add(2), add(3): three live nodes. */
  function ThreeAdded(): (s: Arena<int>)
    ensures s == AddAfter(TwoAdded(), 3)
  {
    Arena([Node(1, Null, 1, false), Node(2, 0, 2, false), Node(3, 1, Null, false)], 0, 2, 3, 0, [])
  }

  /** add(1), add(2), remove(2). */
  function LastRemoved(): (s: Arena<int>)
    ensures s == Mark(TwoAdded(), 1)
  {
    Arena([Node(1, Null, 1, false), Node(2, 0, Null, true)], 0, 1, 1, 1, [1])
  }

  /** add(1), add(2), remove(1). */
  function FirstRemoved(): (s: Arena<int>)
    ensures s == Mark(TwoAdded(), 0)
  {
    Arena([Node(1, Null, 1, true), Node(2, 0, Null, false)], 0, 1, 1, 1, [0])
  }

  /** add(1), add(2), add(3), remove(2), remove(3). */
  function MiddleThenLast(): (s: Arena<int>)
    ensures s == Mark(Mark(ThreeAdded(), 1), 2)
  {
    Arena(ThreeNodes(), 0, 2, 1, 2, [1, 2])
  }

  /** add(1), add(2), add(3), remove(3), remove(2). */
  function LastThenMiddle(): (s: Arena<int>)
    ensures s == Mark(Mark(ThreeAdded(), 2), 1)
  {
    Arena(ThreeNodes(), 0, 2, 1, 2, [2, 1])
  }

  /** The nodes after add(1), add(2), add(3) and removing 2 and 3 in either order. */
  function ThreeNodes(): seq<Node<int>>
  {
    [Node(1, Null, 1, false), Node(2, 0, 2, true), Node(3, 1, Null, true)]
  }

  lemma LastRemovedWellformed()
    ensures Wellformed(LastRemoved(), [0, 1])
  {
    TwoLinked();
    TwoDead();
  }

  lemma FirstRemovedWellformed()
    ensures Wellformed(FirstRemoved(), [0, 1])
  {
    TwoLinked();
    TwoDead();
  }

  lemma TwoLinked()
    ensures Linked(LastRemoved(), [0, 1]) && Closed(LastRemoved())
    ensures Linked(FirstRemoved(), [0, 1]) && Closed(FirstRemoved())
  {
    assert Distinct([0, 1]);
  }

  lemma TwoDead()
    ensures Dead(LastRemoved().nodes, [0, 1]) == [1] && Live(LastRemoved().nodes, [0, 1]) == [1]
    ensures Dead(FirstRemoved().nodes, [0, 1]) == [0] && Live(FirstRemoved().nodes, [0, 1]) == [2]
  {
    assert [0, 1][1..] == [1];
  }

  lemma ThreeWellformed(s: Arena<int>)
    requires s == MiddleThenLast() || s == LastThenMiddle()
    ensures Wellformed(s, [0, 1, 2]) && Live(s.nodes, [0, 1, 2]) == [1]
  {
    ThreeLinked(s);
    ThreeLive();
    SmallBags();
  }

  lemma ThreeLinked(s: Arena<int>)
    requires s.nodes == ThreeNodes() && s.head == 0 && s.tail == 2 && (s.deleted == [1, 2] || s.deleted == [2, 1])
    ensures Linked(s, [0, 1, 2]) && Closed(s)
  {
  }

  lemma ThreeLive()
    ensures Dead(ThreeNodes(), [0, 1, 2]) == [1, 2] && Live(ThreeNodes(), [0, 1, 2]) == [1]
  {
    assert [0, 1, 2][1..] == [1, 2] && [1, 2][1..] == [2];
  }

  lemma SmallBags()
    ensures Bag([1, 2]) == multiset{1, 2} == Bag([2, 1])
  {
    assert [1, 2][..1] == [1] && [2, 1][..1] == [2];
  }

  /** The one turn of compress's loop on add(1), add(2), remove(2): the tail moves back, its right link stays. */
  lemma PopLastRemoved()
    ensures PopAsWritten(LastRemoved()) == (Arena([Node(1, Null, 1, false), Node(2, 0, Null, true)], 0, 0, 1, 0, []), None)
  {
    var n := LastRemoved().nodes;
    assert n[0 := n[0].(left := Null)] == n;
  }

  /** The one turn of compress's loop on add(1), add(2), remove(1): the head moves on. */
  lemma PopFirstRemoved()
    ensures PopAsWritten(FirstRemoved()) == (Arena([Node(1, Null, 1, true), Node(2, Null, Null, false)], 1, 1, 1, 0, []), None)
  {
    var n := FirstRemoved().nodes;
    assert n[1 := n[1].(left := Null)] == [Node(1, Null, 1, true), Node(2, Null, Null, false)];
  }

  /** The two turns of compress's loop on add(1), add(2), add(3), remove(3), remove(2). */
  lemma PopLastThenMiddle()
    ensures PopAsWritten(LastThenMiddle()) == (Arena([Node(1, Null, 2, false), Node(2, 0, 2, true), Node(3, 1, Null, true)], 0, 2, 1, 1, [2]), None)
    ensures PopAsWritten(Arena([Node(1, Null, 2, false), Node(2, 0, 2, true), Node(3, 1, Null, true)], 0, 2, 1, 1, [2]))
      == (Arena([Node(1, Null, 2, false), Node(2, Null, 2, true), Node(3, 1, Null, true)], 0, 1, 1, 0, []), None)
  {
    assert [2, 1][..1] == [2] && [2][..0] == [];
    var n := ThreeNodes();
    assert n[0 := n[0].(right := n[1].right)] == [Node(1, Null, 2, false), Node(2, 0, 2, true), Node(3, 1, Null, true)];
    var n1 := [Node(1, Null, 2, false), Node(2, 0, 2, true), Node(3, 1, Null, true)];
    assert n1[1 := n1[1].(left := Null)] == [Node(1, Null, 2, false), Node(2, Null, 2, true), Node(3, 1, Null, true)];
  }

  /**
   * add(1), add(2), remove(2): compress's tail branch clears the new tail's
   * left link, so its right link still reaches the removed node and the
   * iterator yields 1 and 2 where the list holds only 1.
   */
  lemma TailUnlinkAsWritten()
    ensures Wellformed(LastRemoved(), [0, 1]) && Live(LastRemoved().nodes, [0, 1]) == [1]
    ensures var c := PopAllAsWritten(LastRemoved());
      && c.failure.None? && c.popped == 1
      && Walk(c.state.nodes, LastRemoved().head, 3) == [1, 2]
  {
    LastRemovedWellformed();
    TwoDead();
    PopLastRemoved();
  }

  /**
   * add(1), add(2), add(3), remove(2), remove(3): once the tail branch has
   * cleared the left link of the node holding 2, popping that node finds no
   * new tail, and compress throws a NullPointerException.
   */
  lemma TailUnlinkThrows()
    ensures Wellformed(MiddleThenLast(), [0, 1, 2]) && Live(MiddleThenLast().nodes, [0, 1, 2]) == [1]
    ensures PopAllAsWritten(MiddleThenLast()).failure == Some(NullPointer)
  {
    ThreeWellformed(MiddleThenLast());
    var s := MiddleThenLast();
    var p := PopAsWritten(s);
    assert p.0 == s.(nodes := s.nodes[1 := Node(2, Null, 2, true)], tail := 1, deletedCount := 1, deleted := [1]) && p.1 == None;
    assert PopAsWritten(p.0).1 == Some(NullPointer);
  }

  /**
   * add(1), add(2), add(3), remove(3), remove(2): the middle branch leaves
   * the left link of the node holding 3 on the removed node, so the tail
   * branch then moves the tail back onto it; the iterator yields 1 and 3.
   */
  lemma MiddleUnlinkAsWritten()
    ensures Wellformed(LastThenMiddle(), [0, 1, 2]) && Live(LastThenMiddle().nodes, [0, 1, 2]) == [1]
    ensures var c := PopAllAsWritten(LastThenMiddle());
      && c.failure.None? && c.popped == 2 && c.state.tail == 1
      && Walk(c.state.nodes, LastThenMiddle().head, 4) == [1, 3]
  {
    ThreeWellformed(LastThenMiddle());
    PopAllLastThenMiddle();
    WalkAfterMiddle();
    var c := PopAllAsWritten(LastThenMiddle());
    assert c.state.nodes == [Node(1, Null, 2, false), Node(2, Null, 2, true), Node(3, 1, Null, true)];
    assert LastThenMiddle().head == 0;
  }

  /** The walk from node 0 once both pops are done: node 0's right link skips to node 2. */
  lemma WalkAfterMiddle()
    ensures Walk([Node(1, Null, 2, false), Node(2, Null, 2, true), Node(3, 1, Null, true)], 0, 4) == [1, 3]
  {
    var n := [Node(1, Null, 2, false), Node(2, Null, 2, true), Node(3, 1, Null, true)];
    assert Walk(n, 2, 3) == [3];
  }

  /** compress as written on add(1), add(2), add(3), remove(3), remove(2): both pops succeed. */
  lemma PopAllLastThenMiddle()
    ensures PopAllAsWritten(LastThenMiddle())
      == Compressed(Arena([Node(1, Null, 2, false), Node(2, Null, 2, true), Node(3, 1, Null, true)], 0, 1, 1, 0, []), 2, None)
  {
    PopLastThenMiddle();
    var mid := Arena([Node(1, Null, 2, false), Node(2, 0, 2, true), Node(3, 1, Null, true)], 0, 2, 1, 1, [2]);
    var last := Arena([Node(1, Null, 2, false), Node(2, Null, 2, true), Node(3, 1, Null, true)], 0, 1, 1, 0, []);
    assert PopAllAsWritten(last) == Compressed(last, 0, None);
    assert PopAllAsWritten(mid) == Compressed(last, 1, None);
  }

  /**
   * add(1), add(2), remove(1): iterator reads the head before compress
   * moves it past the removed node, so the walk starts on that node and
   * yields 1 and 2 where the list holds only 2.
   */
  lemma StaleHeadAsWritten()
    ensures Wellformed(FirstRemoved(), [0, 1]) && Live(FirstRemoved().nodes, [0, 1]) == [2]
    ensures var c := PopAllAsWritten(FirstRemoved());
      && c.failure.None? && c.state.head == 1
      && Walk(c.state.nodes, FirstRemoved().head, 3) == [1, 2]
  {
    FirstRemovedWellformed();
    TwoDead();
    PopFirstRemoved();
  }

  // Unlinking one node, by its place on the chain

  lemma DistinctWithout(chain: seq<int>, k: int)
    requires Distinct(chain) && 0 <= k < |chain|
    ensures Distinct(chain[..k] + chain[k + 1..])
  {
    var rest := chain[..k] + chain[k + 1..];
    forall a, b | 0 <= a < b < |rest|
      ensures rest[a] != rest[b]
    {
      var a' := if a < k then a else a + 1;
      var b' := if b < k then b else b + 1;
      assert rest[a] == chain[a'] && rest[b] == chain[b'];
    }
  }

  /** The last node unlinked: the one before it becomes the tail. */
  lemma UnlinkLast<T>(s: Arena<T>, chain: seq<int>)
    requires Linked(s, chain) && |chain| >= 2
    ensures var l := chain[|chain| - 2];
      LinkedParts(s.nodes[l := s.nodes[l].(right := Null)], s.head, l, chain[..|chain| - 1])
  {
    var k := |chain| - 1;
    var l := chain[k - 1];
    var n2 := s.nodes[l := s.nodes[l].(right := Null)];
    forall j | 0 <= j < k - 1
      ensures n2[chain[j]] == s.nodes[chain[j]]
    {
      assert chain[j] != l;
    }
  }

  /** The first node unlinked: the one after it becomes the head. */
  lemma UnlinkFirst<T>(s: Arena<T>, chain: seq<int>)
    requires Linked(s, chain) && |chain| >= 2
    ensures var r := chain[1];
      LinkedParts(s.nodes[r := s.nodes[r].(left := Null)], r, s.tail, chain[1..])
  {
    var r := chain[1];
    var n2 := s.nodes[r := s.nodes[r].(left := Null)];
    var c := chain[1..];
    forall j | 0 <= j < |c|
      ensures c[j] == chain[j + 1] && 0 <= c[j] < |n2|
      ensures n2[c[j]].right == (if j + 1 < |c| then c[j + 1] else Null)
      ensures n2[c[j]].left == (if j > 0 then c[j - 1] else Null)
    {
      assert c[j] == chain[j + 1];
      if j > 0 {
        assert chain[j + 1] != chain[1];
        assert 0 <= chain[j + 1] < |s.nodes|;
        assert chain[j + 1] != r;
        assert n2[chain[j + 1]] == s.nodes[chain[j + 1]];
        assert n2[c[j]] == s.nodes[chain[j + 1]];
        assert s.nodes[chain[j + 1]].right == (if j + 2 < |chain| then chain[j + 2] else Null);
        assert n2[c[j]].right == (if j + 2 < |chain| then chain[j + 2] else Null);
      } else {
        assert n2[c[j]].right == s.nodes[chain[1]].right;
      }
      if j + 1 < |c| {
        assert c[j + 1] == chain[j + 2];
      }
    }
    forall a, b | 0 <= a < b < |c|
      ensures c[a] != c[b]
    {
      assert c[a] == chain[a + 1] && c[b] == chain[b + 1];
    }
    assert c != [] && c[0] == r && c[|c| - 1] == chain[|chain| - 1];
  }

  /** A middle node unlinked: its neighbours are pointed at each other. */
  lemma UnlinkMiddle<T>(s: Arena<T>, chain: seq<int>, k: int)
    requires Linked(s, chain) && 0 < k < |chain| - 1
    ensures var l := chain[k - 1]; var r := chain[k + 1];
      var n1 := s.nodes[l := s.nodes[l].(right := r)];
      LinkedParts(n1[r := n1[r].(left := l)], s.head, s.tail, chain[..k] + chain[k + 1..])
  {
    var l := chain[k - 1];
    var r := chain[k + 1];
    var n1 := s.nodes[l := s.nodes[l].(right := r)];
    var n2 := n1[r := n1[r].(left := l)];
    var rest := chain[..k] + chain[k + 1..];
    DistinctWithout(chain, k);
    forall j | 0 <= j < |rest|
      ensures 0 <= rest[j] < |n2|
      ensures n2[rest[j]].right == (if j + 1 < |rest| then rest[j + 1] else Null)
      ensures n2[rest[j]].left == (if j > 0 then rest[j - 1] else Null)
    {
      MiddleAt(s, chain, k, j);
    }
    assert rest[0] == chain[0] && rest[|rest| - 1] == chain[|chain| - 1];
  }

  /** UnlinkMiddle at one position j of the shortened chain. */
  lemma MiddleAt<T>(s: Arena<T>, chain: seq<int>, k: int, j: int)
    requires Linked(s, chain) && 0 < k < |chain| - 1 && 0 <= j < |chain| - 1
    ensures var l := chain[k - 1]; var r := chain[k + 1];
      var n1 := s.nodes[l := s.nodes[l].(right := r)];
      var n2 := n1[r := n1[r].(left := l)];
      var rest := chain[..k] + chain[k + 1..];
      && 0 <= rest[j] < |n2|
      && n2[rest[j]].right == (if j + 1 < |rest| then rest[j + 1] else Null)
      && n2[rest[j]].left == (if j > 0 then rest[j - 1] else Null)
  {
    var l := chain[k - 1];
    var r := chain[k + 1];
    var n1 := s.nodes[l := s.nodes[l].(right := r)];
    var n2 := n1[r := n1[r].(left := l)];
    var rest := chain[..k] + chain[k + 1..];
    var i := if j < k then j else j + 1;
    assert rest[j] == chain[i];
    assert l != r;
    if i == k - 1 {
      assert n2[l] == s.nodes[l].(right := r);
      assert s.nodes[chain[i]].left == (if i > 0 then chain[i - 1] else Null);
    } else if i == k + 1 {
      assert n2[r] == s.nodes[r].(left := l);
      assert s.nodes[chain[i]].right == (if i + 1 < |chain| then chain[i + 1] else Null);
    } else {
      assert chain[i] != l && chain[i] != r;
      assert n2[chain[i]] == s.nodes[chain[i]];
      assert s.nodes[chain[i]].right == (if i + 1 < |chain| then chain[i + 1] else Null);
    }
    if j + 1 < |rest| {
      assert rest[j + 1] == chain[if j + 1 < k then j + 1 else j + 2];
    }
    if j > 0 {
      assert rest[j - 1] == chain[if j - 1 < k then j - 1 else j];
    }
  }

  lemma {:induction false} BagIs(xs: seq<int>)
    ensures Bag(xs) == multiset(xs)
  {
    if xs != [] {
      BagIs(xs[..|xs| - 1]);
      assert xs == xs[..|xs| - 1] + [xs[|xs| - 1]];
    }
  }

  /** The node on top of the stack is a dead node of the chain; the chain holds count + deletedCount nodes. */
  lemma TopAt<T>(s: Arena<T>, chain: seq<int>) returns (k: int)
    requires Wellformed(s, chain) && s.deleted != []
    ensures 0 <= k < |chain| && chain[k] == s.deleted[|s.deleted| - 1] && s.nodes[chain[k]].isDeleted
    ensures |chain| == s.count + s.deletedCount
  {
    var t := s.deleted[|s.deleted| - 1];
    BagIs(s.deleted);
    BagIs(Dead(s.nodes, chain));
    assert t in multiset(s.deleted);
    k := DeadAt(s.nodes, chain, t);
    LiveDeadCount(s.nodes, chain);
    assert |multiset(s.deleted)| == |multiset(Dead(s.nodes, chain))|;
  }

  /** Popping t off a stack that matches a + [t] + b leaves a stack matching a + b. */
  lemma PopFromBag(d: seq<int>, a: seq<int>, t: int, b: seq<int>)
    requires d != [] && d[|d| - 1] == t && Bag(d) == Bag(a + [t] + b)
    ensures Bag(d[..|d| - 1]) == Bag(a + b)
  {
    var d2 := d[..|d| - 1];
    assert Bag(d) == Bag(d2) + multiset{t};
    BagMiddle(a, t, b);
    BagCancel(Bag(d2), Bag(a + b), t);
  }

  /** Pushing t on a stack that matches a + b gives a stack matching a + [t] + b. */
  lemma PushOnBag(d: seq<int>, a: seq<int>, t: int, b: seq<int>)
    requires Bag(d) == Bag(a + b)
    ensures Bag(d + [t]) == Bag(a + [t] + b)
  {
    assert (d + [t])[..|d + [t]| - 1] == d;
    assert Bag(d + [t]) == Bag(d) + multiset{t};
    BagMiddle(a, t, b);
  }

  lemma BagMiddle(a: seq<int>, t: int, b: seq<int>)
    ensures Bag(a + [t] + b) == Bag(a + b) + multiset{t}
  {
    BagIs(a + [t] + b);
    BagIs(a + b);
    assert multiset(a + [t] + b) == multiset(a + b) + multiset{t};
  }

  lemma BagCancel(x: multiset<int>, y: multiset<int>, t: int)
    requires x + multiset{t} == y + multiset{t}
    ensures x == y
  {
    assert x == x + multiset{t} - multiset{t};
  }

  /** The chain without its dead node at position k, seen split around that position. */
  lemma RestParts<T>(nodes: seq<Node<T>>, chain: seq<int>, k: int)
    requires 0 <= k < |chain| && 0 <= chain[k] < |nodes| && nodes[chain[k]].isDeleted
    ensures var rest := chain[..k] + chain[k + 1..];
      var da, db := Dead(nodes, chain[..k]), Dead(nodes, chain[k + 1..]);
      && Live(nodes, rest) == Live(nodes, chain)
      && Dead(nodes, chain) == da + [chain[k]] + db && Dead(nodes, rest) == da + db
  {
    var t := chain[k];
    SplitAt(nodes, chain, k);
    LiveWithout(nodes, chain, k);
    assert Live(nodes, [t]) == [] && Dead(nodes, [t]) == [t];
  }

  /** Dropping the popped dead node from the chain keeps the elements and leaves the rest of the stack. */
  lemma RestKeeps<T>(s: Arena<T>, chain: seq<int>, k: int)
    requires Wellformed(s, chain) && s.deleted != []
    requires 0 <= k < |chain| && chain[k] == s.deleted[|s.deleted| - 1] && s.nodes[chain[k]].isDeleted
    ensures var rest := chain[..k] + chain[k + 1..];
      && Live(s.nodes, rest) == Live(s.nodes, chain)
      && Bag(s.deleted[..|s.deleted| - 1]) == Bag(Dead(s.nodes, rest))
  {
    RestParts(s.nodes, chain, k);
    PopFromBag(s.deleted, Dead(s.nodes, chain[..k]), chain[k], Dead(s.nodes, chain[k + 1..]));
  }

  /** The fixed pop of the only node left. */
  lemma PopFixedOnly<T>(s: Arena<T>, chain: seq<int>)
    requires Closed(s) && s.deleted != [] && s.deletedCount == 1 && s.count == 0 && |chain| == 1
    ensures PopFixed(s).1 == None && Linked(PopFixed(s).0, chain[..0] + chain[1..])
    ensures SameMarksAll(s.nodes, PopFixed(s).0.nodes)
  {
    assert PopFixed(s) == (s.(deleted := s.deleted[..|s.deleted| - 1], head := Null, tail := Null, deletedCount := 0), None);
    assert chain[..0] + chain[1..] == [];
  }

  /** The fixed pop of the tail: the node before it becomes the tail. */
  lemma PopFixedTail<T>(s: Arena<T>, chain: seq<int>)
    requires Closed(s) && Linked(s, chain) && s.deleted != [] && |chain| >= 2
    requires s.deleted[|s.deleted| - 1] == s.tail && !(s.deletedCount == 1 && s.count == 0)
    ensures var k := |chain| - 1;
      PopFixed(s).1 == None && Linked(PopFixed(s).0, chain[..k] + chain[k + 1..])
    ensures SameMarksAll(s.nodes, PopFixed(s).0.nodes)
  {
    var k := |chain| - 1;
    var l := chain[k - 1];
    assert s.nodes[chain[k]].left == l;
    var n2 := s.nodes[l := s.nodes[l].(right := Null)];
    assert PopFixed(s) == (s.(deleted := s.deleted[..|s.deleted| - 1], tail := l, nodes := n2, deletedCount := s.deletedCount - 1), None);
    UnlinkLast(s, chain);
    assert chain[..k] + chain[k + 1..] == chain[..k];
  }

  /** The fixed pop of the head: the node after it becomes the head. */
  lemma PopFixedHead<T>(s: Arena<T>, chain: seq<int>)
    requires Closed(s) && Linked(s, chain) && s.deleted != [] && |chain| >= 2
    requires s.deleted[|s.deleted| - 1] == s.head != s.tail && !(s.deletedCount == 1 && s.count == 0)
    ensures PopFixed(s).1 == None && Linked(PopFixed(s).0, chain[..0] + chain[1..])
    ensures SameMarksAll(s.nodes, PopFixed(s).0.nodes)
  {
    var r := chain[1];
    assert s.nodes[chain[0]].right == r;
    var n2 := s.nodes[r := s.nodes[r].(left := Null)];
    assert PopFixed(s) == (s.(deleted := s.deleted[..|s.deleted| - 1], head := r, nodes := n2, deletedCount := s.deletedCount - 1), None);
    UnlinkFirst(s, chain);
    assert chain[..0] + chain[1..] == chain[1..];
  }

  /** The fixed pop of a middle node: its neighbours are pointed at each other. */
  lemma PopFixedMiddle<T>(s: Arena<T>, chain: seq<int>, k: int)
    requires Closed(s) && Linked(s, chain) && s.deleted != [] && 0 < k < |chain| - 1
    requires s.deleted[|s.deleted| - 1] == chain[k] && !(s.deletedCount == 1 && s.count == 0)
    ensures PopFixed(s).1 == None && Linked(PopFixed(s).0, chain[..k] + chain[k + 1..])
    ensures SameMarksAll(s.nodes, PopFixed(s).0.nodes)
  {
    var t := chain[k];
    var l := chain[k - 1];
    var r := chain[k + 1];
    assert s.nodes[chain[k]].left == l && s.nodes[chain[k]].right == r;
    assert t != s.head && t != s.tail;
    assert l != t;
    var n1 := s.nodes[l := s.nodes[l].(right := r)];
    assert n1[t].right == r;
    var n2 := n1[r := n1[r].(left := l)];
    assert PopFixed(s) == (s.(deleted := s.deleted[..|s.deleted| - 1], nodes := n2, deletedCount := s.deletedCount - 1), None);
    UnlinkMiddle(s, chain, k);
  }

  /** The fixed pop never dereferences null on a well-linked list and unlinks exactly the popped node. */
  lemma PopFixedLinked<T>(s: Arena<T>, chain: seq<int>, k: int)
    requires Closed(s) && Linked(s, chain) && s.deleted != [] && s.count >= 0 && s.deletedCount >= 1
    requires 0 <= k < |chain| && chain[k] == s.deleted[|s.deleted| - 1]
    requires |chain| == s.count + s.deletedCount
    ensures PopFixed(s).1 == None && Linked(PopFixed(s).0, chain[..k] + chain[k + 1..])
    ensures SameMarksAll(s.nodes, PopFixed(s).0.nodes)
  {
    if s.deletedCount == 1 && s.count == 0 {
      PopFixedOnly(s, chain);
    } else if chain[k] == s.tail {
      assert k == |chain| - 1;
      PopFixedTail(s, chain);
    } else if chain[k] == s.head {
      assert k == 0;
      PopFixedHead(s, chain);
    } else {
      assert k != 0 && k != |chain| - 1;
      PopFixedMiddle(s, chain, k);
    }
  }

  /**
   * With the links fixed, one turn of compress keeps the list well formed: the
   * popped node leaves the chain and the elements are the same.
   */
  lemma PopFixedKeeps<T>(s: Arena<T>, chain: seq<int>) returns (rest: seq<int>)
    requires Wellformed(s, chain) && s.deleted != []
    ensures PopFixed(s).1 == None && Wellformed(PopFixed(s).0, rest)
    ensures Live(PopFixed(s).0.nodes, rest) == Live(s.nodes, chain)
  {
    var k := TopAt(s, chain);
    rest := chain[..k] + chain[k + 1..];
    RestKeeps(s, chain, k);
    PopFixedLinked(s, chain, k);
    LinksOnly(s.nodes, PopFixed(s).0.nodes, rest);
  }

  /** add into an empty list makes a one-node list holding the data. */
  lemma AloneKeeps<T>(s: Arena<T>, chain: seq<int>, data: T)
    requires Wellformed(s, chain) && s.deleted == [] && s.head == Null
    ensures chain == [] && Wellformed(AddAlone(s, data), [|s.nodes|])
    ensures Live(AddAlone(s, data).nodes, [|s.nodes|]) == [data]
  {
    assert chain == [];
    var m := |s.nodes|;
    var s2 := AddAlone(s, data);
    var n2 := s2.nodes;
    assert n2[m] == Node(data, Null, Null, false);
    assert Closed(s2) by {
      forall i | 0 <= i < |n2|
        ensures IsRef(n2, n2[i].left) && IsRef(n2, n2[i].right)
      {
        if i < m {
          assert n2[i] == s.nodes[i];
          assert IsRef(s.nodes, s.nodes[i].left) && IsRef(s.nodes, s.nodes[i].right);
        }
      }
    }
    assert Live(n2, [m]) == [data] && Dead(n2, [m]) == [] by {
      assert [m][1..] == [];
      assert Live(n2, [m]) == [data] + Live(n2, []) && Dead(n2, [m]) == Dead(n2, []);
    }
  }

  /** The node appended after the tail extends the chain. */
  lemma AppendLinked<T>(s: Arena<T>, chain: seq<int>, data: T)
    requires Closed(s) && Linked(s, chain) && s.head != Null
    ensures 0 <= s.tail < |s.nodes|
    ensures Closed(AddAfter(s, data)) && Linked(AddAfter(s, data), chain + [|s.nodes|])
    ensures SameMarks(s.nodes, AddAfter(s, data).nodes, chain)
  {
    var m := |s.nodes|;
    var s2 := AddAfter(s, data);
    var n2 := s2.nodes;
    var c := chain + [m];
    assert RefsIn(n2) by {
      forall i | 0 <= i < |n2|
        ensures IsRef(n2, n2[i].left) && IsRef(n2, n2[i].right)
      {
        if i < m {
          assert IsRef(s.nodes, s.nodes[i].left) && IsRef(s.nodes, s.nodes[i].right);
        }
      }
    }
    assert Distinct(c) by {
      assert forall j :: 0 <= j < |chain| ==> chain[j] < m;
    }
    assert LinkedParts(n2, s2.head, s2.tail, c) by {
      forall j | 0 <= j < |c|
        ensures 0 <= c[j] < |n2|
        ensures n2[c[j]].right == (if j + 1 < |c| then c[j + 1] else Null)
        ensures n2[c[j]].left == (if j > 0 then c[j - 1] else Null)
      {
        if j < |chain| {
          assert c[j] == chain[j];
          assert s.nodes[chain[j]].right == (if j + 1 < |chain| then chain[j + 1] else Null);
          if j < |chain| - 1 {
            assert chain[j] != chain[|chain| - 1];
          }
        }
      }
    }
    assert SameMarks(s.nodes, n2, chain) by {
      assert forall j :: 0 <= j < |chain| ==> chain[j] < m;
    }
  }

  /** add after the tail keeps the list well formed and appends the data. */
  lemma AppendKeeps<T>(s: Arena<T>, chain: seq<int>, data: T)
    requires Wellformed(s, chain) && s.deleted == [] && s.head != Null
    ensures 0 <= s.tail < |s.nodes|
    ensures Wellformed(AddAfter(s, data), chain + [|s.nodes|])
    ensures Live(AddAfter(s, data).nodes, chain + [|s.nodes|]) == Live(s.nodes, chain) + [data]
  {
    var m := |s.nodes|;
    var c := chain + [m];
    AppendLinked(s, chain, data);
    var s2 := AddAfter(s, data);
    assert Live(s2.nodes, c) == Live(s.nodes, chain) + [data] && Dead(s2.nodes, c) == Dead(s.nodes, chain) by {
      LiveAgree(s.nodes, s2.nodes, chain);
      LiveAppend(s2.nodes, chain, [m]);
      assert s2.nodes[m] == Node(data, s.tail, Null, false) && [m][1..] == [];
      assert Live(s2.nodes, [m]) == [data] + Live(s2.nodes, []) && Dead(s2.nodes, [m]) == Dead(s2.nodes, []);
    }
  }

  /** Reviving the dead node at position k with new data, seen on the chain split around it. */
  lemma ReviveParts<T>(nodes: seq<Node<T>>, chain: seq<int>, k: int, data: T)
    requires forall j :: 0 <= j < |chain| ==> 0 <= chain[j] < |nodes|
    requires Distinct(chain) && 0 <= k < |chain| && nodes[chain[k]].isDeleted
    ensures var t := chain[k];
      var n2 := nodes[t := nodes[t].(data := data, isDeleted := false)];
      var la, lb := Live(nodes, chain[..k]), Live(nodes, chain[k + 1..]);
      var da, db := Dead(nodes, chain[..k]), Dead(nodes, chain[k + 1..]);
      && Live(nodes, chain) == la + lb && Live(n2, chain) == la + [data] + lb
      && Dead(nodes, chain) == da + [t] + db && Dead(n2, chain) == da + db
  {
    var t := chain[k];
    var n2 := nodes[t := nodes[t].(data := data, isDeleted := false)];
    ChangeAt(nodes, n2, chain, k);
    assert Live(nodes, [t]) == [] && Dead(nodes, [t]) == [t];
    assert Live(n2, [t]) == [data] && Dead(n2, [t]) == [];
  }

  /** add reusing the top of the stack keeps the list well formed and adds the data to the elements. */
  lemma ReviveKeeps<T>(s: Arena<T>, chain: seq<int>, data: T)
    requires Wellformed(s, chain) && s.deleted != []
    ensures 0 <= s.deleted[|s.deleted| - 1] < |s.nodes|
    ensures Wellformed(Revive(s, data), chain)
    ensures multiset(Live(Revive(s, data).nodes, chain)) == multiset(Live(s.nodes, chain)) + multiset{data}
  {
    var t := s.deleted[|s.deleted| - 1];
    var n2 := s.nodes[t := s.nodes[t].(data := data, isDeleted := false)];
    var d2 := s.deleted[..|s.deleted| - 1];
    var s2 := s.(nodes := n2, deleted := d2, deletedCount := s.deletedCount - 1, count := s.count + 1);
    var k := TopAt(s, chain);
    MarksOnly(s, s2, chain);
    ReviveParts(s.nodes, chain, k, data);
    var la, lb := Live(s.nodes, chain[..k]), Live(s.nodes, chain[k + 1..]);
    PopFromBag(s.deleted, Dead(s.nodes, chain[..k]), t, Dead(s.nodes, chain[k + 1..]));
    assert multiset(la + [data] + lb) == multiset(la + lb) + multiset{data};
  }

  /** Marking the live node at position k, seen on the chain split around it. */
  lemma MarkParts<T>(nodes: seq<Node<T>>, chain: seq<int>, k: int)
    requires forall j :: 0 <= j < |chain| ==> 0 <= chain[j] < |nodes|
    requires Distinct(chain) && 0 <= k < |chain| && !nodes[chain[k]].isDeleted
    ensures var c := chain[k];
      var n2 := nodes[c := nodes[c].(isDeleted := true)];
      var la, lb := Live(nodes, chain[..k]), Live(nodes, chain[k + 1..]);
      var da, db := Dead(nodes, chain[..k]), Dead(nodes, chain[k + 1..]);
      && Live(nodes, chain) == la + [nodes[c].data] + lb && Live(n2, chain) == la + lb
      && Dead(nodes, chain) == da + db && Dead(n2, chain) == da + [c] + db
  {
    var c := chain[k];
    var n2 := nodes[c := nodes[c].(isDeleted := true)];
    ChangeAt(nodes, n2, chain, k);
    assert Live(nodes, [c]) == [nodes[c].data] && Dead(nodes, [c]) == [];
    assert Live(n2, [c]) == [] && Dead(n2, [c]) == [c];
  }

  /** remove's hit keeps the list well formed and takes the first occurrence out of the elements. */
  lemma MarkKeeps<T>(s: Arena<T>, chain: seq<int>, k: int, item: T)
    requires Wellformed(s, chain) && 0 <= k < |chain|
    requires !s.nodes[chain[k]].isDeleted && s.nodes[chain[k]].data == item
    requires item !in Live(s.nodes, chain[..k])
    ensures 0 <= chain[k] < |s.nodes| && Wellformed(Mark(s, chain[k]), chain)
    ensures Live(Mark(s, chain[k]).nodes, chain) == RemoveFirst(Live(s.nodes, chain), item) && item in Live(s.nodes, chain)
  {
    var c := chain[k];
    var s2 := Mark(s, c);
    assert Closed(s2) && Linked(s2, chain) by {
      MarksOnly(s, s2, chain);
    }
    assert Live(s2.nodes, chain) == RemoveFirst(Live(s.nodes, chain), item) && item in Live(s.nodes, chain)
        && |Live(s2.nodes, chain)| == |Live(s.nodes, chain)| - 1
        && Bag(s2.deleted) == Bag(Dead(s2.nodes, chain)) by {
      MarkParts(s.nodes, chain, k);
      PushOnBag(s.deleted, Dead(s.nodes, chain[..k]), c, Dead(s.nodes, chain[k + 1..]));
      RemoveFirstAfter(Live(s.nodes, chain[..k]), item, Live(s.nodes, chain[k + 1..]));
    }
  }

  /** An empty stack means no node of the chain is marked deleted. */
  lemma NoneDead<T>(s: Arena<T>, chain: seq<int>)
    requires Wellformed(s, chain) && s.deleted == []
    ensures Dead(s.nodes, chain) == [] && s.deletedCount == 0
  {
    BagIs(Dead(s.nodes, chain));
    assert |multiset(Dead(s.nodes, chain))| == 0;
  }

  /** With no dead node left on the chain, the iterator's walk yields exactly the elements. */
  lemma {:induction false} WalkLinked<T>(s: Arena<T>, chain: seq<int>, k: int, fuel: nat)
    requires Linked(s, chain) && 0 <= k <= |chain| && fuel >= |chain| - k
    requires Dead(s.nodes, chain[k..]) == []
    ensures Walk(s.nodes, if k < |chain| then chain[k] else Null, fuel) == Live(s.nodes, chain[k..])
    decreases |chain| - k
  {
    if k < |chain| {
      assert chain[k..] == [chain[k]] + chain[k + 1..];
      LiveAppend(s.nodes, [chain[k]], chain[k + 1..]);
      WalkLinked(s, chain, k + 1, fuel - 1);
    }
  }

  // ---------------------------------------------------------------------------
  // The list

  /**
   * compress's loop with the links fixed, on a list's fields: pops every
   * deleted node, keeping the list well formed and its elements unchanged;
   * returns the new fields, the new chain and the number popped.
   */
  method PopAllFixed<T>(s: Arena<T>, ghost chain: seq<int>) returns (s': Arena<T>, ghost chain': seq<int>, n: int)
    requires Wellformed(s, chain)
    ensures Wellformed(s', chain') && Live(s'.nodes, chain') == Live(s.nodes, chain) && s'.count == s.count
    ensures n == s.deletedCount && s'.deletedCount == 0 && s'.deleted == [] && Dead(s'.nodes, chain') == []
  {
    s', chain' := s, chain;
    n := 0;
    while s'.deleted != []
      invariant Wellformed(s', chain') && Live(s'.nodes, chain') == Live(s.nodes, chain) && s'.count == s.count
      invariant n + |s'.deleted| == |s.deleted|
      decreases |s'.deleted|
    {
      chain' := PopFixedKeeps(s', chain');
      s' := PopFixed(s').0;
      n := n + 1;
    }
    NoneDead(s', chain');
  }

  class LazyDeleteLinkedList<T(==)> {
    var nodes: seq<Node<T>>
    var head: int
    var tail: int
    var count: int
    var deletedCount: int
    var deleted: seq<int>
    ghost var chain: seq<int>

    function Snapshot(): Arena<T>
      reads this
    {
      Arena(nodes, head, tail, count, deletedCount, deleted)
    }

    ghost predicate Valid()
      reads this
    {
      Wellformed(Snapshot(), chain)
    }

    /** The list's elements, head to tail, skipping deleted nodes. */
    ghost function Contents(): seq<T>
      reads this
    {
      Live(nodes, chain)
    }

    constructor()
      ensures Valid() && Contents() == []
      ensures nodes == [] && chain == [] && head == Null && tail == Null
      ensures count == 0 && deletedCount == 0 && deleted == []
    {
      nodes := [];
      head := Null;
      tail := Null;
      count := 0;
      deletedCount := 0;
      deleted := [];
      chain := [];
    }

    /** deletedNodeCount(): the nodes marked deleted and not yet unlinked. */
    function DeletedNodeCount(): (n: int)
      requires Valid()
      reads this
      ensures n == |Dead(nodes, chain)| && n == |deleted|
    {
      BagIs(deleted);
      BagIs(Dead(nodes, chain));
      assert |multiset(deleted)| == |multiset(Dead(nodes, chain))|;
      deletedCount
    }

    /** size(): the number of elements. */
    function Size(): (n: int)
      requires Valid()
      reads this
      ensures n == |Contents()|
    {
      count
    }

    /** isEmpty(). */
    function IsEmpty(): (b: bool)
      requires Valid()
      reads this
      ensures b <==> Contents() == []
    {
      count == 0
    }

    /** clear(): every field back to the empty list; the old nodes stay behind, unreachable. */
    method Clear()
      requires Valid()
      modifies this
      ensures Valid() && Contents() == [] && nodes == old(nodes)
      ensures head == Null && tail == Null && count == 0 && deletedCount == 0 && deleted == [] && chain == []
    {
      head := Null;
      tail := Null;
      count := 0;
      deletedCount := 0;
      deleted := [];
      chain := [];
    }

    /** contains(x): a walk along the right links looking for a live node holding x. */
    method Contains(x: T) returns (b: bool)
      requires Valid()
      ensures b <==> x in Contents()
    {
      var cursor := head;
      ghost var k := 0;
      while cursor != Null
        invariant 0 <= k <= |chain| && cursor == (if k < |chain| then chain[k] else Null)
        invariant x !in Live(nodes, chain[..k])
        decreases |chain| - k
      {
        if nodes[cursor].data == x && !nodes[cursor].isDeleted {
          SplitAt(nodes, chain, k);
          return true;
        }
        LiveSnoc(nodes, chain, k);
        cursor := nodes[cursor].right;
        k := k + 1;
      }
      assert chain[..k] == chain;
      return false;
    }

    /**
     * add(data). With no deleted node waiting, a new node goes after the tail
     * (or becomes the only node). Otherwise the most recently deleted node is
     * popped, takes the data and is live again, wherever it sits in the list.
     */
    method Add(data: T)
      requires Valid()
      modifies this
      ensures Valid() && count == old(count) + 1
      ensures multiset(Contents()) == multiset(old(Contents())) + multiset{data}
      ensures old(deleted) == [] ==> Contents() == old(Contents()) + [data] && chain == old(chain) + [|old(nodes)|]
      ensures old(deleted) == [] && old(head) == Null ==> Snapshot() == AddAlone(old(Snapshot()), data)
      ensures old(deleted) == [] && old(head) != Null ==>
        0 <= old(tail) < |old(nodes)| && Snapshot() == AddAfter(old(Snapshot()), data)
      ensures old(deleted) != [] ==>
        0 <= old(deleted)[|old(deleted)| - 1] < |old(nodes)| && Snapshot() == Revive(old(Snapshot()), data) && chain == old(chain)
    {
      if deleted == [] {
        if head == Null {
          AddFirst(data);
        } else {
          AddAfterTail(data);
        }
      } else {
        Reuse(data);
      }
    }

    /** add into an empty list with no deleted node: the new node is head and tail. */
    method AddFirst(data: T)
      requires Valid() && deleted == [] && head == Null
      modifies this
      ensures Snapshot() == AddAlone(old(Snapshot()), data) && chain == old(chain) + [|old(nodes)|]
      ensures Valid() && Contents() == old(Contents()) + [data]
    {
      ghost var s0 := Snapshot();
      AloneKeeps(s0, chain, data);
      var m := |nodes|;
      nodes := nodes + [Node(data, Null, Null, false)];
      head := m;
      tail := m;
      chain := [m];
      count := count + 1;
      assert Snapshot() == AddAlone(s0, data);
    }

    /** add with no deleted node to reuse: a new node is linked after the tail. */
    method AddAfterTail(data: T)
      requires Valid() && deleted == [] && head != Null
      modifies this
      ensures 0 <= old(tail) < |old(nodes)|
      ensures Snapshot() == AddAfter(old(Snapshot()), data) && chain == old(chain) + [|old(nodes)|]
      ensures Valid() && Contents() == old(Contents()) + [data]
    {
      ghost var s0 := Snapshot();
      AppendKeeps(s0, chain, data);
      var m := |nodes|;
      nodes := nodes[tail := nodes[tail].(right := m)] + [Node(data, tail, Null, false)];
      tail := m;
      chain := chain + [m];
      count := count + 1;
      assert Snapshot() == AddAfter(s0, data);
    }

    /** add while some node is marked deleted: the top of the stack is revived in place with the new data. */
    method Reuse(data: T)
      requires Valid() && deleted != []
      modifies this
      ensures 0 <= old(deleted)[|old(deleted)| - 1] < |old(nodes)|
      ensures Snapshot() == Revive(old(Snapshot()), data) && chain == old(chain)
      ensures Valid() && multiset(Contents()) == multiset(old(Contents())) + multiset{data}
    {
      ReviveKeeps(Snapshot(), chain, data);
      var s := Revive(Snapshot(), data);
      nodes, deleted, deletedCount, count := s.nodes, s.deleted, s.deletedCount, s.count;
    }

    /**
     * remove(item): the first live node holding item is marked deleted and
     * pushed on the stack; nothing changes when there is none.
     */
    method Remove(item: T) returns (b: bool)
      requires Valid()
      modifies this
      ensures Valid() && chain == old(chain)
      ensures b <==> item in old(Contents())
      ensures b ==> Contents() == RemoveFirst(old(Contents()), item)
      ensures var k := FirstLive(old(nodes), old(chain), item);
        && (b <==> k < |old(chain)|)
        && (b ==> 0 <= old(chain)[k] < |old(nodes)| && Snapshot() == Mark(old(Snapshot()), old(chain)[k]))
      ensures !b ==> Snapshot() == old(Snapshot())
    {
      if count == 0 {
        NoLiveNoMatch(item);
        return false;
      }
      var cursor := head;
      ghost var k := 0;
      while cursor != Null
        invariant 0 <= k <= |chain| && cursor == (if k < |chain| then chain[k] else Null)
        invariant item !in Live(nodes, chain[..k])
        modifies {}
        decreases |chain| - k
      {
        if nodes[cursor].data == item && !nodes[cursor].isDeleted {
          break;
        }
        LiveSnoc(nodes, chain, k);
        cursor := nodes[cursor].right;
        k := k + 1;
      }
      FirstLiveAt(nodes, chain, item, k);
      if cursor == Null {
        assert chain[..k] == chain;
        return false;
      }
      MarkDeleted(cursor, k, item);
      return true;
    }

    /** An empty list holds no live node with the item. */
    lemma NoLiveNoMatch(item: T)
      requires Valid() && count == 0
      ensures FirstLive(nodes, chain, item) == |chain| && item !in Contents()
    {
      assert chain[..|chain|] == chain;
      FirstLiveAt(nodes, chain, item, |chain|);
    }

    /** remove's hit: the node at position k of the chain is marked and pushed. */
    method MarkDeleted(c: int, ghost k: int, item: T)
      requires Valid() && 0 <= k < |chain| && c == chain[k]
      requires !nodes[chain[k]].isDeleted && nodes[chain[k]].data == item
      requires item !in Live(nodes, chain[..k])
      modifies this
      ensures 0 <= old(chain)[k] < |old(nodes)| && Snapshot() == Mark(old(Snapshot()), old(chain)[k]) && chain == old(chain)
      ensures Valid() && Contents() == RemoveFirst(old(Contents()), item) && item in old(Contents())
    {
      ghost var s0 := Snapshot();
      MarkKeeps(s0, chain, k, item);
      nodes := nodes[c := nodes[c].(isDeleted := true)];
      deleted := deleted + [c];
      deletedCount := deletedCount + 1;
      count := count - 1;
      assert Snapshot() == Mark(s0, c);
    }

    /**
     * compress() as written: pops every deleted node and unlinks it with the
     * faulty links of PopAsWritten; returns how many nodes it popped, or the
     * null dereference that stopped it.
     */
    method CompressAsWritten() returns (r: Outcome<int>)
      requires Closed(Snapshot())
      modifies this
      ensures var c := PopAllAsWritten(old(Snapshot()));
        Snapshot() == c.state && r == if c.failure.Some? then Thrown(c.failure.value) else Ok(c.popped)
    {
      var s := Snapshot();
      var n := 0;
      while s.deleted != []
        invariant Closed(s)
        invariant var c0 := PopAllAsWritten(old(Snapshot())); var c := PopAllAsWritten(s);
          c0.state == c.state && c0.failure == c.failure && (c.failure.None? ==> c0.popped == c.popped + n)
        decreases |s.deleted|
      {
        var p := PopAsWritten(s);
        if p.1.Some? {
          nodes, head, tail, count, deletedCount, deleted := p.0.nodes, p.0.head, p.0.tail, p.0.count, p.0.deletedCount, p.0.deleted;
          return Thrown(p.1.value);
        }
        s := p.0;
        n := n + 1;
      }
      nodes, head, tail, count, deletedCount, deleted := s.nodes, s.head, s.tail, s.count, s.deletedCount, s.deleted;
      r := Ok(n);
    }

    /**
     * compress() with the links fixed: every deleted node is popped and
     * unlinked, so the chain holds the live nodes only; the elements and
     * count are unchanged and the number popped is returned.
     */
    method Compress() returns (n: int)
      requires Valid()
      modifies this
      ensures Valid() && Contents() == old(Contents()) && count == old(count)
      ensures n == old(deletedCount) && deletedCount == 0 && deleted == [] && Dead(nodes, chain) == []
    {
      var s;
      ghost var c;
      s, c, n := PopAllFixed(Snapshot(), chain);
      nodes, head, tail, count, deletedCount, deleted := s.nodes, s.head, s.tail, s.count, s.deletedCount, s.deleted;
      chain := c;
      assert Snapshot() == s;
    }

    /**
     * iterator() as written: the head is read for the iterator before the
     * constructor's compress runs, and that compress is the faulty one.
     */
    method IteratorAsWritten() returns (r: Outcome<LazyListIterator<T>>)
      requires Valid()
      modifies this
      ensures var c := PopAllAsWritten(old(Snapshot()));
        && Snapshot() == c.state
        && (c.failure.Some? ==> r == Thrown(c.failure.value))
        && (c.failure.None? ==> r.Ok? && fresh(r.value) && r.value.list == this && r.value.cursor == old(head))
    {
      var h := head;
      var c := CompressAsWritten();
      if c.Thrown? {
        return Thrown(c.failure);
      }
      var it := new LazyListIterator(this, h);
      r := Ok(it);
    }

    /** iterator() with the fixed compress and the head read after it: the walk yields exactly the elements. */
    method Iterator() returns (it: LazyListIterator<T>)
      requires Valid()
      modifies this
      ensures Valid() && Contents() == old(Contents()) && count == old(count) && deleted == []
      ensures fresh(it) && it.list == this && it.cursor == head
      ensures forall f: nat :: f >= count ==> Walk(nodes, it.cursor, f) == Contents()
    {
      var n := Compress();
      it := new LazyListIterator(this, head);
      LiveDeadCount(nodes, chain);
      forall f | f >= count
        ensures Walk(nodes, it.cursor, f) == Contents()
      {
        assert chain[0..] == chain;
        WalkLinked(Snapshot(), chain, 0, f);
      }
    }
  }

  /** The iterator: a cursor following right links through the list's arena. */
  class LazyListIterator<T(==)> {
    const list: LazyDeleteLinkedList<T>
    var cursor: int

    constructor(l: LazyDeleteLinkedList<T>, start: int)
      ensures list == l && cursor == start
    {
      list := l;
      cursor := start;
    }

    /** hasNext(): the cursor is not null. */
    predicate HasNext()
      reads this
    {
      cursor != Null
    }

    /** next(): the cursor's data, moving right; NoSuchElementException at the end. */
    method Next() returns (r: Outcome<T>)
      requires IsRef(list.nodes, cursor)
      modifies this
      ensures old(cursor) == Null ==> r == Thrown(NoSuchElement) && cursor == Null
      ensures old(cursor) != Null ==> r == Ok(list.nodes[old(cursor)].data) && cursor == list.nodes[old(cursor)].right
      ensures forall f: nat :: old(cursor) != Null ==> Walk(list.nodes, old(cursor), f + 1) == [r.value] + Walk(list.nodes, cursor, f)
    {
      if !HasNext() {
        return Thrown(NoSuchElement);
      }
      var temp := cursor;
      cursor := list.nodes[cursor].right;
      r := Ok(list.nodes[temp].data);
    }
  }
}
