/**
 * The 1-indexed binary max-heap of HW6 over an ArrayList spine: index 0 holds
 * a null placeholder, the elements sit at 1..size-1, and the children of i are
 * 2i and 2i+1.
 *
 * The comparator is a key function: compare(a, b) has the sign of
 * key(a) - key(b), which makes it a total preorder. A slot of the spine is an
 * Option, None being the placeholder.
 */
module Heaps {
  import opened Common

  /** getLeft(i) */
  function Left(i: int): (r: int)
    ensures r / 2 == i
  {
    2 * i
  }

  /** getRight(i) */
  function Right(i: int): (r: int)
    ensures r / 2 == i && r == Left(i) + 1
  {
    2 * i + 1
  }

  /** getParent(i) */
  function Parent(i: int): (r: int)
    requires 1 <= i
    ensures 0 <= r < i && (i == Left(r) || i == Right(r))
  {
    i / 2
  }

  /** The placeholder at 0 and an element at every other index. */
  ghost predicate Shaped<T>(s: seq<Option<T>>)
  {
    |s| >= 1 && s[0] == None && forall i :: 1 <= i < |s| ==> s[i].Some?
  }

  /** The key of the element at index i (the placeholder, never compared, gets 0). */
  function Key<T>(s: seq<Option<T>>, key: T -> int, i: int): int
    requires 0 <= i < |s|
  {
    if s[i].Some? then key(s[i].value) else 0
  }

  /** No child at index k or above beats its parent (index 0 being the placeholder, no edge ends there). */
  ghost predicate HeapFrom<T>(s: seq<Option<T>>, key: T -> int, k: int)
  {
    forall j :: 2 <= j < |s| && Parent(j) >= k ==> Key(s, key, j) <= Key(s, key, Parent(j))
  }

  /** The max-heap property on the whole spine. */
  ghost predicate IsHeap<T>(s: seq<Option<T>>, key: T -> int)
  {
    HeapFrom(s, key, 1)
  }

  /** Exchanges two positions. */
  function Swap<T>(s: seq<Option<T>>, i: int, j: int): (r: seq<Option<T>>)
    requires 0 <= i < |s| && 0 <= j < |s|
    ensures |r| == |s| && multiset(r) == multiset(s)
    ensures r[i] == s[j] && r[j] == s[i] && forall k :: 0 <= k < |s| && k != i && k != j ==> r[k] == s[k]
  {
    s[i := s[j]][j := s[i]]
  }

  /** j lies in the subtree rooted at k. */
  ghost predicate Descends(j: int, k: int)
    decreases j
  {
    j == k || (j > k && j >= 2 && Descends(j / 2, k))
  }

  lemma {:induction false} DescendsBelow(j: int, k: int)
    requires 1 <= k && Descends(j, k)
    ensures j >= k && (j != k ==> j >= 2 * k)
    decreases j
  {
    if j != k {
      DescendsBelow(j / 2, k);
    }
  }

  /** The index among i and its children holding the largest key, preferring i, then the left child. */
  function Largest<T>(s: seq<Option<T>>, key: T -> int, i: int): (l: int)
    requires 1 <= i < |s|
    ensures l == i || (l < |s| && (l == Left(i) || l == Right(i)) && Key(s, key, i) < Key(s, key, l))
    ensures Left(i) < |s| ==> Key(s, key, Left(i)) <= Key(s, key, l)
    ensures Right(i) < |s| ==> Key(s, key, Right(i)) <= Key(s, key, l)
    ensures Key(s, key, i) <= Key(s, key, l)
  {
    var left, right := Left(i), Right(i);
    var largest := if left < |s| && Key(s, key, i) < Key(s, key, left) then left else i;
    if right < |s| && Key(s, key, largest) < Key(s, key, right) then right else largest
  }

  /** The spine after heapify(i): swap i with its largest child while that child's key differs, then continue there. */
  function Heapified<T>(s: seq<Option<T>>, key: T -> int, i: int): (r: seq<Option<T>>)
    requires Shaped(s) && 1 <= i < |s|
    ensures Shaped(r) && |r| == |s| && multiset(r) == multiset(s)
    decreases |s| - i
  {
    var largest := Largest(s, key, i);
    if Key(s, key, largest) != Key(s, key, i) then Heapified(Swap(s, i, largest), key, largest) else s
  }

  /** heapify(i) changes only the subtree rooted at i, and leaves there the largest key of i and its children. */
  lemma {:induction false} HeapifiedFrame<T>(s: seq<Option<T>>, key: T -> int, i: int)
    requires Shaped(s) && 1 <= i < |s|
    ensures var r := Heapified(s, key, i);
      (forall j :: 0 <= j < |s| && !Descends(j, i) ==> r[j] == s[j]) &&
      Key(r, key, i) == Key(s, key, Largest(s, key, i))
    decreases |s| - i
  {
    var largest := Largest(s, key, i);
    if Key(s, key, largest) != Key(s, key, i) {
      var t := Swap(s, i, largest);
      HeapifiedFrame(t, key, largest);
      forall j | 0 <= j < |s| && !Descends(j, i)
        ensures !Descends(j, largest)
      {
        if Descends(j, largest) {
          DescendsUp(j, largest, i);
        }
      }
      assert !Descends(i, largest) by {
        if Descends(i, largest) {
          DescendsBelow(i, largest);
        }
      }
    }
  }

  /** A descendant of a child of i descends from i. */
  lemma {:induction false} DescendsUp(j: int, c: int, i: int)
    requires 1 <= i && (c == Left(i) || c == Right(i)) && Descends(j, c)
    ensures Descends(j, i)
    decreases j
  {
    if j != c {
      DescendsUp(j / 2, c, i);
    }
  }

  /**
   * If the heap property holds below i (every edge from a parent above i),
   * heapify(i) extends it to i: the subtree at i becomes a max-heap.
   */
  lemma {:induction false} HeapifiedRestores<T>(s: seq<Option<T>>, key: T -> int, i: int)
    requires Shaped(s) && 1 <= i < |s| && HeapFrom(s, key, i + 1)
    ensures HeapFrom(Heapified(s, key, i), key, i)
    decreases |s| - i
  {
    var l := Largest(s, key, i);
    if Key(s, key, l) != Key(s, key, i) {
      var t := Swap(s, i, l);
      assert HeapFrom(t, key, l + 1) by {
        forall j | 2 <= j < |t| && Parent(j) >= l + 1
          ensures Key(t, key, j) <= Key(t, key, Parent(j))
        {
          assert Key(s, key, j) <= Key(s, key, Parent(j));
        }
      }
      HeapifiedRestores(t, key, l);
      SwapDownRestores(s, key, i);
    } else {
      forall j | 2 <= j < |s| && Parent(j) >= i
        ensures Key(s, key, j) <= Key(s, key, Parent(j))
      {
        if Parent(j) == i {
          assert j == Left(i) || j == Right(i);
        }
      }
    }
  }

  /**
   * The swapping case of HeapifiedRestores: once heapify at the largest child l
   * has made l's subtree a heap, the edges out of i and out of the indices
   * between i and l hold too.
   */
  lemma SwapDownRestores<T>(s: seq<Option<T>>, key: T -> int, i: int)
    requires Shaped(s) && 1 <= i < |s| && HeapFrom(s, key, i + 1)
    requires Key(s, key, Largest(s, key, i)) != Key(s, key, i)
    requires HeapFrom(Heapified(Swap(s, i, Largest(s, key, i)), key, Largest(s, key, i)), key, Largest(s, key, i))
    ensures HeapFrom(Heapified(s, key, i), key, i)
  {
    var l := Largest(s, key, i);
    var t := Swap(s, i, l);
    var r := Heapified(s, key, i);
    HeapifiedFrame(t, key, l);
    forall j | 2 <= j < |r| && l > Parent(j) >= i
      ensures Key(r, key, j) <= Key(r, key, Parent(j))
    {
      var p := Parent(j);
      assert !Descends(p, l) by {
        if Descends(p, l) {
          DescendsBelow(p, l);
        }
      }
      if p == i && j == l {
        // the old occupant of i sank into l's subtree; l's children were below l's old key
        forall c | (c == Left(l) || c == Right(l)) && c < |s|
          ensures Key(t, key, c) <= Key(s, key, l)
        {
          assert Key(s, key, c) <= Key(s, key, Parent(c));
        }
      } else {
        assert !Descends(j, l) by {
          if Descends(j, l) {
            DescendsBelow(j, l);
          }
        }
        if p != i {
          assert Key(s, key, j) <= Key(s, key, p);
        }
      }
    }
  }

  /** Every edge but the one into i holds, and i's children are no larger than i's parent. */
  ghost predicate SiftingUp<T>(s: seq<Option<T>>, key: T -> int, i: int)
    requires 1 <= i < |s|
  {
    (forall j :: 2 <= j < |s| && j != i ==> Key(s, key, j) <= Key(s, key, Parent(j))) &&
    (i >= 2 ==> forall c :: 2 <= c < |s| && Parent(c) == i ==> Key(s, key, c) <= Key(s, key, Parent(i)))
  }

  /**
   * One step of add's loop: when the element at i beats its parent p, heapify(p)
   * is exactly the swap of p and i, and the sift-up situation moves to p.
   */
  lemma SiftUpStep<T>(s: seq<Option<T>>, key: T -> int, i: int)
    requires Shaped(s) && 2 <= i < |s| && SiftingUp(s, key, i)
    requires Key(s, key, i) > Key(s, key, Parent(i))
    ensures Heapified(s, key, Parent(i)) == Swap(s, Parent(i), i)
    ensures SiftingUp(Swap(s, Parent(i), i), key, Parent(i))
  {
    SiftUpSwaps(s, key, i);
    SiftUpMoves(s, key, i);
  }

  /** In the sift-up situation heapify at the parent swaps it with i, and the swapped-in key then stays at i. */
  lemma SiftUpSwaps<T>(s: seq<Option<T>>, key: T -> int, i: int)
    requires Shaped(s) && 2 <= i < |s| && SiftingUp(s, key, i)
    requires Key(s, key, i) > Key(s, key, Parent(i))
    ensures Heapified(s, key, Parent(i)) == Swap(s, Parent(i), i)
  {
    var p := Parent(i);
    var t := Swap(s, p, i);
    var sibling := if i == Left(p) then Right(p) else Left(p);
    if sibling < |s| {
      assert Key(s, key, sibling) <= Key(s, key, Parent(sibling));
    }
    assert Largest(s, key, p) == i;
    forall c | (c == Left(i) || c == Right(i)) && c < |t|
      ensures Key(t, key, c) <= Key(t, key, i)
    {
      assert Parent(c) == i;
    }
    assert Largest(t, key, i) == i;
  }

  /** After the swap of i with its parent p, every edge but the one into p holds, and p's children are below p's parent. */
  lemma SiftUpMoves<T>(s: seq<Option<T>>, key: T -> int, i: int)
    requires Shaped(s) && 2 <= i < |s| && SiftingUp(s, key, i)
    requires Key(s, key, i) > Key(s, key, Parent(i))
    ensures SiftingUp(Swap(s, Parent(i), i), key, Parent(i))
  {
    var p := Parent(i);
    var t := Swap(s, p, i);
    var sibling := if i == Left(p) then Right(p) else Left(p);
    if sibling < |s| {
      assert Key(s, key, sibling) <= Key(s, key, Parent(sibling));
    }
    forall j | 2 <= j < |t| && j != p
      ensures Key(t, key, j) <= Key(t, key, Parent(j))
    {
      if Parent(j) == i {
        assert Key(s, key, j) <= Key(s, key, p);
      } else if j != i && j != sibling {
        assert Key(s, key, j) <= Key(s, key, Parent(j));
      }
    }
    if p >= 2 {
      assert Key(s, key, p) <= Key(s, key, Parent(p));
      forall c | 2 <= c < |t| && Parent(c) == p
        ensures Key(t, key, c) <= Key(t, key, Parent(p))
      {
        assert c == i || c == sibling;
      }
    }
  }

  /** The root of a max-heap holds a largest key. */
  lemma {:induction false} RootIsMax<T>(s: seq<Option<T>>, key: T -> int, j: int)
    requires Shaped(s) && IsHeap(s, key) && 1 <= j < |s|
    ensures Key(s, key, j) <= Key(s, key, 1)
    decreases j
  {
    if j >= 2 {
      RootIsMax(s, key, Parent(j));
    }
  }

  /**
   * The spine after next() moves the last element to the root and drops the
   * last slot: the root's element is gone, and on a heap only the edges out of
   * the root can be broken, the old root having been a largest element.
   */
  lemma RootRemoved<T>(s: seq<Option<T>>, key: T -> int)
    requires Shaped(s) && |s| >= 2
    ensures var t := s[1 := s[|s| - 1]][..|s| - 1];
      Shaped(t) && multiset(t) == multiset(s) - multiset{s[1]} &&
      (IsHeap(s, key) ==> HeapFrom(t, key, 2) && forall j :: 1 <= j < |s| ==> Key(s, key, j) <= Key(s, key, 1))
  {
    var t := s[1 := s[|s| - 1]][..|s| - 1];
    assert s == s[..|s| - 1] + [s[|s| - 1]];
    var u := s[1 := s[|s| - 1]];
    assert u == t + [s[|s| - 1]];
    if IsHeap(s, key) {
      forall j | 1 <= j < |s|
        ensures Key(s, key, j) <= Key(s, key, 1)
      {
        RootIsMax(s, key, j);
      }
      forall j | 2 <= j < |t| && Parent(j) >= 2
        ensures Key(t, key, j) <= Key(t, key, Parent(j))
      {
        assert Key(s, key, j) <= Key(s, key, Parent(j));
      }
    }
  }

  /** The spine after next() on a spine with at least one element. */
  function AfterNext<T>(s: seq<Option<T>>, key: T -> int): (r: seq<Option<T>>)
    requires Shaped(s) && |s| >= 2
  {
    var t := s[1 := s[|s| - 1]][..|s| - 1];
    RootRemoved(s, key);
    if |t| > 2 then Heapified(t, key, 1) else t
  }

  /** next() on a heap leaves a heap holding every element but the old root. */
  lemma AfterNextKeepsHeap<T>(s: seq<Option<T>>, key: T -> int)
    requires Shaped(s) && |s| >= 2
    ensures Shaped(AfterNext(s, key)) && |AfterNext(s, key)| == |s| - 1
    ensures multiset(AfterNext(s, key)) == multiset(s) - multiset{s[1]}
    ensures IsHeap(s, key) ==> IsHeap(AfterNext(s, key), key)
  {
    var t := s[1 := s[|s| - 1]][..|s| - 1];
    RootRemoved(s, key);
    if |t| > 2 && IsHeap(s, key) {
      HeapifiedRestores(t, key, 1);
    }
  }

  class Heap<T> {
    var spine: seq<Option<T>>
    /** The comparator, as a key; it is only read once hasComparator holds. */
    var key: T -> int
    /** False while the comparator is still null, as after the constructor. */
    var hasComparator: bool

    ghost predicate Valid()
      reads this
    {
      Shaped(spine)
    }

    /** Heap(): only the placeholder, and no comparator yet. */
    constructor ()
      ensures Valid() && spine == [None] && !hasComparator
    {
      spine := [None];
      key := _ => 0;
      hasComparator := false;
    }

    /** setComparator(comp): the spine is left as it is. */
    method SetComparator(key: T -> int)
      modifies this
      ensures this.key == key && hasComparator && spine == old(spine)
    {
      this.key := key;
      hasComparator := true;
    }

    /** hasNext(): at least one element besides the placeholder. */
    method HasNext() returns (b: bool)
      requires Valid()
      ensures b <==> |spine| > 1
    {
      b := |spine| > 1;
    }

    /** heapify(i) */
    method Heapify(i: int)
      requires Valid() && 1 <= i < |spine|
      modifies this
      ensures spine == Heapified(old(spine), key, i) && key == old(key) && hasComparator == old(hasComparator)
      decreases |spine| - i
    {
      var largest := Largest(spine, key, i);
      if key(spine[largest].value) != key(spine[i].value) {
        var temp := spine[i];
        spine := spine[i := spine[largest]];
        spine := spine[largest := temp];
        Heapify(largest);
      }
    }

    /** arrange(): heapify from size/2 down to 1 makes the whole spine a max-heap. */
    method Arrange() returns (r: Outcome<()>)
      requires Valid()
      modifies this
      ensures Valid() && key == old(key) && hasComparator == old(hasComparator)
      ensures r.Thrown? <==> !hasComparator && |old(spine)| >= 2
      ensures r.Thrown? ==> r.failure == NullPointer && spine == old(spine)
      ensures r.Ok? ==> IsHeap(spine, key) && multiset(spine) == multiset(old(spine))
    {
      if !hasComparator && |spine| >= 2 {
        // heapify(size / 2) compares before it changes anything
        return Thrown(NullPointer);
      }
      var i := |spine| / 2;
      while i > 0
        invariant 0 <= i <= |spine| / 2 && Valid() && |spine| == |old(spine)| && key == old(key)
        invariant hasComparator == old(hasComparator)
        invariant HeapFrom(spine, key, i + 1) && multiset(spine) == multiset(old(spine))
      {
        HeapifiedRestores(spine, key, i);
        Heapify(i);
        i := i - 1;
      }
      r := Ok(());
    }

    /**
     * add(wo): append, then heapify the parent while the new element beats it.
     * Without a comparator the first comparison throws NullPointerException,
     * the element having been appended already; a lone element needs none.
     */
    method Add(wo: T) returns (r: Outcome<()>)
      requires Valid()
      modifies this
      ensures Valid() && multiset(spine) == multiset(old(spine)) + multiset{Some(wo)} && key == old(key)
      ensures |spine| == |old(spine)| + 1 && hasComparator == old(hasComparator)
      ensures r.Thrown? <==> !hasComparator && |old(spine)| >= 2
      ensures r.Thrown? ==> r.failure == NullPointer && spine == old(spine) + [Some(wo)]
      ensures r.Ok? && old(IsHeap(spine, key)) ==> IsHeap(spine, key)
    {
      ghost var wasHeap := IsHeap(spine, key);
      spine := spine + [Some(wo)];
      var i := |spine| - 1;
      if |spine| > 2 {
        if !hasComparator {
          return Thrown(NullPointer);
        }
        while i > 1 && key(spine[i].value) > key(spine[Parent(i)].value)
          invariant 1 <= i < |spine| == |old(spine)| + 1 && Valid() && key == old(key)
          invariant hasComparator == old(hasComparator)
          invariant multiset(spine) == multiset(old(spine)) + multiset{Some(wo)}
          invariant wasHeap ==> SiftingUp(spine, key, i)
          decreases i
        {
          if wasHeap {
            SiftUpStep(spine, key, i);
          }
          Heapify(Parent(i));
          i := Parent(i);
        }
      }
      r := Ok(());
    }

    /**
     * next(): removes and returns the root, or NoSuchElementException when
     * empty. Without a comparator, a spine still holding two elements after
     * the removal makes heapify(1) throw NullPointerException: the root is
     * then lost, the last element already moved into its slot.
     */
    method Next() returns (r: Outcome<T>)
      requires Valid()
      modifies this
      ensures Valid() && key == old(key) && hasComparator == old(hasComparator)
      ensures r.Thrown? <==> |old(spine)| == 1 || (!hasComparator && |old(spine)| > 3)
      ensures r.Thrown? && |old(spine)| == 1 ==> r.failure == NoSuchElement && spine == old(spine)
      ensures r.Thrown? && |old(spine)| > 1 ==>
        r.failure == NullPointer && spine == old(spine)[1 := old(spine)[|old(spine)| - 1]][..|old(spine)| - 1]
      ensures r.Ok? ==> r.value == old(spine)[1].value && |spine| == |old(spine)| - 1
      ensures r.Ok? ==> multiset(spine) == multiset(old(spine)) - multiset{Some(r.value)}
      ensures r.Ok? && old(IsHeap(spine, key)) ==>
        IsHeap(spine, key) && forall j :: 1 <= j < |old(spine)| ==> Key(old(spine), key, j) <= key(r.value)
    {
      if |spine| <= 1 {
        return Thrown(NoSuchElement);
      }
      ghost var s := spine;
      var temp := spine[1];
      spine := spine[1 := spine[|spine| - 1]];
      spine := spine[..|spine| - 1];
      RootRemoved(s, key);
      if |spine| > 2 {
        if !hasComparator {
          return Thrown(NullPointer);
        }
        Heapify(1);
      }
      assert spine == AfterNext(s, key);
      AfterNextKeepsHeap(s, key);
      r := Ok(temp.value);
    }
  }

  /** add then next on a heap hands back a largest element, and the spine keeps the rest. */
  method AddThenNext<T>(h: Heap<T>, wo: T) returns (r: Outcome<T>)
    requires h.Valid() && h.hasComparator && IsHeap(h.spine, h.key)
    modifies h
    ensures r.Ok? && h.Valid() && IsHeap(h.spine, h.key) && h.key(wo) <= h.key(r.value)
    ensures multiset(h.spine) == multiset(old(h.spine)) + multiset{Some(wo)} - multiset{Some(r.value)}
  {
    var appended := h.Add(wo);
    assert Some(wo) in multiset(h.spine);
    ghost var j :| 0 <= j < |h.spine| && h.spine[j] == Some(wo);
    ghost var added := h.spine;
    r := h.Next();
    assert Key(added, h.key, j) <= h.key(r.value);
  }
}
