/**
 * The sorted-list container of HW6: an ArrayList spine that arrange() sorts
 * under the comparator, by median-of-three quicksort when it holds more than
 * ten elements and by insertion sort otherwise; next() then hands elements out
 * from the front.
 *
 * The comparator is a key function: compare(a, b) has the sign of
 * key(a) - key(b). The source tells the median apart by object identity; here
 * elements are values and identity is value equality.
 */
module SortedLists {
  import opened Common

  /** Keys never decrease along s[b..e]. */
  ghost predicate SortedRange<T>(s: seq<T>, key: T -> int, b: int, e: int)
    requires 0 <= b <= e <= |s|
  {
    forall i, j :: b <= i < j < e ==> key(s[i]) <= key(s[j])
  }

  ghost predicate Sorted<T>(s: seq<T>, key: T -> int)
  {
    SortedRange(s, key, 0, |s|)
  }

  /** Every key in s[b..e] is at most k. */
  ghost predicate AtMost<T>(s: seq<T>, key: T -> int, b: int, e: int, k: int)
    requires 0 <= b <= e <= |s|
  {
    forall m :: b <= m < e ==> key(s[m]) <= k
  }

  /** Every key in s[b..e] exceeds k. */
  ghost predicate Above<T>(s: seq<T>, key: T -> int, b: int, e: int, k: int)
    requires 0 <= b <= e <= |s|
  {
    forall m :: b <= m < e ==> key(s[m]) > k
  }

  /** The elements of s whose key is k, in their order in s. */
  function Filter<T>(s: seq<T>, key: T -> int, k: int): seq<T>
  {
    if s == [] then [] else Filter(s[..|s| - 1], key, k) + (if key(s[|s| - 1]) == k then [s[|s| - 1]] else [])
  }

  /** Stability: for every key, the elements with that key appear in the same order in both sequences. */
  ghost predicate SameOrderPerKey<T>(s: seq<T>, t: seq<T>, key: T -> int)
  {
    forall k :: Filter(s, key, k) == Filter(t, key, k)
  }

  lemma {:induction false} FilterConcat<T>(a: seq<T>, b: seq<T>, key: T -> int, k: int)
    ensures Filter(a + b, key, k) == Filter(a, key, k) + Filter(b, key, k)
    decreases |b|
  {
    if b != [] {
      var b' := b[..|b| - 1];
      assert a + b' == (a + b)[..|a + b| - 1];
      FilterConcat(a, b', key, k);
    } else {
      assert a + b == a;
    }
  }

  lemma {:induction false} FilterNone<T>(s: seq<T>, key: T -> int, k: int)
    requires forall m :: 0 <= m < |s| ==> key(s[m]) != k
    ensures Filter(s, key, k) == []
    decreases |s|
  {
    if s != [] {
      FilterNone(s[..|s| - 1], key, k);
    }
  }

  /** Exchanges two positions. */
  function Swap<T>(s: seq<T>, i: int, j: int): (r: seq<T>)
    requires 0 <= i < |s| && 0 <= j < |s|
    ensures |r| == |s| && multiset(r) == multiset(s)
    ensures r[i] == s[j] && r[j] == s[i] && forall m :: 0 <= m < |s| && m != i && m != j ==> r[m] == s[m]
  {
    s[i := s[j]][j := s[i]]
  }

  /** Insertion sort's outer-loop invariant at i: r's first i elements are list's, sorted stably, and the rest untouched. */
  ghost predicate InsertedUpTo<T>(r: seq<T>, list: seq<T>, key: T -> int, i: int)
  {
    0 <= i <= |r| == |list| && SortedRange(r, key, 0, i) && r[i..] == list[i..] &&
    multiset(r[..i]) == multiset(list[..i]) && SameOrderPerKey(r[..i], list[..i], key)
  }

  /** The inner loop's state: before[j+1..i] copied one slot right, slot j+1 still holding its old value. */
  function Shifted<T>(before: seq<T>, i: int, j: int): (r: seq<T>)
    requires -1 <= j < i < |before|
    ensures |r| == |before| && r[j + 1] == before[j + 1]
    ensures j >= 0 ==> r[j] == before[j]
  {
    var lo := before[..j + 2];
    assert |lo| == j + 2 && lo[j + 1] == before[j + 1] && (j >= 0 ==> lo[j] == before[j]);
    lo + before[j + 1..i] + before[i + 1..]
  }

  lemma ShiftStart<T>(before: seq<T>, i: int)
    requires 0 <= i < |before|
    ensures Shifted(before, i, i - 1) == before
  {
    assert before[..i + 1] + before[i + 1..] == before;
  }

  /** Where each element of Shifted comes from. */
  lemma ShiftedAt<T>(before: seq<T>, i: int, j: int, m: int)
    requires -1 <= j < i < |before| && 0 <= m < |before|
    ensures Shifted(before, i, j)[m] == if m <= j + 1 then before[m] else if m <= i then before[m - 1] else before[m]
  {
    var lo, run, rest := before[..j + 2], before[j + 1..i], before[i + 1..];
    var r := Shifted(before, i, j);
    assert r == lo + run + rest;
    if m <= j + 1 {
      assert r[m] == lo[m];
    } else if m <= i {
      assert r[m] == run[m - j - 2];
    } else {
      assert r[m] == rest[m - i - 1];
    }
  }

  /** One turn of the inner loop: slot j+1 takes the value of slot j, and the gap moves down to j. */
  lemma ShiftStep<T>(before: seq<T>, i: int, j: int)
    requires 0 <= j < i < |before|
    ensures Shifted(before, i, j)[j + 1 := before[j]] == Shifted(before, i, j - 1)
  {
    var r := Shifted(before, i, j)[j + 1 := before[j]];
    var t := Shifted(before, i, j - 1);
    forall m | 0 <= m < |r|
      ensures r[m] == t[m]
    {
      ShiftedAt(before, i, j, m);
      ShiftedAt(before, i, j - 1, m);
    }
  }

  /** Slot j+1 takes the element that was at i: the shifted run now follows it. */
  function Inserted<T>(before: seq<T>, i: int, j: int): (r: seq<T>)
    requires -1 <= j < i < |before|
    ensures |r| == |before|
  {
    (before[..j + 1] + [before[i]] + before[j + 1..i]) + before[i + 1..]
  }

  /** Where each element of Inserted comes from. */
  lemma InsertedAt<T>(before: seq<T>, i: int, j: int, m: int)
    requires -1 <= j < i < |before| && 0 <= m < |before|
    ensures Inserted(before, i, j)[m] ==
      if m <= j then before[m] else if m == j + 1 then before[i] else if m <= i then before[m - 1] else before[m]
  {
    var lo, run, rest := before[..j + 1], before[j + 1..i], before[i + 1..];
    var r := Inserted(before, i, j);
    assert r == lo + [before[i]] + run + rest;
    if m <= j {
      assert r[m] == lo[m];
    } else if m == j + 1 {
    } else if m <= i {
      assert r[m] == run[m - j - 2];
    } else {
      assert r[m] == rest[m - i - 1];
    }
  }

  lemma Drop<T>(before: seq<T>, i: int, j: int)
    requires -1 <= j < i < |before|
    ensures Shifted(before, i, j)[j + 1 := before[i]] == Inserted(before, i, j)
  {
    var r := Shifted(before, i, j)[j + 1 := before[i]];
    var t := Inserted(before, i, j);
    forall m | 0 <= m < |r|
      ensures r[m] == t[m]
    {
      ShiftedAt(before, i, j, m);
      InsertedAt(before, i, j, m);
    }
  }

  /** Dropping before[i] below the run of larger keys extends the sorted prefix by one. */
  lemma InsertedSorted<T>(before: seq<T>, key: T -> int, i: int, j: int)
    requires -1 <= j < i < |before|
    requires SortedRange(before, key, 0, i)
    requires forall m :: j + 1 <= m < i ==> key(before[i]) < key(before[m])
    requires j >= 0 ==> key(before[j]) <= key(before[i])
    ensures SortedRange(Inserted(before, i, j), key, 0, i + 1)
  {
    var r := Inserted(before, i, j);
    forall a, b | 0 <= a < b < i + 1
      ensures key(r[a]) <= key(r[b])
    {
      InsertedAt(before, i, j, a);
      InsertedAt(before, i, j, b);
      if b == j + 1 && a < j {
        assert key(before[a]) <= key(before[j]);
      }
    }
  }

  /** The inserted prefix: before[..j+1], then before[i], then the run that was jumped. */
  lemma InsertedPrefix<T>(before: seq<T>, i: int, j: int)
    requires -1 <= j < i < |before|
    ensures var r := Inserted(before, i, j);
      r[..i + 1] == before[..j + 1] + [before[i]] + before[j + 1..i] && r[i + 1..] == before[i + 1..]
  {
    var a := before[..j + 1] + [before[i]] + before[j + 1..i];
    assert |a| == i + 1;
    assert (a + before[i + 1..])[..i + 1] == a;
    assert (a + before[i + 1..])[i + 1..] == before[i + 1..];
  }

  /** The same move keeps the elements of the prefix. */
  lemma InsertedPermutes<T>(before: seq<T>, i: int, j: int)
    requires -1 <= j < i < |before|
    ensures var r := Inserted(before, i, j);
      r[i + 1..] == before[i + 1..] && multiset(r[..i + 1]) == multiset(before[..i + 1])
  {
    InsertedPrefix(before, i, j);
    assert before[..i + 1] == before[..j + 1] + before[j + 1..i] + [before[i]];
  }

  /** It also keeps those of each key in order, because every element it jumps has a larger key. */
  lemma InsertedStable<T>(before: seq<T>, key: T -> int, i: int, j: int)
    requires -1 <= j < i < |before|
    requires forall m :: j + 1 <= m < i ==> key(before[i]) < key(before[m])
    ensures SameOrderPerKey(Inserted(before, i, j)[..i + 1], before[..i + 1], key)
  {
    var temp := before[i];
    var lo, run := before[..j + 1], before[j + 1..i];
    InsertedPrefix(before, i, j);
    var rp, bp := Inserted(before, i, j)[..i + 1], before[..i + 1];
    assert rp == lo + [temp] + run;
    assert bp == lo + run + [temp];
    forall k
      ensures Filter(rp, key, k) == Filter(bp, key, k)
    {
      FilterConcat(lo + [temp], run, key, k);
      FilterConcat(lo, [temp], key, k);
      FilterConcat(lo + run, [temp], key, k);
      FilterConcat(lo, run, key, k);
      if key(temp) == k {
        FilterNone(run, key, k);
      } else {
        FilterNone([temp], key, k);
      }
    }
  }

  /** r is before with before[i] moved into the sorted prefix before[..i]: sorted, stable, and the rest untouched. */
  ghost predicate InsertedOnce<T>(r: seq<T>, before: seq<T>, key: T -> int, i: int)
  {
    0 <= i < |r| == |before| && SortedRange(r, key, 0, i + 1) && r[i + 1..] == before[i + 1..] &&
    multiset(r[..i + 1]) == multiset(before[..i + 1]) && SameOrderPerKey(r[..i + 1], before[..i + 1], key)
  }

  /** The outer-loop invariant carried from i to i+1 by one insertion. */
  lemma InsertStep<T>(before: seq<T>, r: seq<T>, list: seq<T>, key: T -> int, i: int)
    requires InsertedUpTo(before, list, key, i) && InsertedOnce(r, before, key, i)
    ensures InsertedUpTo(r, list, key, i + 1)
  {
    var bi, li := before[..i], list[..i];
    var bj, lj := before[..i + 1], list[..i + 1];
    assert before[i] == list[i];
    assert bj == bi + [before[i]];
    assert lj == li + [list[i]];
    forall k
      ensures Filter(bj, key, k) == Filter(lj, key, k)
    {
      FilterConcat(bi, [before[i]], key, k);
      FilterConcat(li, [list[i]], key, k);
    }
  }

  /** The three positions median-of-three looks at: the first, the last and the middle of [begin, begin+length). */
  predicate Candidate(i: int, begin: int, length: int)
  {
    i == begin || i == begin + length - 1 || i == begin + length / 2
  }

  /** lo, m, hi are a, b, c in non-decreasing key order: m is their median. */
  ghost predicate Brackets<T>(key: T -> int, lo: T, m: T, hi: T, a: T, b: T, c: T)
  {
    multiset{lo, m, hi} == multiset{a, b, c} && key(lo) <= key(m) <= key(hi)
  }

  /** m is the median of a, b and c by key. */
  ghost predicate IsMedianOf3<T(!new)>(key: T -> int, m: T, a: T, b: T, c: T)
  {
    exists lo, hi :: Brackets(key, lo, m, hi, a, b, c)
  }

  /** The middle of a sorted rearrangement of three elements is one of them, and their median. */
  lemma MiddleIsMedian<T>(r: seq<T>, key: T -> int, a: T, b: T, c: T)
    requires |r| == 3 && multiset(r) == multiset{a, b, c} && Sorted(r, key)
    ensures r[1] == a || r[1] == b || r[1] == c
    ensures Brackets(key, r[0], r[1], r[2], a, b, c)
  {
    assert r == [r[0], r[1], r[2]];
    assert multiset(r) == multiset{r[0], r[1], r[2]};
    assert r[1] in multiset(r);
  }

  /** t is s with the segment [b, e) rearranged and everything outside it left alone. */
  ghost predicate Rearranged<T>(s: seq<T>, t: seq<T>, b: int, e: int)
  {
    0 <= b <= e <= |s| == |t| && s[..b] == t[..b] && s[e..] == t[e..] && multiset(s) == multiset(t)
  }

  lemma RearrangedTrans<T>(s: seq<T>, t: seq<T>, u: seq<T>, b: int, e: int)
    requires Rearranged(s, t, b, e) && Rearranged(t, u, b, e)
    ensures Rearranged(s, u, b, e)
  {
  }

  /** A rearrangement of a segment is a rearrangement of any segment around it. */
  lemma RearrangedWiden<T>(s: seq<T>, t: seq<T>, b: int, e: int, b': int, e': int)
    requires Rearranged(s, t, b', e') && 0 <= b <= b' && e' <= e <= |s|
    ensures Rearranged(s, t, b, e)
  {
    assert s[..b] == s[..b'][..b] && t[..b] == t[..b'][..b];
    assert s[e..] == s[e'..][e - e'..] && t[e..] == t[e'..][e - e'..];
  }

  lemma RearrangedOutside<T>(s: seq<T>, t: seq<T>, b: int, e: int, m: int)
    requires Rearranged(s, t, b, e) && 0 <= m < |s| && (m < b || e <= m)
    ensures t[m] == s[m]
  {
    if m < b {
      assert s[m] == s[..b][m] && t[m] == t[..b][m];
    } else {
      assert s[m] == s[e..][m - e] && t[m] == t[e..][m - e];
    }
  }

  lemma SwapRearranges<T>(s: seq<T>, i: int, j: int, b: int, e: int)
    requires 0 <= b <= i < e <= |s| && b <= j < e
    ensures Rearranged(s, Swap(s, i, j), b, e)
  {
    var t := Swap(s, i, j);
    assert s[..b] == t[..b];
    assert s[e..] == t[e..];
  }

  /** Two sequences equal outside [b, e) and equal as multisets hold the same multiset inside it. */
  lemma SegmentPermutation<T>(s: seq<T>, t: seq<T>, b: int, e: int)
    requires Rearranged(s, t, b, e)
    ensures multiset(s[b..e]) == multiset(t[b..e])
  {
    assert s == s[..b] + s[b..e] + s[e..];
    assert t == t[..b] + t[b..e] + t[e..];
    var lo, hi := multiset(s[..b]), multiset(s[e..]);
    var x, y := multiset(s[b..e]), multiset(t[b..e]);
    assert multiset(s) == lo + x + hi;
    assert multiset(t) == lo + y + hi;
    forall v
      ensures x[v] == y[v]
    {
      assert (lo + x + hi)[v] == lo[v] + x[v] + hi[v];
      assert (lo + y + hi)[v] == lo[v] + y[v] + hi[v];
    }
    assert x == y;
  }

  /** Every element of a rearranged segment comes from the same segment before. */
  lemma FromSegment<T>(s: seq<T>, t: seq<T>, b: int, e: int, m: int)
    requires Rearranged(s, t, b, e) && b <= m < e
    ensures exists m' :: b <= m' < e && s[m'] == t[m]
  {
    SegmentPermutation(s, t, b, e);
    assert t[m] == t[b..e][m - b];
    assert t[m] in multiset(s[b..e]);
    var m' :| 0 <= m' < e - b && s[b..e][m'] == t[m];
    assert s[b + m'] == t[m];
  }

  /** A bound on every key of [b, e) survives a rearrangement of that segment. */
  lemma AtMostSurvives<T>(s: seq<T>, t: seq<T>, key: T -> int, b: int, e: int, k: int)
    requires Rearranged(s, t, b, e) && AtMost(s, key, b, e, k)
    ensures AtMost(t, key, b, e, k)
  {
    forall m | b <= m < e
      ensures key(t[m]) <= k
    {
      FromSegment(s, t, b, e, m);
    }
  }

  lemma AboveSurvives<T>(s: seq<T>, t: seq<T>, key: T -> int, b: int, e: int, k: int)
    requires Rearranged(s, t, b, e) && Above(s, key, b, e, k)
    ensures Above(t, key, b, e, k)
  {
    forall m | b <= m < e
      ensures key(t[m]) > k
    {
      FromSegment(s, t, b, e, m);
    }
  }

  /** One turn of the partition loop that finds s[i] keyed at most k: swapping it to p grows the lower part by one. */
  lemma PartitionStep<T>(s0: seq<T>, s: seq<T>, key: T -> int, b: int, p: int, i: int, e: int, k: int)
    requires 0 <= b <= p <= i < e && Rearranged(s0, s, b, e)
    requires AtMost(s, key, b, p, k) && Above(s, key, p, i, k) && key(s[i]) <= k
    ensures var t := Swap(s, i, p);
      Rearranged(s0, t, b, e) && AtMost(t, key, b, p + 1, k) && Above(t, key, p + 1, i + 1, k)
  {
    SwapRearranges(s, i, p, b, e);
    RearrangedTrans(s0, s, Swap(s, i, p), b, e);
  }

  /**
   * The last swap of a partition: with the pivot at end, [b, p) keyed at most
   * it and [p, end) above it, exchanging p and end puts the pivot between the
   * two parts.
   */
  lemma PlacePivot<T>(s: seq<T>, key: T -> int, b: int, p: int, end: int)
    requires 0 <= b <= p <= end < |s|
    requires AtMost(s, key, b, p, key(s[end])) && Above(s, key, p, end, key(s[end]))
    ensures var t := Swap(s, p, end);
      t[p] == s[end] && AtMost(t, key, b, p, key(t[p])) && Above(t, key, p + 1, end + 1, key(t[p]))
  {
  }

  /** t rearranges s within [b, e), and the element at p splits it: keys at most its own before, keys above it after. */
  ghost predicate PartitionedAt<T>(s: seq<T>, t: seq<T>, key: T -> int, b: int, e: int, p: int)
  {
    b <= p < e && Rearranged(s, t, b, e) && AtMost(t, key, b, p, key(t[p])) && Above(t, key, p + 1, e, key(t[p]))
  }

  /**
   * The frames of quickSort's partitioning: parking the pivot at end, the
   * partition loop over [b, end) and the final swap of p with end together
   * rearrange [b, end] and leave the pivot between the two parts.
   */
  lemma PartitionFrames<T>(s0: seq<T>, s1: seq<T>, s2: seq<T>, key: T -> int, b: int, pivotPos: int, pivot: T, p: int, end: int)
    requires 0 <= b <= pivotPos <= end < |s0| && b <= p <= end && s0[pivotPos] == pivot
    requires s1 == Swap(s0, pivotPos, end) && Rearranged(s1, s2, b, end)
    requires AtMost(s2, key, b, p, key(pivot)) && Above(s2, key, p, end, key(pivot))
    ensures PartitionedAt(s0, Swap(s2, p, end), key, b, end + 1, p)
  {
    SwapRearranges(s0, pivotPos, end, b, end + 1);
    RearrangedOutside(s1, s2, b, end, end);
    RearrangedWiden(s1, s2, b, end + 1, b, end);
    RearrangedTrans(s0, s1, s2, b, end + 1);
    PlacePivot(s2, key, b, p, end);
    SwapRearranges(s2, p, end, b, end + 1);
    RearrangedTrans(s0, s2, Swap(s2, p, end), b, end + 1);
  }

  /**
   * quickSort's first recursive call sorts [b, p) in place: the pivot stays at
   * p, and the lower part, only rearranged, stays keyed at most the pivot.
   */
  lemma AfterLeft<T>(s0: seq<T>, s: seq<T>, t: seq<T>, key: T -> int, b: int, p: int, e: int)
    requires PartitionedAt(s0, s, key, b, e, p) && Rearranged(s, t, b, p)
    ensures PartitionedAt(s0, t, key, b, e, p)
  {
    AtMostSurvives(s, t, key, b, p, key(s[p]));
    RearrangedOutside(s, t, b, p, p);
    forall m | p + 1 <= m < e
      ensures key(t[m]) > key(s[p])
    {
      RearrangedOutside(s, t, b, p, m);
    }
    RearrangedWiden(s, t, b, e, b, p);
    RearrangedTrans(s0, s, t, b, e);
  }

  /**
   * The second call sorts (p, e) in place: the sorted lower part and the pivot
   * stay, the upper part stays keyed above the pivot, and [b, e) is sorted.
   */
  lemma AfterRight<T>(s0: seq<T>, t: seq<T>, u: seq<T>, key: T -> int, b: int, p: int, e: int)
    requires PartitionedAt(s0, t, key, b, e, p) && SortedRange(t, key, b, p)
    requires Rearranged(t, u, p + 1, e) && SortedRange(u, key, p + 1, e)
    ensures Rearranged(s0, u, b, e) && SortedRange(u, key, b, e)
  {
    RearrangedOutside(t, u, p + 1, e, p);
    AboveSurvives(t, u, key, p + 1, e, key(t[p]));
    forall m | b <= m < p
      ensures u[m] == t[m]
    {
      RearrangedOutside(t, u, p + 1, e, m);
    }
    assert SortedRange(u, key, b, p);
    assert AtMost(u, key, b, p, key(u[p]));
    RearrangedWiden(t, u, b, e, p + 1, e);
    RearrangedTrans(s0, t, u, b, e);
  }

  class SortedList<T(==,!new)> {
    var spine: seq<T>
    /** The comparator, as a key; it is only read once hasComparator holds. */
    var key: T -> int
    /** False while the comparator is still null, as after the constructor. */
    var hasComparator: bool

    /** SortedList(): an empty spine and no comparator yet. */
    constructor ()
      ensures spine == [] && !hasComparator
    {
      spine := [];
      key := _ => 0;
      hasComparator := false;
    }

    /** setComparator(comp): the spine is left as it is. */
    method SetComparator(key: T -> int)
      modifies this
      ensures this.key == key && hasComparator && spine == old(spine)
    {
      this.key := key;
      hasComparator := true;
    }

    /** add(wo): appends. */
    method Add(wo: T)
      modifies this
      ensures spine == old(spine) + [wo] && key == old(key) && hasComparator == old(hasComparator)
    {
      spine := spine + [wo];
    }

    /** hasNext() */
    method HasNext() returns (b: bool)
      ensures b <==> spine != []
    {
      b := |spine| > 0;
    }

    /** next(): removes and returns the front element, or NoSuchElementException when empty. */
    method Next() returns (r: Outcome<T>)
      modifies this
      ensures key == old(key) && hasComparator == old(hasComparator)
      ensures old(spine) == [] ==> r == Thrown(NoSuchElement) && spine == []
      ensures old(spine) != [] ==> r == Ok(old(spine)[0]) && spine == old(spine)[1..]
    {
      if |spine| == 0 {
        return Thrown(NoSuchElement);
      }
      r := Ok(spine[0]);
      spine := spine[1..];
    }

    /**
     * arrange(): sorts the spine, by quicksort above ten elements and by
     * insertion sort otherwise. Without a comparator, any spine of two or
     * more elements makes the first comparison throw NullPointerException
     * before anything has moved.
     */
    method Arrange() returns (r: Outcome<()>)
      modifies this
      ensures key == old(key) && hasComparator == old(hasComparator)
      ensures r.Thrown? <==> !hasComparator && |old(spine)| >= 2
      ensures r.Thrown? ==> r.failure == NullPointer && spine == old(spine)
      ensures r.Ok? ==> multiset(spine) == multiset(old(spine)) && Sorted(spine, key)
      ensures r.Ok? && |old(spine)| <= 10 ==> SameOrderPerKey(spine, old(spine), key)
    {
      r := Ok(());
      if !hasComparator && |spine| >= 2 {
        return Thrown(NullPointer);
      }
      if |spine| > 10 {
        ghost var s := spine;
        QuickSort(0, |spine|);
        assert spine[..0] == s[..0] && spine[|spine|..] == s[|s|..];
      } else {
        spine := InsertionSort(spine);
      }
    }

    /** insertionSort(list): a sorted rearrangement of list that keeps equal keys in their order. */
    method InsertionSort(list: seq<T>) returns (r: seq<T>)
      ensures multiset(r) == multiset(list) && Sorted(r, key)
      ensures SameOrderPerKey(r, list, key)
    {
      r := list;
      var i := 1;
      while i < |r|
        invariant |r| == |list| && 1 <= i
        invariant |r| == 0 ==> r == list
        invariant |r| >= 1 ==> InsertedUpTo(r, list, key, i)
      {
        ghost var before := r;
        r := InsertNext(r, i);
        InsertStep(before, r, list, key, i);
        i := i + 1;
      }
      if |r| >= 1 {
        assert r[..|r|] == r && list[..|list|] == list;
      }
    }

    /**
     * The inner loop of insertionSort: shifts the elements of the sorted
     * prefix keyed strictly above r[i] one slot right and drops r[i] into the
     * gap, so that equal keys are never jumped.
     */
    method InsertNext(before: seq<T>, i: int) returns (r: seq<T>)
      requires 0 <= i < |before| && SortedRange(before, key, 0, i)
      ensures InsertedOnce(r, before, key, i)
    {
      r := before;
      var temp := r[i];
      var j := i - 1;
      ShiftStart(before, i);
      while j >= 0 && key(temp) < key(r[j])
        invariant -1 <= j < i && r == Shifted(before, i, j)
        invariant forall m :: j + 1 <= m < i ==> key(temp) < key(before[m])
      {
        ShiftStep(before, i, j);
        r := r[j + 1 := r[j]];
        j := j - 1;
      }
      Drop(before, i, j);
      r := r[j + 1 := temp];
      InsertedSorted(before, key, i, j);
      InsertedPermutes(before, i, j);
      InsertedStable(before, key, i, j);
    }

    /**
     * getMedianPivot(begin, length): of the first, last and middle elements of
     * the range, the index and value of the median by key, the first index
     * holding it being preferred in that order.
     */
    method GetMedianPivot(begin: int, length: int) returns (pivot: int, median: T)
      requires 0 <= begin && 1 <= length && begin + length <= |spine|
      ensures begin <= pivot < begin + length && Candidate(pivot, begin, length)
      ensures spine[pivot] == median
      ensures IsMedianOf3(key, median, spine[begin], spine[begin + length - 1], spine[begin + length / 2])
    {
      var getMedian := [spine[begin], spine[begin + length - 1], spine[begin + length / 2]];
      getMedian := InsertionSort(getMedian);
      MiddleIsMedian(getMedian, key, spine[begin], spine[begin + length - 1], spine[begin + length / 2]);
      if getMedian[1] == spine[begin] {
        pivot := begin;
      } else if getMedian[1] == spine[begin + length - 1] {
        pivot := begin + length - 1;
      } else {
        pivot := begin + length / 2;
      }
      median := getMedian[1];
    }

    /** swapOrder(index1, index2): exchanges two positions and changes nothing else. */
    method SwapOrder(index1: int, index2: int)
      requires 0 <= index1 < |spine| && 0 <= index2 < |spine|
      modifies this
      ensures spine == Swap(old(spine), index1, index2) && key == old(key) && hasComparator == old(hasComparator)
    {
      var temp := spine[index1];
      spine := spine[index1 := spine[index2]];
      spine := spine[index2 := temp];
    }

    /**
     * The partition loop of quickSort over [begin, end), the pivot waiting at
     * end: elements keyed at most the pivot are swapped to the front, and p
     * ends at the first element keyed above it.
     */
    method Partition(begin: int, end: int, pivot: T) returns (p: int)
      requires 0 <= begin <= end < |spine|
      modifies this
      ensures key == old(key) && hasComparator == old(hasComparator) && Rearranged(old(spine), spine, begin, end)
      ensures begin <= p <= end
      ensures AtMost(spine, key, begin, p, key(pivot)) && Above(spine, key, p, end, key(pivot))
    {
      p := begin;
      var i := begin;
      while i != end
        invariant begin <= p <= i <= end && key == old(key) && hasComparator == old(hasComparator)
        invariant Rearranged(old(spine), spine, begin, end)
        invariant AtMost(spine, key, begin, p, key(pivot)) && Above(spine, key, p, i, key(pivot))
      {
        if key(spine[i]) <= key(pivot) {
          PartitionStep(old(spine), spine, key, begin, p, i, end, key(pivot));
          SwapOrder(i, p);
          p := p + 1;
        }
        i := i + 1;
      }
    }

    /**
     * The partitioning step of quickSort(begin, length) for length at least 2:
     * the pivot is parked at the end, the range is partitioned around it, and
     * the pivot is swapped to the boundary p.
     */
    method PartitionAround(begin: int, length: int, pivotPos: int, pivot: T) returns (p: int)
      requires 0 <= begin && 2 <= length && begin + length <= |spine|
      requires begin <= pivotPos < begin + length && spine[pivotPos] == pivot
      modifies this
      ensures key == old(key) && hasComparator == old(hasComparator) && PartitionedAt(old(spine), spine, key, begin, begin + length, p)
    {
      var end := begin + length - 1;
      SwapOrder(pivotPos, end);
      ghost var s1 := spine;
      p := Partition(begin, end, pivot);
      PartitionFrames(old(spine), s1, spine, key, begin, pivotPos, pivot, p, end);
      SwapOrder(p, end);
    }

    /** quickSort(begin, length): sorts [begin, begin+length) in place and leaves the rest alone. */
    method QuickSort(begin: int, length: int)
      requires 0 <= begin && 0 <= length && begin + length <= |spine|
      modifies this
      ensures key == old(key) && hasComparator == old(hasComparator) && Rearranged(old(spine), spine, begin, begin + length)
      ensures SortedRange(spine, key, begin, begin + length)
      decreases length
    {
      if length <= 1 {
        return;
      }
      var pivotPos, pivot := GetMedianPivot(begin, length);
      var p := PartitionAround(begin, length, pivotPos, pivot);
      ghost var s2 := spine;
      QuickSort(begin, p - begin);
      ghost var s3 := spine;
      AfterLeft(old(spine), s2, s3, key, begin, p, begin + length);
      QuickSort(p + 1, begin + length - 1 - p);
      AfterRight(old(spine), s3, spine, key, begin, p, begin + length);
    }
  }

  /** arrange() then next(): the element handed out first has the least key of all that were added. */
  method ArrangeThenNext<T(==,!new)>(l: SortedList<T>) returns (r: Outcome<T>)
    requires l.hasComparator
    modifies l
    ensures r.Thrown? <==> old(l.spine) == []
    ensures r.Ok? ==> r.value in old(l.spine) && forall x :: x in old(l.spine) ==> l.key(r.value) <= l.key(x)
  {
    var arranged := l.Arrange();
    ghost var sorted := l.spine;
    r := l.Next();
    if r.Ok? {
      assert r.value in multiset(sorted);
      forall x | x in old(l.spine)
        ensures l.key(r.value) <= l.key(x)
      {
        assert x in multiset(sorted);
        var m :| 0 <= m < |sorted| && sorted[m] == x;
        if m > 0 {
          assert SortedRange(sorted, l.key, 0, |sorted|);
        }
      }
    }
  }
}
