/**
 * A skip list map from Integer keys to values (HW8/src/SkipList.java).
 *
 * Every level is a sorted linked list between a head sentinel keyed
 * Integer.MIN_VALUE and a tail sentinel keyed Integer.MAX_VALUE; a node's
 * `down` link reaches the node with the same key one level lower. The model
 * keeps the entries of each level, bottom level first, as a sequence; a node
 * is named by its level and its key, the head by MinKey and the tail by MaxKey.
 */
module SkipLists {
  import opened Common

  const MinKey: int := -0x8000_0000
  const MaxKey: int := 0x7fff_ffff

  /** An Integer key: the range of Java's int. */
  predicate IsInt(k: int) { MinKey <= k <= MaxKey }

  /** A node between the sentinels of its level. */
  datatype Entry<V> = Entry(key: int, value: V)

  type Level<V> = seq<Entry<V>>

  function Keys<V(==)>(lv: Level<V>): set<int>
  {
    set e | e in lv :: e.key
  }

  /** Keys strictly increase along a level, from head to tail. */
  ghost predicate Increasing<V>(lv: Level<V>)
  {
    forall i, j :: 0 <= i < j < |lv| ==> lv[i].key < lv[j].key
  }

  /** Every key lies strictly between the sentinels' keys. */
  ghost predicate Inside<V>(lv: Level<V>)
  {
    forall e :: e in lv ==> MinKey < e.key < MaxKey
  }

  /** Each node of `upper` sits on a node with the same key and value in `lower`. */
  ghost predicate Below<V>(upper: Level<V>, lower: Level<V>)
  {
    forall e :: e in upper ==> e in lower
  }

  /** The linked structure: sorted levels between sentinels, each over the one below it. */
  ghost predicate Structured<V>(levels: seq<Level<V>>)
  {
    && |levels| >= 1
    && (forall j :: 0 <= j < |levels| ==> Increasing(levels[j]) && Inside(levels[j]))
    && (forall j :: 0 < j < |levels| ==> Below(levels[j], levels[j - 1]))
  }

  /** `p` is the node just before where key goes in `lv`: the head, or the greatest smaller key. */
  ghost predicate IsPred<V>(lv: Level<V>, p: int, key: int)
  {
    && p < key
    && (p == MinKey || p in Keys(lv))
    && forall e :: e in lv ==> !(p < e.key < key)
  }

  /** A level is its first node followed by the rest. */
  lemma Cons<V>(lv: Level<V>)
    requires lv != []
    ensures forall x :: x in lv <==> x == lv[0] || x in lv[1..]
  {
  }

  /** get on one level: the value of the first node keyed `k`. */
  function Lookup<V(==)>(lv: Level<V>, k: int): (r: Option<V>)
    ensures r.Some? <==> k in Keys(lv)
    ensures r.Some? ==> Entry(k, r.value) in lv
  {
    if lv == [] then None
    else
      Cons(lv);
      if lv[0].key == k then Some(lv[0].value) else Lookup(lv[1..], k)
  }

  /** On a sorted level, each node's value is what its key looks up. */
  lemma {:induction false} LookupSorted<V>(lv: Level<V>, e: Entry<V>)
    requires Increasing(lv) && e in lv
    ensures Lookup(lv, e.key) == Some(e.value)
  {
    var i :| 0 <= i < |lv| && lv[i] == e;
    if i > 0 {
      assert lv[1..][i - 1] == e;
      LookupSorted(lv[1..], e);
    }
  }

  /** node.next: the key of the node after `c` on a level; the tail when none is. */
  function NextKey<V(==)>(lv: Level<V>, c: int): (r: int)
    requires Inside(lv) && c < MaxKey
    ensures c < r <= MaxKey
    ensures r == MaxKey || r in Keys(lv)
    ensures forall e :: e in lv && c < e.key ==> r <= e.key
  {
    if lv == [] then MaxKey
    else
      var r := NextKey(lv[1..], c);
      Cons(lv);
      if c < lv[0].key < r then lv[0].key else r
  }

  /** node.prev: the key of the node before key `c` on a level; the head when none is. */
  function PrevKey<V(==)>(lv: Level<V>, c: int): (r: int)
    requires Inside(lv) && MinKey < c
    ensures MinKey <= r < c
    ensures r == MinKey || r in Keys(lv)
    ensures forall e :: e in lv && e.key < c ==> e.key <= r
  {
    if lv == [] then MinKey
    else
      var r := PrevKey(lv[1..], c);
      Cons(lv);
      if r < lv[0].key < c then lv[0].key else r
  }

  /** Links node `e` right after the node keyed `p` (the head when p is MinKey). */
  function InsertAfter<V(==)>(lv: Level<V>, p: int, e: Entry<V>): (r: Level<V>)
    requires Inside(lv) && (p == MinKey || p in Keys(lv))
    ensures e in r && (forall x :: x in lv ==> x in r) && (forall x :: x in r ==> x == e || x in lv)
    ensures |r| == |lv| + 1
  {
    if p == MinKey then [e] + lv
    else
      assert lv != [];
      Cons(lv);
      if lv[0].key == p then [lv[0], e] + lv[1..]
      else [lv[0]] + InsertAfter(lv[1..], p, e)
  }

  /** The nodes after the first of a sorted level all have greater keys. */
  lemma RestAbove<V>(lv: Level<V>)
    requires Increasing(lv) && lv != []
    ensures Increasing(lv[1..])
    ensures forall x :: x in lv[1..] ==> lv[0].key < x.key
  {
    forall x | x in lv[1..]
      ensures lv[0].key < x.key
    {
      var i :| 0 <= i < |lv[1..]| && lv[1..][i] == x;
      assert lv[i + 1] == x;
    }
  }

  /** A sorted level stays sorted with a smaller key in front of it. */
  lemma PrependSorted<V>(e: Entry<V>, lv: Level<V>)
    requires Increasing(lv) && forall x :: x in lv ==> e.key < x.key
    ensures Increasing([e] + lv)
  {
    var r := [e] + lv;
    forall i, j | 0 <= i < j < |r|
      ensures r[i].key < r[j].key
    {
      assert r[j] == lv[j - 1];
      if i > 0 {
        assert r[i] == lv[i - 1];
      } else {
        assert lv[j - 1] in lv;
      }
    }
  }

  /** Nodes past the predecessor of an absent key lie past the key itself. */
  lemma AllAbove<V>(lv: Level<V>, p: int, key: int)
    requires forall x :: x in lv ==> p < x.key && !(p < x.key < key)
    requires key !in Keys(lv)
    ensures forall x :: x in lv ==> key < x.key
  {
    forall x | x in lv
      ensures key < x.key
    {
      assert x.key != key;
    }
  }

  /** Linking a new key after its predecessor keeps the level sorted. */
  lemma {:induction false} InsertAfterSorted<V>(lv: Level<V>, p: int, e: Entry<V>)
    requires Inside(lv) && Increasing(lv) && MinKey < e.key < MaxKey && IsPred(lv, p, e.key)
    requires e.key !in Keys(lv)
    ensures Increasing(InsertAfter(lv, p, e)) && Inside(InsertAfter(lv, p, e))
  {
    if p == MinKey {
      AllAbove(lv, p, e.key);
      PrependSorted(e, lv);
    } else {
      var rest := lv[1..];
      Cons(lv);
      RestAbove(lv);
      if lv[0].key == p {
        assert e.key !in Keys(rest);
        AllAbove(rest, p, e.key);
        PrependSorted(e, rest);
        PrependSorted(lv[0], [e] + rest);
        assert InsertAfter(lv, p, e) == [lv[0]] + ([e] + rest);
      } else {
        assert IsPred(rest, p, e.key);
        InsertAfterSorted(rest, p, e);
        var tail := InsertAfter(rest, p, e);
        assert lv[0].key < p;
        PrependSorted(lv[0], tail);
        assert InsertAfter(lv, p, e) == [lv[0]] + tail;
      }
    }
  }

  /** Unlinks the node keyed `k`, if the level has one. */
  function Delete<V(==)>(lv: Level<V>, k: int): (r: Level<V>)
    ensures forall x :: x in r ==> x in lv && x.key != k
    ensures forall x :: x in lv && x.key != k ==> x in r
    ensures k !in Keys(lv) ==> r == lv
  {
    if lv == [] then []
    else
      Cons(lv);
      if lv[0].key == k then Delete(lv[1..], k) else [lv[0]] + Delete(lv[1..], k)
  }

  /** Unlinking a key keeps a level sorted and takes the key out of its map. */
  lemma {:induction false} DeleteSorted<V>(lv: Level<V>, k: int)
    requires Increasing(lv)
    ensures Increasing(Delete(lv, k))
  {
    if lv != [] {
      var rest := lv[1..];
      RestAbove(lv);
      DeleteSorted(rest, k);
      if lv[0].key != k {
        var d := Delete(rest, k);
        PrependSorted(lv[0], d);
        assert Delete(lv, k) == [lv[0]] + d;
      }
    }
  }

  /** node.setValue(v) on the node keyed `k`, if the level has one. */
  function SetValue<V(==)>(lv: Level<V>, k: int, v: V): (r: Level<V>)
    ensures |r| == |lv| && forall i :: 0 <= i < |r| ==> r[i].key == lv[i].key
    ensures forall x :: x in r ==> (x in lv && x.key != k) || (x == Entry(k, v) && k in Keys(lv))
    ensures forall x :: x in lv && x.key != k ==> x in r
    ensures k in Keys(lv) ==> Entry(k, v) in r
    ensures k !in Keys(lv) ==> r == lv
  {
    if lv == [] then []
    else
      Cons(lv);
      [if lv[0].key == k then Entry(k, v) else lv[0]] + SetValue(lv[1..], k, v)
  }

  /** Setting a value keeps a level sorted. */
  lemma SetValueSorted<V>(lv: Level<V>, k: int, v: V)
    requires Increasing(lv)
    ensures Increasing(SetValue(lv, k, v))
  {
  }

  /** InsertAfterLookup for every key at once. */
  lemma InsertAfterLookupAll<V>(lv: Level<V>, p: int, e: Entry<V>)
    requires Inside(lv) && (p == MinKey || p in Keys(lv)) && e.key !in Keys(lv)
    ensures forall x :: Lookup(InsertAfter(lv, p, e), x) == if x == e.key then Some(e.value) else Lookup(lv, x)
  {
    forall x {
      InsertAfterLookup(lv, p, e, x);
    }
  }

  /** After linking a new node, its key looks up its value and every other key what it did before. */
  lemma {:induction false} InsertAfterLookup<V>(lv: Level<V>, p: int, e: Entry<V>, k: int)
    requires Inside(lv) && (p == MinKey || p in Keys(lv)) && e.key !in Keys(lv)
    ensures Lookup(InsertAfter(lv, p, e), k) == if k == e.key then Some(e.value) else Lookup(lv, k)
  {
    if p != MinKey {
      Cons(lv);
      var r := InsertAfter(lv, p, e);
      if lv[0].key == p {
        assert r[1..] == [e] + lv[1..];
        assert r[1..][1..] == lv[1..];
      } else {
        InsertAfterLookup(lv[1..], p, e, k);
        assert r[1..] == InsertAfter(lv[1..], p, e);
      }
    } else {
      assert ([e] + lv)[1..] == lv;
    }
  }

  /** After unlinking `k`, it looks up nothing and every other key what it did before. */
  lemma {:induction false} DeleteLookup<V>(lv: Level<V>, k: int, x: int)
    ensures Lookup(Delete(lv, k), x) == if x == k then None else Lookup(lv, x)
  {
    if lv != [] {
      DeleteLookup(lv[1..], k, x);
      if lv[0].key != k {
        assert ([lv[0]] + Delete(lv[1..], k))[1..] == Delete(lv[1..], k);
      }
    }
  }

  /** SetValueLookup for every key at once. */
  lemma SetValueLookupAll<V>(lv: Level<V>, k: int, v: V)
    ensures forall x :: Lookup(SetValue(lv, k, v), x) == if x == k && k in Keys(lv) then Some(v) else Lookup(lv, x)
  {
    forall x {
      SetValueLookup(lv, k, v, x);
    }
  }

  /** After setting `k`'s value, it looks up the new value and every other key what it did before. */
  lemma {:induction false} SetValueLookup<V>(lv: Level<V>, k: int, v: V, x: int)
    ensures Lookup(SetValue(lv, k, v), x) == if x == k && k in Keys(lv) then Some(v) else Lookup(lv, x)
  {
    if lv != [] {
      Cons(lv);
      SetValueLookup(lv[1..], k, v, x);
      var r := SetValue(lv, k, v);
      assert r[1..] == SetValue(lv[1..], k, v);
    }
  }

  /** Only the nodes of `k` change when its value is set on every level. */
  lemma SetValueBelow<V>(upper: Level<V>, lower: Level<V>, k: int, v: V)
    requires Below(upper, lower)
    ensures Below(SetValue(upper, k, v), SetValue(lower, k, v))
  {
    forall x | x in SetValue(upper, k, v)
      ensures x in SetValue(lower, k, v)
    {
      if x.key == k {
        var y :| y in upper && y.key == k;
        assert y in lower;
      }
    }
  }

  /** A node climbs to the level above only when it already is on the level below. */
  lemma KeyBelow<V>(levels: seq<Level<V>>, j: nat, k: int)
    requires Structured(levels) && 0 < j < |levels| && k in Keys(levels[j])
    ensures k in Keys(levels[j - 1])
  {
    var e :| e in levels[j] && e.key == k;
    assert e in levels[j - 1];
  }

  /** Every node of every level stands on a node of the bottom level. */
  lemma {:induction false} InBottom<V>(levels: seq<Level<V>>, j: nat, e: Entry<V>)
    requires Structured(levels) && j < |levels| && e in levels[j]
    ensures e in levels[0]
  {
    if j > 0 {
      assert Below(levels[j], levels[j - 1]);
      InBottom(levels, j - 1, e);
    }
  }

  /** A key missing from the bottom level is missing from every level. */
  lemma AbsentEverywhere<V>(levels: seq<Level<V>>, k: int)
    requires Structured(levels) && k !in Keys(levels[0])
    ensures forall j :: 0 <= j < |levels| ==> k !in Keys(levels[j])
  {
    forall j | 0 <= j < |levels| && k in Keys(levels[j])
      ensures false
    {
      var t :| t in levels[j] && t.key == k;
      InBottom(levels, j, t);
    }
  }

  /** Unlinking the node just linked gives the level back. */
  lemma {:induction false} DeleteInserted<V>(lv: Level<V>, p: int, e: Entry<V>)
    requires Inside(lv) && (p == MinKey || p in Keys(lv)) && e.key !in Keys(lv)
    ensures Delete(InsertAfter(lv, p, e), e.key) == lv
  {
    if p != MinKey {
      Cons(lv);
      if lv[0].key != p {
        DeleteInserted(lv[1..], p, e);
      } else {
        assert Delete([e] + lv[1..], e.key) == lv[1..];
      }
      assert [lv[0]] + lv[1..] == lv;
    }
  }

  /** Linking node `e` after its predecessor on level j, when it already stands on level j - 1, keeps the structure. */
  lemma LinkOnLevel<V>(levels: seq<Level<V>>, j: nat, p: int, e: Entry<V>)
    requires Structured(levels) && j < |levels| && MinKey < e.key < MaxKey
    requires IsPred(levels[j], p, e.key) && e.key !in Keys(levels[j])
    requires j > 0 ==> e in levels[j - 1]
    ensures Structured(levels[j := InsertAfter(levels[j], p, e)])
  {
    InsertAfterSorted(levels[j], p, e);
    var r := levels[j := InsertAfter(levels[j], p, e)];
    forall i | 0 < i < |r|
      ensures Below(r[i], r[i - 1])
    {
      assert Below(levels[i], levels[i - 1]);
    }
  }

  /** Unlinking a key on every level keeps the structure. */
  lemma DeleteEverywhere<V>(levels: seq<Level<V>>, k: int)
    requires Structured(levels)
    ensures Structured(seq(|levels|, j requires 0 <= j < |levels| => Delete(levels[j], k)))
  {
    var r := seq(|levels|, j requires 0 <= j < |levels| => Delete(levels[j], k));
    forall j | 0 <= j < |r|
      ensures Increasing(r[j]) && Inside(r[j])
    {
      DeleteSorted(levels[j], k);
    }
    forall j | 0 < j < |r|
      ensures Below(r[j], r[j - 1])
    {
      assert Below(levels[j], levels[j - 1]);
    }
  }

  /** Setting a key's value on every level keeps the structure. */
  lemma SetEverywhere<V>(levels: seq<Level<V>>, r: seq<Level<V>>, k: int, v: V)
    requires Structured(levels) && |r| == |levels|
    requires forall j :: 0 <= j < |r| ==> r[j] == SetValue(levels[j], k, v)
    ensures Structured(r)
  {
    forall j | 0 <= j < |r|
      ensures Increasing(r[j]) && Inside(r[j])
    {
      SetValueSorted(levels[j], k, v);
    }
    forall j | 0 < j < |r|
      ensures Below(r[j], r[j - 1])
    {
      SetValueBelow(levels[j], levels[j - 1], k, v);
    }
  }

  /** Unlinking a present key takes one node off a sorted level. */
  lemma {:induction false} DeletedCount<V>(lv: Level<V>, k: int)
    requires Increasing(lv)
    ensures |Delete(lv, k)| == |lv| - (if k in Keys(lv) then 1 else 0)
  {
    if lv != [] {
      Cons(lv);
      RestAbove(lv);
      DeletedCount(lv[1..], k);
      if lv[0].key == k {
        assert k !in Keys(lv[1..]);
      }
    }
  }

  /**
   * The state while put raises node e's tower: e stands on levels 0 to j - 1,
   * the bottom level is as put left it, the levels below j are as they were
   * in `before` apart from e, and the levels from j up are as they were, or
   * empty when added since.
   */
  ghost predicate Tower<V>(ls: seq<Level<V>>, before: seq<Level<V>>, j: nat, e: Entry<V>)
  {
    && 1 <= j <= |ls| && |before| >= 1
    && |ls| == (if j <= |before| then |before| else j)
    && ls[0] == before[0]
    && (forall i :: 0 < i < |before| ==> e.key !in Keys(before[i]))
    && (forall i :: 0 <= i < j ==> e in ls[i])
    && (forall i :: 0 < i < j ==> Delete(ls[i], e.key) == if i < |before| then before[i] else [])
    && (forall i :: j <= i < |ls| ==> ls[i] == if i < |before| then before[i] else [])
  }

  /** One more level for e's tower: linked after its predecessor on level j. */
  lemma TowerStep<V>(ls: seq<Level<V>>, before: seq<Level<V>>, j: nat, e: Entry<V>, p: int)
    requires Tower(ls, before, j, e) && j < |ls| && Inside(ls[j]) && (p == MinKey || p in Keys(ls[j]))
    ensures Tower(ls[j := InsertAfter(ls[j], p, e)], before, j + 1, e)
  {
    var r := ls[j := InsertAfter(ls[j], p, e)];
    assert ls[j] == before[j];
    assert e in r[j];
    assert Delete(r[j], e.key) == before[j] by {
      DeleteInserted(ls[j], p, e);
    }
  }

  /** The finished tower: e's key is on levels 0 to j - 1 only, and without it every level is as before put. */
  lemma TowerFinal<V>(ls: seq<Level<V>>, before: seq<Level<V>>, flips: nat, e: Entry<V>)
    requires Tower(ls, before, flips + 1, e)
    ensures |ls| == (if flips < |before| then |before| else flips + 1) && ls[0] == before[0]
    ensures forall i :: 0 <= i < |ls| ==> (e.key in Keys(ls[i]) <==> i <= flips)
    ensures forall i :: 0 < i < |ls| ==> Delete(ls[i], e.key) == if i < |before| then before[i] else []
  {
    forall i | 0 <= i < |ls|
      ensures e.key in Keys(ls[i]) <==> i <= flips
    {
      if i <= flips {
        assert e in ls[i];
      } else {
        assert ls[i] == if i < |before| then before[i] else [];
      }
    }
  }


  /** e's tower reaching the top level, getPrevUpOneLevel adds an empty level, and e goes onto it. */
  lemma TowerGrowStep<V>(ls: seq<Level<V>>, before: seq<Level<V>>, j: nat, e: Entry<V>)
    requires Tower(ls, before, j, e) && j == |ls|
    ensures Tower((ls + [[]])[j := [e]], before, j + 1, e)
  {
    var r := (ls + [[]])[j := [e]];
    assert forall i :: 0 <= i < |ls| ==> r[i] == ls[i];
    assert Delete([e], e.key) == [];
  }

  class SkipList<V(==)> {
    /** The levels, bottom first; levels[|levels| - 1] hangs from `head` and `tail`. */
    var levels: seq<Level<V>>
    var count: int

    ghost predicate Valid()
      reads this
    {
      Structured(levels) && count == |levels[0]|
    }

    /** SkipList(): one level holding only the two sentinels. */
    constructor ()
      ensures Valid() && levels == [[]] && count == 0
    {
      levels := [[]];
      count := 0;
    }

    /** size(): the number of entries, the nodes of the bottom level. */
    method Size() returns (n: int)
      requires Valid()
      ensures n == |levels[0]|
    {
      n := count;
    }

    /** isEmpty() */
    method IsEmpty() returns (b: bool)
      requires Valid()
      ensures b <==> forall x :: Lookup(levels[0], x).None?
    {
      if levels[0] != [] {
        assert Lookup(levels[0], levels[0][0].key).Some?;
      }
      b := count == 0;
    }

    /**
     * getNodeOrPrevious(key): walks right while the next key is at most key
     * and down otherwise, from the top head. It stops at a node holding key
     * (a sentinel, or the top of key's tower) or, on the bottom level, at the
     * node after which key belongs.
     */
    method GetNodeOrPrevious(key: int) returns (lvl: nat, k: int)
      requires Valid() && IsInt(key)
      ensures lvl < |levels|
      ensures k == key <==> key == MinKey || key == MaxKey || key in Keys(levels[0])
      ensures k == key && MinKey < key < MaxKey ==>
        key in Keys(levels[lvl]) && forall j :: lvl < j < |levels| ==> key !in Keys(levels[j])
      ensures k != key ==> lvl == 0 && IsPred(levels[0], k, key)
    {
      var l := |levels| - 1;
      var c := MinKey;
      while true
        invariant 0 <= l < |levels|
        invariant c <= key && (c == MaxKey ==> key == MaxKey)
        invariant c == MinKey || c == MaxKey || c in Keys(levels[l])
        invariant forall j :: l < j < |levels| ==> key !in Keys(levels[j])
        decreases l, MaxKey - c
      {
        if c == key {
          if MinKey < key < MaxKey {
            var e :| e in levels[l] && e.key == key;
            InBottom(levels, l, e);
          }
          return l, c;
        }
        var next := NextKey(levels[l], c);
        if next <= key {
          c := next;
        } else if l > 0 {
          if c != MinKey {
            KeyBelow(levels, l, c);
          }
          l := l - 1;
        } else {
          return 0, c;
        }
      }
    }

    /** containsKey(k), as written: the sentinels' keys count as present (see ContainsKeyGuarded). */
    method ContainsKey(key: int) returns (b: bool)
      requires Valid() && IsInt(key)
      ensures b <==> key == MinKey || key == MaxKey || key in Keys(levels[0])
    {
      var l, k := GetNodeOrPrevious(key);
      b := k == key;
    }

    /** containsKey with the sentinels' keys excluded: exactly the keys of the map. */
    method ContainsKeyGuarded(key: int) returns (b: bool)
      requires Valid() && IsInt(key)
      ensures b <==> Lookup(levels[0], key).Some?
    {
      if key == MinKey || key == MaxKey {
        return false;
      }
      b := ContainsKey(key);
    }

    /** get(k): the value of the node found, null when none is (a sentinel's value is null). */
    method Get(key: int) returns (r: Option<V>)
      requires Valid() && IsInt(key)
      ensures r == Lookup(levels[0], key)
    {
      var l, k := GetNodeOrPrevious(key);
      if k != key || key == MinKey || key == MaxKey {
        return None;
      }
      r := Lookup(levels[l], key);
      InBottom(levels, l, Entry(key, r.value));
      LookupSorted(levels[0], Entry(key, r.value));
    }

    /** newLayer(): an empty level, just the two sentinels, above the top one. */
    method NewLayer()
      requires Structured(levels)
      modifies this
      ensures levels == old(levels) + [[]] && count == old(count)
      ensures Structured(levels)
    {
      levels := levels + [[]];
    }

    /**
     * getPrevUpOneLevel(node): walks left on level j from key's node until a
     * node with an `up` link, and returns the node above it; reaching the head
     * of the top level, it adds a level and returns its head.
     */
    method PrevUpOneLevel(j: nat, key: int) returns (p: int)
      requires Structured(levels) && j < |levels| && MinKey < key < MaxKey
      requires key in Keys(levels[j]) && (j + 1 < |levels| ==> key !in Keys(levels[j + 1]))
      modifies this
      ensures count == old(count) && j + 1 < |levels| && Structured(levels)
      ensures levels == old(levels) || (j + 1 == |old(levels)| && levels == old(levels) + [[]] && p == MinKey)
      ensures IsPred(levels[j + 1], p, key)
    {
      var c := PrevKey(levels[j], key);
      while !(j + 1 < |levels| && (c == MinKey || c in Keys(levels[j + 1])))
        invariant c < key && (c == MinKey || c in Keys(levels[j]))
        invariant j + 1 < |levels| ==> forall e :: e in levels[j + 1] ==> !(c < e.key < key)
        decreases c - MinKey
      {
        if c == MinKey {
          NewLayer();
          return MinKey;
        }
        var prev := PrevKey(levels[j], c);
        if j + 1 < |levels| {
          forall e | e in levels[j + 1]
            ensures !(prev < e.key < key)
          {
            assert e in levels[j];
          }
        }
        c := prev;
      }
      return c;
    }

    /** The walk down a tower from its top on level l, setting each node's value (put, existing key). */
    method SetTower(l: nat, key: int, value: V)
      requires Structured(levels) && l < |levels|
      requires forall j :: l < j < |levels| ==> key !in Keys(levels[j])
      modifies this
      ensures count == old(count) && Structured(levels)
      ensures |levels| == |old(levels)|
      ensures forall i :: 0 <= i < |levels| ==> levels[i] == SetValue(old(levels)[i], key, value)
      ensures forall x :: Lookup(levels[0], x) == if x == key && key in Keys(old(levels[0])) then Some(value) else Lookup(old(levels[0]), x)
    {
      ghost var before := levels;
      var ls := levels;
      var j := l;
      ls := ls[j := SetValue(ls[j], key, value)];
      while j > 0
        invariant 0 <= j <= l < |ls| == |before|
        invariant forall i :: 0 <= i < |ls| ==>
          ls[i] == if j <= i <= l then SetValue(before[i], key, value) else before[i]
      {
        j := j - 1;
        ls := ls[j := SetValue(ls[j], key, value)];
      }
      forall i | l < i < |before|
        ensures ls[i] == SetValue(before[i], key, value)
      {
        assert key !in Keys(before[i]);
      }
      SetEverywhere(before, ls, key, value);
      levels := ls;
      SetValueLookupAll(before[0], key, value);
    }

    /** The walk down a tower from its top on level l, unlinking each node (remove). */
    method UnlinkTower(l: nat, key: int)
      requires Structured(levels) && l < |levels|
      requires forall j :: l < j < |levels| ==> key !in Keys(levels[j])
      modifies this
      ensures count == old(count) && Structured(levels)
      ensures levels == seq(|old(levels)|, i requires 0 <= i < |old(levels)| => Delete(old(levels)[i], key))
    {
      ghost var before := levels;
      var ls := levels;
      var j := l;
      ls := ls[j := Delete(ls[j], key)];
      while j > 0
        invariant 0 <= j <= l < |ls| == |before|
        invariant forall i :: 0 <= i < |ls| ==>
          ls[i] == if j <= i <= l then Delete(before[i], key) else before[i]
      {
        j := j - 1;
        ls := ls[j := Delete(ls[j], key)];
      }
      assert ls == seq(|before|, i requires 0 <= i < |before| => Delete(before[i], key)) by {
        forall i | l < i < |before|
          ensures before[i] == Delete(before[i], key)
        {
          assert key !in Keys(before[i]);
        }
      }
      DeleteEverywhere(before, key);
      levels := ls;
    }

    /**
     * The coin-flip loop of put: node e, already on levels 0 to j - 1, is
     * linked on level j after the node getPrevUpOneLevel finds, for as long
     * as flips allow.
     */
    method BuildTower(e: Entry<V>, flips: nat)
      requires Structured(levels) && MinKey < e.key < MaxKey
      requires e in levels[0] && forall i :: 0 < i < |levels| ==> e.key !in Keys(levels[i])
      modifies this
      ensures count == old(count) && Structured(levels)
      ensures |levels| == (if flips < |old(levels)| then |old(levels)| else flips + 1) && levels[0] == old(levels)[0]
      ensures forall i :: 0 <= i < |levels| ==> (e.key in Keys(levels[i]) <==> i <= flips)
      ensures forall i :: 0 < i < |levels| ==> Delete(levels[i], e.key) == if i < |old(levels)| then old(levels)[i] else []
    {
      ghost var before := levels;
      var j := 1;
      while j <= flips
        invariant j <= flips + 1 && count == old(count)
        invariant Structured(levels) && Tower(levels, before, j, e)
      {
        ghost var pre := levels;
        assert e.key in Keys(levels[j - 1]) && (j < |levels| ==> e.key !in Keys(levels[j])) by {
          assert e in levels[j - 1];
          if j < |levels| {
            assert levels[j] == if j < |before| then before[j] else [];
          }
        }
        var p := PrevUpOneLevel(j - 1, e.key);
        assert Structured(levels[j := InsertAfter(levels[j], p, e)]) by {
          assert e in levels[j - 1] && e.key !in Keys(levels[j]);
          LinkOnLevel(levels, j, p, e);
        }
        assert Tower(levels[j := InsertAfter(levels[j], p, e)], before, j + 1, e) by {
          if |levels| != |pre| {
            assert levels == pre + [[]] && levels[j] == [] && p == MinKey;
            assert InsertAfter(levels[j], p, e) == [e] + [] == [e];
            TowerGrowStep(pre, before, j, e);
          } else {
            TowerStep(levels, before, j, e, p);
          }
        }
        levels := levels[j := InsertAfter(levels[j], p, e)];
        j := j + 1;
      }
      TowerFinal(levels, before, flips, e);
    }

    /**
     * put(key, value). An existing key has the value set on every node of its
     * tower and its old value returned. A new key is linked after its
     * predecessor on the bottom level, and then once more on each level above
     * for as many coin flips in a row as come up true (`flips`), adding levels
     * as needed; count grows by one and null is returned.
     */
    method Put(key: int, value: V, flips: nat) returns (prior: Option<V>)
      requires Valid() && MinKey < key < MaxKey
      modifies this
      ensures Valid()
      ensures prior == Lookup(old(levels[0]), key)
      ensures forall x :: Lookup(levels[0], x) == if x == key then Some(value) else Lookup(old(levels[0]), x)
      ensures prior.Some? ==> |levels| == |old(levels)|
      ensures prior.Some? ==> forall j :: 0 <= j < |levels| ==> levels[j] == SetValue(old(levels)[j], key, value)
      ensures prior.None? ==> |levels| == (if flips < |old(levels)| then |old(levels)| else flips + 1)
      ensures prior.None? ==> forall j :: 0 <= j < |levels| ==> (key in Keys(levels[j]) <==> j <= flips)
      ensures prior.None? ==> forall j :: 0 <= j < |levels| ==>
        Delete(levels[j], key) == if j < |old(levels)| then old(levels)[j] else []
    {
      var l, k := GetNodeOrPrevious(key);
      ghost var before := levels;
      if k == key {
        prior := PutExisting(l, key, value);
      } else {
        prior := None;
        LinkNew(k, Entry(key, value), flips);
      }
    }

    /** The existing-key branch of put: the value set on the tower whose top is on level l. */
    method PutExisting(l: nat, key: int, value: V) returns (prior: Option<V>)
      requires Valid() && l < |levels| && key in Keys(levels[l])
      requires forall j :: l < j < |levels| ==> key !in Keys(levels[j])
      modifies this
      ensures Valid() && prior.Some? && prior == Lookup(old(levels[0]), key)
      ensures forall x :: Lookup(levels[0], x) == if x == key then Some(value) else Lookup(old(levels[0]), x)
      ensures |levels| == |old(levels)|
      ensures forall j :: 0 <= j < |levels| ==> levels[j] == SetValue(old(levels)[j], key, value)
    {
      var top := Lookup(levels[l], key);
      InBottom(levels, l, Entry(key, top.value));
      LookupSorted(levels[0], Entry(key, top.value));
      prior := top;
      SetTower(l, key, value);
    }

    /** The new-key branch of put: e linked after node k on the bottom level, then its tower raised. */
    method LinkNew(k: int, e: Entry<V>, flips: nat)
      requires Valid() && MinKey < e.key < MaxKey && IsPred(levels[0], k, e.key) && e.key !in Keys(levels[0])
      modifies this
      ensures Valid() && levels[0] == InsertAfter(old(levels[0]), k, e)
      ensures forall x :: Lookup(levels[0], x) == if x == e.key then Some(e.value) else Lookup(old(levels[0]), x)
      ensures |levels| == (if flips < |old(levels)| then |old(levels)| else flips + 1)
      ensures forall j :: 0 <= j < |levels| ==> (e.key in Keys(levels[j]) <==> j <= flips)
      ensures forall j :: 0 <= j < |levels| ==>
        Delete(levels[j], e.key) == if j < |old(levels)| then old(levels)[j] else []
    {
      ghost var before := levels;
      AbsentEverywhere(levels, e.key);
      InsertAfterLookupAll(levels[0], k, e);
      LinkOnLevel(levels, 0, k, e);
      DeleteInserted(levels[0], k, e);
      levels := levels[0 := InsertAfter(levels[0], k, e)];
      BuildTower(e, flips);
      count := count + 1;
    }

    /**
     * remove(k): when key is present, unlinks its node on every level from
     * the top of its tower down, decrements count and returns the old value;
     * otherwise returns null and changes nothing. Emptied levels stay.
     */
    method Remove(key: int) returns (prior: Option<V>)
      requires Valid() && MinKey < key < MaxKey
      modifies this
      ensures Valid()
      ensures prior == Lookup(old(levels[0]), key)
      ensures forall x :: Lookup(levels[0], x) == if x == key then None else Lookup(old(levels[0]), x)
      ensures |levels| == |old(levels)| && forall j :: 0 <= j < |levels| ==> levels[j] == Delete(old(levels)[j], key)
      ensures count == old(count) - (if prior.Some? then 1 else 0)
    {
      var l, k := GetNodeOrPrevious(key);
      ghost var before := levels;
      forall x {
        DeleteLookup(before[0], key, x);
      }
      if k != key {
        AbsentEverywhere(levels, key);
        return None;
      }
      var top := Lookup(levels[l], key);
      InBottom(levels, l, Entry(key, top.value));
      LookupSorted(levels[0], Entry(key, top.value));
      prior := top;
      UnlinkTower(l, key);
      DeletedCount(before[0], key);
      count := count - 1;
    }

    /** clear(): back to one level holding only the sentinels. */
    method Clear()
      modifies this
      ensures Valid() && levels == [[]] && count == 0
      ensures forall x :: Lookup(levels[0], x).None?
    {
      levels := [[]];
      count := 0;
    }

    /** containsValue(v): a walk along the bottom level. */
    method ContainsValue(v: V) returns (b: bool)
      requires Valid()
      ensures b <==> exists x :: Lookup(levels[0], x) == Some(v)
    {
      var bottom := levels[0];
      var i := 0;
      while i < |bottom|
        invariant 0 <= i <= |bottom|
        invariant forall m :: 0 <= m < i ==> bottom[m].value != v
      {
        if bottom[i].value == v {
          LookupSorted(bottom, bottom[i]);
          return true;
        }
        i := i + 1;
      }
      b := false;
      forall x | Lookup(bottom, x).Some?
        ensures Lookup(bottom, x).value != v
      {
        var e := Entry(x, Lookup(bottom, x).value);
        var m :| 0 <= m < |bottom| && bottom[m] == e;
      }
    }

    /** values(): the values along the bottom level, in key order. */
    method Values() returns (r: seq<V>)
      requires Valid()
      ensures |r| == |levels[0]| && forall i :: 0 <= i < |r| ==> r[i] == levels[0][i].value
      ensures forall x :: Lookup(levels[0], x).Some? ==> Lookup(levels[0], x).value in r
    {
      var bottom := levels[0];
      r := [];
      var i := 0;
      while i < |bottom|
        invariant 0 <= i <= |bottom|
        invariant |r| == i && forall m :: 0 <= m < i ==> r[m] == bottom[m].value
      {
        r := r + [bottom[i].value];
        i := i + 1;
      }
      forall x | Lookup(bottom, x).Some?
        ensures Lookup(bottom, x).value in r
      {
        var m :| 0 <= m < |bottom| && bottom[m] == Entry(x, Lookup(bottom, x).value);
        assert r[m] == Lookup(bottom, x).value;
      }
    }

    /** keySet(): the keys along the bottom level. */
    method KeySet() returns (r: set<int>)
      requires Valid()
      ensures forall x :: x in r <==> Lookup(levels[0], x).Some?
    {
      var bottom := levels[0];
      r := {};
      var i := 0;
      while i < |bottom|
        invariant 0 <= i <= |bottom|
        invariant r == Keys(bottom[..i])
      {
        assert bottom[..i + 1] == bottom[..i] + [bottom[i]];
        r := r + {bottom[i].key};
        i := i + 1;
      }
      assert bottom[..i] == bottom;
    }

    /** entrySet(): the key-value pairs along the bottom level. */
    method EntrySet() returns (r: set<(int, V)>)
      requires Valid()
      ensures forall x, v :: (x, v) in r <==> Lookup(levels[0], x) == Some(v)
    {
      var bottom := levels[0];
      r := {};
      var i := 0;
      while i < |bottom|
        invariant 0 <= i <= |bottom|
        invariant forall x, v :: (x, v) in r <==> Entry(x, v) in bottom[..i]
      {
        assert bottom[..i + 1] == bottom[..i] + [bottom[i]];
        r := r + {(bottom[i].key, bottom[i].value)};
        i := i + 1;
      }
      assert bottom[..i] == bottom;
      forall x, v
        ensures Entry(x, v) in bottom <==> Lookup(bottom, x) == Some(v)
      {
        if Entry(x, v) in bottom {
          LookupSorted(bottom, Entry(x, v));
        }
      }
    }
  }

  /** An empty skip list reports both sentinel keys as contained (the as-written containsKey). */
  method EmptyListHasSentinelKeys() returns (low: bool, high: bool)
    ensures low && high
  {
    var list := new SkipList<int>();
    low := list.ContainsKey(MinKey);
    high := list.ContainsKey(MaxKey);
  }

  /** The guarded containsKey reports neither on an empty skip list. */
  method EmptyListGuarded() returns (low: bool, high: bool)
    ensures !low && !high
  {
    var list := new SkipList<int>();
    low := list.ContainsKeyGuarded(MinKey);
    high := list.ContainsKeyGuarded(MaxKey);
  }
}
