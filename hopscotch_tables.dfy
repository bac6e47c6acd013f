/**
 * The table of the Hopscotch map as a value: buckets that remember their home
 * slot (`base`), the MAD hash, and the placement invariant that ties the table
 * to an abstract map. Every live bucket sits at most three slots after its
 * home, with no null slot between the two, so that get's short scan finds it.
 * Each kind of table update put, remove and the hops perform has a lemma here
 * saying how it transforms the invariant.
 */
module HopscotchTables {
  import opened Common
  import opened Mad

  /** NEIGHSIZE: a bucket lives in one of the four slots starting at its home. */
  const NeighSize: int := 4
  const DefaultSize: int := 11
  /** Integer.MIN_VALUE, which findOpen and openBucketInNeigh return after a regrow. */
  const MinValue: int := -0x8000_0000

  /** A bucket stored by value; base is the home slot it was put for. */
  datatype Bucket<K, V> = Bucket(key: K, value: V, deleted: bool, base: int)

  /** isNullOrDeleted, negated. */
  predicate Live<K, V>(s: Option<Bucket<K, V>>)
  {
    s.Some? && !s.value.deleted
  }

  /** The MAD hash of a table of length len. */
  datatype Hasher<!K> = Hasher(hashCode: K -> int, a1: int, b1: int, p: int, len: int)
  {
    /** The ranges redrawMAD gives the parameters. */
    predicate Ok()
    {
      0 < len && p <= LastPrime && 1 <= a1 < p && 0 <= b1 < p
    }

    /** hash(k): the home slot of k. */
    function Hash(k: K): (r: int)
      requires Ok()
      ensures 0 <= r < len
    {
      MadIndex(a1, b1, p, hashCode(k), len)
    }
  }

  /** A table of n null slots. */
  function EmptyTable<K, V>(n: nat): (r: seq<Option<Bucket<K, V>>>)
    ensures |r| == n && forall i :: 0 <= i < n ==> r[i].None?
  {
    seq(n, _ => None)
  }

  /** Every slot from lo to hi holds a bucket, except perhaps the slot `hole`. */
  ghost predicate Filled<K, V>(s: seq<Option<Bucket<K, V>>>, lo: int, hi: int, hole: int)
  {
    forall j :: lo <= j <= hi && 0 <= j < |s| && j != hole ==> s[j].Some?
  }

  /**
   * Slot i is placed: a bucket there lies in the window of its home, and a
   * live one is recorded in w at i, agrees with c, and is reached from its
   * home over buckets only (the slot `hole` excepted).
   */
  ghost predicate SlotOk<K, V>(h: Hasher<K>, s: seq<Option<Bucket<K, V>>>, c: map<K, V>, w: map<K, int>, hole: int, i: int)
    requires h.Ok() && |s| == h.len && 0 <= i < |s|
  {
    s[i].Some? ==>
      var b := s[i].value;
      h.Hash(b.key) == b.base && b.base <= i < b.base + NeighSize &&
      (!b.deleted ==> b.key in w && w[b.key] == i && b.key in c && c[b.key] == b.value && Filled(s, b.base, i, hole))
  }

  /** Key k is placed: it is in c exactly when w records it, at a live bucket holding k. */
  ghost predicate KeyOk<K, V>(s: seq<Option<Bucket<K, V>>>, c: map<K, V>, w: map<K, int>, k: K)
  {
    (k in c <==> k in w) &&
    (k in w ==> 0 <= w[k] < |s| && Live(s[w[k]]) && s[w[k]].value.key == k)
  }

  /**
   * The placement invariant, except that the slot `hole` may be a gap (-1 for
   * none): while a hop is under way, the slot being freed is such a gap.
   */
  ghost predicate Inv<K, V>(h: Hasher<K>, s: seq<Option<Bucket<K, V>>>, c: map<K, V>, w: map<K, int>, hole: int)
  {
    h.Ok() && |s| == h.len &&
    (forall i :: 0 <= i < |s| ==> SlotOk(h, s, c, w, hole, i)) &&
    (forall k {:trigger KeyOk(s, c, w, k)} :: k in w.Keys + c.Keys ==> KeyOk(s, c, w, k))
  }

  /**
   * The scan of get and getKey, from slot i on: the first live bucket holding
   * k, stopping at a null slot, at the end of the table or after the four
   * slots of home's window; -1 when there is none.
   */
  function FindFrom<K(==), V>(s: seq<Option<Bucket<K, V>>>, k: K, home: int, i: int): (r: int)
    requires 0 <= i
    ensures r == -1 || (i <= r < |s| && r < home + NeighSize && Live(s[r]) && s[r].value.key == k)
    decreases |s| - i
  {
    if i >= |s| || i >= home + NeighSize || s[i].None? then -1
    else if s[i].value.key == k && !s[i].value.deleted then i
    else FindFrom(s, k, home, i + 1)
  }

  /** A table of null slots holds the empty map. */
  lemma InvEmpty<K, V>(h: Hasher<K>)
    requires h.Ok()
    ensures Inv(h, EmptyTable<K, V>(h.len), map[], map[], -1)
  {
  }

  /** A table with no gap is one with a gap anywhere. */
  lemma InvWeaken<K, V>(h: Hasher<K>, s: seq<Option<Bucket<K, V>>>, c: map<K, V>, w: map<K, int>, hole: int)
    requires Inv(h, s, c, w, -1)
    ensures Inv(h, s, c, w, hole)
  {
    forall i | 0 <= i < |s|
      ensures SlotOk(h, s, c, w, hole, i)
    {
      assert SlotOk(h, s, c, w, -1, i);
    }
  }

  /**
   * Lookup through the invariant: the scan from k's home finds the live
   * bucket w records for k, and finds nothing when k is not in c.
   */
  lemma Located<K, V>(h: Hasher<K>, s: seq<Option<Bucket<K, V>>>, c: map<K, V>, w: map<K, int>, k: K)
    requires Inv(h, s, c, w, -1)
    ensures k in c <==> k in w
    ensures var home := h.Hash(k);
      FindFrom(s, k, home, home) == if k in c then w[k] else -1
    ensures k in c ==> 0 <= w[k] < |s| && Live(s[w[k]]) && s[w[k]].value.key == k && s[w[k]].value.value == c[k]
  {
    var home := h.Hash(k);
    assert KeyOk(s, c, w, k);
    if k in c {
      var t := w[k];
      assert SlotOk(h, s, c, w, -1, t);
      forall j | home <= j < t
        ensures !(Live(s[j]) && s[j].value.key == k)
      {
        assert SlotOk(h, s, c, w, -1, j);
      }
      FindReaches(s, k, home, home, t);
    } else {
      forall j | 0 <= j < |s|
        ensures !(Live(s[j]) && s[j].value.key == k)
      {
        assert SlotOk(h, s, c, w, -1, j);
      }
      FindMisses(s, k, home, home);
    }
  }

  /** The scan passes over buckets that are not live copies of k and stops at the one that is. */
  lemma {:induction false} FindReaches<K, V>(s: seq<Option<Bucket<K, V>>>, k: K, home: int, i: int, t: int)
    requires 0 <= i <= t < |s| && t < home + NeighSize
    requires Live(s[t]) && s[t].value.key == k
    requires forall j :: i <= j <= t ==> s[j].Some?
    requires forall j :: i <= j < t ==> !(Live(s[j]) && s[j].value.key == k)
    ensures FindFrom(s, k, home, i) == t
    decreases t - i
  {
    if i < t {
      FindReaches(s, k, home, i + 1, t);
    }
  }

  /** With no live bucket holding k, the scan finds nothing. */
  lemma {:induction false} FindMisses<K, V>(s: seq<Option<Bucket<K, V>>>, k: K, home: int, i: int)
    requires 0 <= i
    requires forall j :: i <= j < |s| ==> !(Live(s[j]) && s[j].value.key == k)
    ensures FindFrom(s, k, home, i) == -1
    decreases |s| - i
  {
    if i < |s| && i < home + NeighSize && s[i].Some? {
      FindMisses(s, k, home, i + 1);
    }
  }

  /**
   * put of a new key into slot i of its window, which is null or a tombstone
   * (or the gap a hop has freed), with buckets in every slot from home to i.
   */
  lemma InvPlace<K, V>(h: Hasher<K>, s: seq<Option<Bucket<K, V>>>, c: map<K, V>, w: map<K, int>, k: K, v: V, i: int)
    requires Inv(h, s, c, w, i) && k !in c
    requires 0 <= i < |s| && !Live(s[i])
    requires h.Hash(k) <= i < h.Hash(k) + NeighSize && Filled(s, h.Hash(k), i, i)
    ensures Inv(h, s[i := Some(Bucket(k, v, false, h.Hash(k)))], c[k := v], w[k := i], -1)
  {
    var s' := s[i := Some(Bucket(k, v, false, h.Hash(k)))];
    var c', w' := c[k := v], w[k := i];
    forall j | 0 <= j < |s|
      ensures SlotOk(h, s', c', w', -1, j)
    {
      assert SlotOk(h, s, c, w, i, j);
    }
    forall k' | k' in w'.Keys + c'.Keys
      ensures KeyOk(s', c', w', k')
    {
      if k' != k {
        assert KeyOk(s, c, w, k');
      }
    }
  }

  /** put of a key already live: its bucket is replaced by one with the new value. */
  lemma InvOverwrite<K, V>(h: Hasher<K>, s: seq<Option<Bucket<K, V>>>, c: map<K, V>, w: map<K, int>, k: K, v: V)
    requires Inv(h, s, c, w, -1) && k in c
    ensures k in w
    ensures 0 <= w[k] < |s| && Inv(h, s[w[k] := Some(Bucket(k, v, false, h.Hash(k)))], c[k := v], w, -1)
  {
    assert KeyOk(s, c, w, k);
    var t := w[k];
    assert SlotOk(h, s, c, w, -1, t);
    var s' := s[t := Some(Bucket(k, v, false, h.Hash(k)))];
    var c' := c[k := v];
    forall j | 0 <= j < |s|
      ensures SlotOk(h, s', c', w, -1, j)
    {
      assert SlotOk(h, s, c, w, -1, j);
    }
    forall k' | k' in w.Keys + c'.Keys
      ensures KeyOk(s', c', w, k')
    {
      assert KeyOk(s, c, w, k');
    }
  }

  /** remove: the bucket of k becomes a tombstone and k leaves c and w. */
  lemma InvTombstone<K, V>(h: Hasher<K>, s: seq<Option<Bucket<K, V>>>, c: map<K, V>, w: map<K, int>, k: K)
    requires Inv(h, s, c, w, -1) && k in c
    ensures k in w
    ensures 0 <= w[k] < |s| && s[w[k]].Some?
    ensures Inv(h, s[w[k] := Some(s[w[k]].value.(deleted := true))], c - {k}, w - {k}, -1)
  {
    assert KeyOk(s, c, w, k);
    var t := w[k];
    var s' := s[t := Some(s[t].value.(deleted := true))];
    var c', w' := c - {k}, w - {k};
    forall j | 0 <= j < |s|
      ensures SlotOk(h, s', c', w', -1, j)
    {
      assert SlotOk(h, s, c, w, -1, j);
    }
    forall k' | k' in w'.Keys + c'.Keys
      ensures KeyOk(s', c', w', k')
    {
      assert KeyOk(s, c, w, k');
    }
  }

  /**
   * One hop: the bucket at j moves into the gap at cur (null, or a tombstone
   * it overwrites), which its window reaches, and j becomes the gap. Slots
   * between j and cur hold buckets.
   */
  lemma InvMove<K, V>(h: Hasher<K>, s: seq<Option<Bucket<K, V>>>, c: map<K, V>, w: map<K, int>, j: int, cur: int, lo: int, hi: int)
    requires Inv(h, s, c, w, cur)
    requires 0 <= j < cur < |s| && !Live(s[cur]) && s[j].Some? && cur - s[j].value.base < NeighSize
    requires Filled(s, j, cur, cur) && Filled(s, lo, hi, cur)
    ensures var b := s[j].value;
      Inv(h, s[cur := s[j]][j := None], c, if b.deleted then w else w[b.key := cur], j)
    ensures Filled(s[cur := s[j]][j := None], lo, hi, j)
  {
    var b := s[j].value;
    var s' := s[cur := s[j]][j := None];
    var w' := if b.deleted then w else w[b.key := cur];
    assert SlotOk(h, s, c, w, cur, j);
    forall i | 0 <= i < |s|
      ensures SlotOk(h, s', c, w', j, i)
    {
      assert SlotOk(h, s, c, w, cur, i);
    }
    forall k | k in w'.Keys + c.Keys
      ensures KeyOk(s', c, w', k)
    {
      assert KeyOk(s, c, w, k);
    }
  }

  /** A hop onto itself: a tombstone in the gap's own slot is cleared to null. */
  lemma InvClear<K, V>(h: Hasher<K>, s: seq<Option<Bucket<K, V>>>, c: map<K, V>, w: map<K, int>, cur: int, lo: int, hi: int)
    requires Inv(h, s, c, w, cur)
    requires 0 <= cur < |s| && s[cur].Some? && s[cur].value.deleted
    requires Filled(s, lo, hi, cur)
    ensures Inv(h, s[cur := None], c, w, cur) && Filled(s[cur := None], lo, hi, cur)
  {
    var s' := s[cur := None];
    forall i | 0 <= i < |s|
      ensures SlotOk(h, s', c, w, cur, i)
    {
      assert SlotOk(h, s, c, w, cur, i);
    }
    forall k | k in w.Keys + c.Keys
      ensures KeyOk(s', c, w, k)
    {
      assert KeyOk(s, c, w, k);
    }
  }

  /** The map m after re-putting slot x, if x holds a live bucket. */
  function Reput<K(==), V>(m: map<K, V>, x: Option<Bucket<K, V>>): map<K, V>
  {
    if Live(x) then m[x.value.key := x.value.value] else m
  }

  /** The map formed by the live buckets of s[..n], in the order regrow re-puts them. */
  function LiveEntries<K(==), V>(s: seq<Option<Bucket<K, V>>>, n: nat): map<K, V>
    requires n <= |s|
  {
    if n == 0 then map[] else Reput(LiveEntries(s, n - 1), s[n - 1])
  }

  /**
   * Every entry regrow re-puts agrees with c, and a key is re-put exactly when
   * some live bucket among the first n slots holds it.
   */
  lemma {:induction false} LiveEntriesSpec<K, V>(s: seq<Option<Bucket<K, V>>>, n: nat, c: map<K, V>)
    requires n <= |s|
    requires forall i :: 0 <= i < n && Live(s[i]) ==> s[i].value.key in c && c[s[i].value.key] == s[i].value.value
    ensures forall k :: k in LiveEntries(s, n) ==> k in c && LiveEntries(s, n)[k] == c[k]
    ensures forall k :: k in LiveEntries(s, n) <==> exists i :: 0 <= i < n && Live(s[i]) && s[i].value.key == k
  {
    if n > 0 {
      LiveEntriesSpec(s, n - 1, c);
    }
  }

  /** regrow re-puts exactly the entries of the map, whatever gap a hop has left. */
  lemma TablesHoldContents<K, V>(h: Hasher<K>, s: seq<Option<Bucket<K, V>>>, c: map<K, V>, w: map<K, int>, hole: int)
    requires Inv(h, s, c, w, hole)
    ensures LiveEntries(s, |s|) == c
  {
    var n := |s|;
    forall i | 0 <= i < n
      ensures Live(s[i]) ==> s[i].value.key in c && c[s[i].value.key] == s[i].value.value
    {
      assert SlotOk(h, s, c, w, hole, i);
    }
    LiveEntriesSpec(s, n, c);
    var le := LiveEntries(s, n);
    forall k | k in c
      ensures k in le
    {
      assert KeyOk(s, c, w, k);
      assert Live(s[w[k]]) && s[w[k]].value.key == k;
    }
    assert le == c;
  }
}
