/**
 * The two tables of the Cuckoo map as values: buckets, the two MAD hash
 * functions, and the placement invariant that ties the tables to an abstract
 * map. Each kind of table update the map performs has a lemma here saying how
 * it transforms the invariant.
 */
module CuckooTables {
  import opened Common
  import opened Mad


  /** A bucket stored by value: the source never shares a bucket between slots. */
  datatype Bucket<K, V> = Bucket(key: K, value: V, deleted: bool)

  /** isNullOrDeleted, negated. */
  predicate Live<K, V>(s: Option<Bucket<K, V>>)
  {
    s.Some? && !s.value.deleted
  }

  /** The two MAD hash functions of a pair of tables of length len. */
  datatype Hasher<!K> = Hasher(hash1: K -> int, hash2: K -> int, a1: int, b1: int, a2: int, b2: int, p: int, len: int)
  {
    /** The ranges redrawMAD gives the parameters. */
    predicate Ok()
    {
      0 < len && p <= LastPrime && 1 <= a1 < p && 0 <= b1 < p && 1 <= a2 < p && 0 <= b2 < p
    }

    /** hash(k, t): the candidate slot of k in table t. */
    function Hash(k: K, t: int): (r: int)
      requires Ok()
      ensures 0 <= r < len
    {
      if t == 1 then MadIndex(a1, b1, p, hash1(k), len) else MadIndex(a2, b2, p, hash2(k), len)
    }
  }

  function At<K, V>(s1: seq<Option<Bucket<K, V>>>, s2: seq<Option<Bucket<K, V>>>, t: int, i: int): Option<Bucket<K, V>>
    requires 0 <= i < |s1| && i < |s2|
  {
    if t == 1 then s1[i] else s2[i]
  }

  /** A live bucket with key k sits at k's candidate slot in table t. */
  ghost predicate LiveIn<K, V>(h: Hasher<K>, s1: seq<Option<Bucket<K, V>>>, s2: seq<Option<Bucket<K, V>>>, k: K, t: int)
    requires h.Ok() && |s1| == h.len && |s2| == h.len
  {
    var s := At(s1, s2, t, h.Hash(k, t));
    Live(s) && s.value.key == k
  }

  /**
   * Slot i of table t is placed: a live bucket there sits at its candidate
   * slot, is recorded in w at (t, i), and agrees with c.
   */
  ghost predicate SlotOk<K, V>(h: Hasher<K>, s1: seq<Option<Bucket<K, V>>>, s2: seq<Option<Bucket<K, V>>>,
                               c: map<K, V>, w: map<K, (int, int)>, t: int, i: int)
    requires h.Ok() && |s1| == h.len && |s2| == h.len && 0 <= i < h.len
  {
    var s := At(s1, s2, t, i);
    Live(s) ==>
      h.Hash(s.value.key, t) == i && s.value.key in w && w[s.value.key] == (t, i) &&
      s.value.key in c && c[s.value.key] == s.value.value
  }

  /**
   * Key k is placed: w records it only at a live bucket holding k, and every
   * key of c other than the evicted key fl is recorded in w.
   */
  ghost predicate KeyOk<K, V>(h: Hasher<K>, s1: seq<Option<Bucket<K, V>>>, s2: seq<Option<Bucket<K, V>>>,
                              c: map<K, V>, w: map<K, (int, int)>, fl: Option<K>, k: K)
    requires h.Ok() && |s1| == h.len && |s2| == h.len
  {
    (k in w ==>
       (w[k].0 == 1 || w[k].0 == 2) && 0 <= w[k].1 < h.len &&
       Live(At(s1, s2, w[k].0, w[k].1)) && At(s1, s2, w[k].0, w[k].1).value.key == k) &&
    (k in c ==> k in w || fl == Some(k))
  }

  /**
   * The placement invariant while the bucket with key fl (if any) is evicted
   * and not yet re-placed: every slot and every key is placed, and fl is a key
   * of c that w does not record.
   */
  ghost predicate Inv<K, V>(h: Hasher<K>, s1: seq<Option<Bucket<K, V>>>, s2: seq<Option<Bucket<K, V>>>,
                            c: map<K, V>, w: map<K, (int, int)>, fl: Option<K>)
  {
    h.Ok() && |s1| == h.len && |s2| == h.len &&
    (forall t, i :: (t == 1 || t == 2) && 0 <= i < h.len ==> SlotOk(h, s1, s2, c, w, t, i)) &&
    (forall k {:trigger KeyOk(h, s1, s2, c, w, fl, k)} :: k in w.Keys + c.Keys ==> KeyOk(h, s1, s2, c, w, fl, k)) &&
    (fl.Some? ==> fl.value in c && fl.value !in w)
  }

  /** Replaces slot i of table t. */
  function Store<K, V>(s1: seq<Option<Bucket<K, V>>>, s2: seq<Option<Bucket<K, V>>>, t: int, i: int, x: Option<Bucket<K, V>>):
    (r: (seq<Option<Bucket<K, V>>>, seq<Option<Bucket<K, V>>>))
    requires 0 <= i < |s1| && i < |s2|
  {
    if t == 1 then (s1[i := x], s2) else (s1, s2[i := x])
  }

  /**
   * Lookup through the invariant: a key of c other than fl is live at its
   * candidate slot in the table w records, a key live at a candidate slot is
   * in c with that bucket's value, and the evicted key is live nowhere.
   */
  lemma Located<K, V>(h: Hasher<K>, s1: seq<Option<Bucket<K, V>>>, s2: seq<Option<Bucket<K, V>>>,
                      c: map<K, V>, w: map<K, (int, int)>, fl: Option<K>, k: K)
    requires Inv(h, s1, s2, c, w, fl)
    ensures k in c && fl != Some(k) ==> k in w
    ensures k in w ==> LiveIn(h, s1, s2, k, w[k].0)
    ensures LiveIn(h, s1, s2, k, 1) ==> k in c && c[k] == s1[h.Hash(k, 1)].value.value
    ensures LiveIn(h, s1, s2, k, 2) ==> k in c && c[k] == s2[h.Hash(k, 2)].value.value
    ensures fl == Some(k) ==> !LiveIn(h, s1, s2, k, 1) && !LiveIn(h, s1, s2, k, 2)
  {
    assert KeyOk(h, s1, s2, c, w, fl, k);
    if k in w {
      assert SlotOk(h, s1, s2, c, w, w[k].0, w[k].1);
    }
    assert SlotOk(h, s1, s2, c, w, 1, h.Hash(k, 1));
    assert SlotOk(h, s1, s2, c, w, 2, h.Hash(k, 2));
  }

  /** A table of n null slots. */
  function EmptyTable<K, V>(n: nat): (r: seq<Option<Bucket<K, V>>>)
    ensures |r| == n
  {
    seq(n, _ => None)
  }

  /** Empty tables hold the empty map. */
  lemma InvEmpty<K, V>(h: Hasher<K>)
    requires h.Ok()
    ensures Inv(h, EmptyTable<K, V>(h.len), EmptyTable<K, V>(h.len), map[], map[], None)
  {
  }

  /** put of a key live in neither table: it joins c and is the evicted key until placed. */
  lemma InvFloat<K, V>(h: Hasher<K>, s1: seq<Option<Bucket<K, V>>>, s2: seq<Option<Bucket<K, V>>>,
                       c: map<K, V>, w: map<K, (int, int)>, k: K, v: V)
    requires Inv(h, s1, s2, c, w, None)
    requires !LiveIn(h, s1, s2, k, 1) && !LiveIn(h, s1, s2, k, 2)
    ensures k !in c && Inv(h, s1, s2, c[k := v], w, Some(k))
  {
    Located(h, s1, s2, c, w, None, k);
    var c' := c[k := v];
    forall t, i | (t == 1 || t == 2) && 0 <= i < h.len
      ensures SlotOk(h, s1, s2, c', w, t, i)
    {
      assert SlotOk(h, s1, s2, c, w, t, i);
    }
    forall k' | k' in w || k' in c' ensures KeyOk(h, s1, s2, c', w, Some(k), k') {
      assert KeyOk(h, s1, s2, c, w, None, k');
    }
  }

  /** putBucket into a null or tombstoned slot: the evicted bucket is placed. */
  lemma InvStore<K, V>(h: Hasher<K>, s1: seq<Option<Bucket<K, V>>>, s2: seq<Option<Bucket<K, V>>>,
                       c: map<K, V>, w: map<K, (int, int)>, b: Bucket<K, V>, t: int)
    requires Inv(h, s1, s2, c, w, Some(b.key)) && c[b.key] == b.value && !b.deleted
    requires (t == 1 || t == 2) && !Live(At(s1, s2, t, h.Hash(b.key, t)))
    ensures var (n1, n2) := Store(s1, s2, t, h.Hash(b.key, t), Some(b));
      Inv(h, n1, n2, c, w[b.key := (t, h.Hash(b.key, t))], None)
  {
    var i := h.Hash(b.key, t);
    var (n1, n2) := Store(s1, s2, t, i, Some(b));
    var w' := w[b.key := (t, i)];
    forall t', i' | (t' == 1 || t' == 2) && 0 <= i' < h.len
      ensures SlotOk(h, n1, n2, c, w', t', i')
    {
      assert SlotOk(h, s1, s2, c, w, t', i');
    }
    forall k | k in w' || k in c ensures KeyOk(h, n1, n2, c, w', None, k) {
      assert KeyOk(h, s1, s2, c, w, Some(b.key), k);
    }
  }

  /** putBucket onto a live bucket with the same key: Bucket.setValue. */
  lemma InvSetValue<K, V>(h: Hasher<K>, s1: seq<Option<Bucket<K, V>>>, s2: seq<Option<Bucket<K, V>>>,
                          c: map<K, V>, w: map<K, (int, int)>, b: Bucket<K, V>, t: int)
    requires Inv(h, s1, s2, c, w, None) && !b.deleted
    requires (t == 1 || t == 2) && LiveIn(h, s1, s2, b.key, t)
    ensures var (n1, n2) := Store(s1, s2, t, h.Hash(b.key, t), Some(b));
      Inv(h, n1, n2, c[b.key := b.value], w, None)
  {
    var i := h.Hash(b.key, t);
    var (n1, n2) := Store(s1, s2, t, i, Some(b));
    var c' := c[b.key := b.value];
    assert SlotOk(h, s1, s2, c, w, t, i);
    forall t', i' | (t' == 1 || t' == 2) && 0 <= i' < h.len
      ensures SlotOk(h, n1, n2, c', w, t', i')
    {
      assert SlotOk(h, s1, s2, c, w, t', i');
    }
    forall k | k in w || k in c' ensures KeyOk(h, n1, n2, c', w, None, k) {
      assert KeyOk(h, s1, s2, c, w, None, k);
    }
  }

  /** putBucket onto a live bucket with another key: that bucket is evicted in turn. */
  lemma InvEvict<K, V>(h: Hasher<K>, s1: seq<Option<Bucket<K, V>>>, s2: seq<Option<Bucket<K, V>>>,
                       c: map<K, V>, w: map<K, (int, int)>, b: Bucket<K, V>, t: int)
    requires Inv(h, s1, s2, c, w, Some(b.key)) && c[b.key] == b.value && !b.deleted
    requires (t == 1 || t == 2) && Live(At(s1, s2, t, h.Hash(b.key, t)))
    requires At(s1, s2, t, h.Hash(b.key, t)).value.key != b.key
    ensures var i := h.Hash(b.key, t);
      var e := At(s1, s2, t, i).value;
      var (n1, n2) := Store(s1, s2, t, i, Some(b));
      !e.deleted && e.key in c && c[e.key] == e.value &&
      Inv(h, n1, n2, c, (w - {e.key})[b.key := (t, i)], Some(e.key))
  {
    var i := h.Hash(b.key, t);
    var e := At(s1, s2, t, i).value;
    var (n1, n2) := Store(s1, s2, t, i, Some(b));
    var w' := (w - {e.key})[b.key := (t, i)];
    assert SlotOk(h, s1, s2, c, w, t, i);
    forall t', i' | (t' == 1 || t' == 2) && 0 <= i' < h.len
      ensures SlotOk(h, n1, n2, c, w', t', i')
    {
      assert SlotOk(h, s1, s2, c, w, t', i');
    }
    forall k | k in w' || k in c ensures KeyOk(h, n1, n2, c, w', Some(e.key), k) {
      assert KeyOk(h, s1, s2, c, w, Some(b.key), k);
    }
  }

  /** remove: the bucket of k becomes a tombstone and k leaves c. */
  lemma InvRemove<K, V>(h: Hasher<K>, s1: seq<Option<Bucket<K, V>>>, s2: seq<Option<Bucket<K, V>>>,
                        c: map<K, V>, w: map<K, (int, int)>, k: K, t: int)
    requires Inv(h, s1, s2, c, w, None)
    requires (t == 1 || t == 2) && LiveIn(h, s1, s2, k, t)
    ensures var i := h.Hash(k, t);
      var (n1, n2) := Store(s1, s2, t, i, Some(At(s1, s2, t, i).value.(deleted := true)));
      k in c && Inv(h, n1, n2, c - {k}, w - {k}, None)
  {
    var i := h.Hash(k, t);
    var (n1, n2) := Store(s1, s2, t, i, Some(At(s1, s2, t, i).value.(deleted := true)));
    assert SlotOk(h, s1, s2, c, w, t, i);
    forall t', i' | (t' == 1 || t' == 2) && 0 <= i' < h.len
      ensures SlotOk(h, n1, n2, c - {k}, w - {k}, t', i')
    {
      assert SlotOk(h, s1, s2, c, w, t', i');
    }
    forall k' | k' in w - {k} || k' in c - {k} ensures KeyOk(h, n1, n2, c - {k}, w - {k}, None, k') {
      assert KeyOk(h, s1, s2, c, w, None, k');
    }
  }

  /** The map m after re-putting slot x, if x holds a live bucket. */
  function Reput<K, V>(m: map<K, V>, x: Option<Bucket<K, V>>): map<K, V>
  {
    if Live(x) then m[x.value.key := x.value.value] else m
  }

  /** The map formed by the live buckets of s1[..n] and s2[..n], in the order regrow re-puts them. */
  function LiveEntries<K, V>(s1: seq<Option<Bucket<K, V>>>, s2: seq<Option<Bucket<K, V>>>, n: nat): map<K, V>
    requires n <= |s1| && n <= |s2|
  {
    if n == 0 then map[] else Reput(Reput(LiveEntries(s1, s2, n - 1), s1[n - 1]), s2[n - 1])
  }

  /**
   * Every entry regrow re-puts agrees with c, and a key is re-put exactly when
   * some live bucket among the first n slots of either table holds it.
   */
  lemma {:induction false} LiveEntriesSpec<K, V>(s1: seq<Option<Bucket<K, V>>>, s2: seq<Option<Bucket<K, V>>>, n: nat, c: map<K, V>)
    requires n <= |s1| && n <= |s2|
    requires forall i :: 0 <= i < n && Live(s1[i]) ==> s1[i].value.key in c && c[s1[i].value.key] == s1[i].value.value
    requires forall i :: 0 <= i < n && Live(s2[i]) ==> s2[i].value.key in c && c[s2[i].value.key] == s2[i].value.value
    ensures forall k :: k in LiveEntries(s1, s2, n) ==> k in c && LiveEntries(s1, s2, n)[k] == c[k]
    ensures forall k :: k in LiveEntries(s1, s2, n) <==>
      exists i :: 0 <= i < n && ((Live(s1[i]) && s1[i].value.key == k) || (Live(s2[i]) && s2[i].value.key == k))
  {
    if n > 0 {
      LiveEntriesSpec(s1, s2, n - 1, c);
    }
  }

  /** regrow re-puts exactly the entries of the map, less the evicted key. */
  lemma TablesHoldContents<K, V>(h: Hasher<K>, s1: seq<Option<Bucket<K, V>>>, s2: seq<Option<Bucket<K, V>>>,
                                 c: map<K, V>, w: map<K, (int, int)>, fl: Option<K>)
    requires Inv(h, s1, s2, c, w, fl)
    ensures LiveEntries(s1, s2, h.len) == if fl.Some? then c - {fl.value} else c
  {
    var n := h.len;
    forall i | 0 <= i < n
      ensures Live(s1[i]) ==> s1[i].value.key in c && c[s1[i].value.key] == s1[i].value.value
      ensures Live(s2[i]) ==> s2[i].value.key in c && c[s2[i].value.key] == s2[i].value.value
    {
      assert SlotOk(h, s1, s2, c, w, 1, i);
      assert SlotOk(h, s1, s2, c, w, 2, i);
    }
    LiveEntriesSpec(s1, s2, n, c);
    var le := LiveEntries(s1, s2, n);
    var want := if fl.Some? then c - {fl.value} else c;
    forall k | k in want
      ensures k in le
    {
      assert KeyOk(h, s1, s2, c, w, fl, k);
      var i := w[k].1;
      assert w[k].0 == 1 ==> Live(s1[i]) && s1[i].value.key == k;
      assert w[k].0 != 1 ==> Live(s2[i]) && s2[i].value.key == k;
    }
    forall k | k in le
      ensures k in want
    {
      var i :| 0 <= i < n && ((Live(s1[i]) && s1[i].value.key == k) || (Live(s2[i]) && s2[i].value.key == k));
      assert SlotOk(h, s1, s2, c, w, 1, i);
      assert SlotOk(h, s1, s2, c, w, 2, i);
    }
    assert le == want;
  }
}
