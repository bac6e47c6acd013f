/**
 * Cuckoo hashing (HW5 CuckooMap): two tables of buckets, each key with exactly
 * one candidate slot per table, insertion by eviction, and a regrow to the next
 * listed prime after too many evictions in a row or when a table passes load
 * factor 1/2.
 *
 * The abstract value of the map is the ghost map Contents. Removal leaves a
 * tombstone and, as in the source, does not decrement the counters; the ghost
 * counter Removed records how many tombstones the counters still include.
 */
module Cuckoo {
  import opened Common
  import opened Mad
  import opened CuckooTables

  const DefaultSize: int := 11
  const MaxCallBeforeRegrow: int := 15

  class CuckooMap<K(==), V> {
    /** The two hash codes of the Hashable key type. */
    const hash1: K -> int
    const hash2: K -> int
    /** The successive results of the shared java.util.Random, before reduction by nextInt's bound. */
    const rand: nat -> nat
    /** How many values have been drawn from rand so far. */
    var draws: nat

    var count1: int
    var count2: int
    var a1: int
    var b1: int
    var a2: int
    var b2: int
    var p: int
    var buckets1: seq<Option<Bucket<K, V>>>
    var buckets2: seq<Option<Bucket<K, V>>>

    ghost var Contents: map<K, V>
    /** The table (1 or 2) and index of every placed key. */
    ghost var Where: map<K, (int, int)>
    /** Removals since the tables were last rebuilt; the counters still include them. */
    ghost var Removed: nat

    function H(): Hasher<K>
      reads this
    {
      Hasher(hash1, hash2, a1, b1, a2, b2, p, |buckets1|)
    }

    /** Array shapes and MAD parameter ranges. */
    ghost predicate Shape()
      reads this
    {
      |buckets1| == |buckets2| &&
      |buckets1| <= p <= LastPrime && DefaultSize < p &&
      (|buckets1| == p ==> p == LastPrime) && H().Ok()
    }

    /** The MAD parameters were drawn for the current table length. */
    ghost predicate Drawn()
      reads this
    {
      Ceiling(|buckets1| + 1) == Some(p)
    }

    /** hash(k, t) */
    function Hash(k: K, t: int): (r: int)
      requires Shape()
      reads this
      ensures 0 <= r < |buckets1|
    {
      H().Hash(k, t)
    }

    /** A live bucket with key k sits at k's candidate slot in table t. */
    ghost predicate LiveAt(k: K, t: int)
      requires Shape()
      reads this
    {
      LiveIn(H(), buckets1, buckets2, k, t)
    }

    /** The representation invariant, with fl the key of a bucket being moved between tables. */
    ghost predicate Placed(fl: Option<K>)
      reads this
    {
      Shape() && Inv(H(), buckets1, buckets2, Contents, Where, fl) &&
      count1 + count2 + (if fl.Some? then 1 else 0) == |Contents| + Removed
    }

    ghost predicate Valid()
      reads this
    {
      Placed(None)
    }

    /** The value the abstract map holds for k, or null. */
    ghost function Lookup(k: K): Option<V>
      reads this
    {
      if k in Contents then Some(Contents[k]) else None
    }

    constructor (hash1: K -> int, hash2: K -> int, rand: nat -> nat)
      ensures Valid() && Drawn() && Contents == map[] && Removed == 0
      ensures |buckets1| == DefaultSize && count1 == 0 && count2 == 0
      ensures this.hash1 == hash1 && this.hash2 == hash2 && this.rand == rand && draws == 4
    {
      this.hash1, this.hash2, this.rand := hash1, hash2, rand;
      draws := 0;
      new;
      var drawn := RedrawMad(DefaultSize);
      assert drawn;
      Reset(DefaultSize);
    }

    /** size() */
    method Size() returns (n: int)
      requires Valid()
      ensures n == count1 + count2
      ensures n == |Contents| + Removed
    {
      n := count1 + count2;
    }

    /** isEmpty() */
    method IsEmpty() returns (e: bool)
      requires Valid()
      ensures e <==> count1 + count2 == 0
      ensures e ==> Contents == map[]
    {
      var n := Size();
      e := n == 0;
    }

    /** getBucket(k): table 1's candidate slot first, then table 2's. */
    method GetBucket(k: K) returns (r: Option<Bucket<K, V>>)
      requires Valid()
      ensures LiveAt(k, 1) ==> r == buckets1[Hash(k, 1)]
      ensures !LiveAt(k, 1) && LiveAt(k, 2) ==> r == buckets2[Hash(k, 2)]
      ensures !LiveAt(k, 1) && !LiveAt(k, 2) ==> r == None
      ensures Live(r) <==> k in Contents
      ensures Live(r) ==> r.value.key == k && r.value.value == Contents[k]
    {
      Located(H(), buckets1, buckets2, Contents, Where, None, k);
      var bucket1 := buckets1[Hash(k, 1)];
      if Live(bucket1) && bucket1.value.key == k {
        return bucket1;
      }
      var bucket2 := buckets2[Hash(k, 2)];
      if Live(bucket2) && bucket2.value.key == k {
        return bucket2;
      }
      return None;
    }

    /** containsKey(k) */
    method ContainsKey(k: K) returns (b: bool)
      requires Valid()
      ensures b <==> k in Contents
      ensures b <==> LiveAt(k, 1) || LiveAt(k, 2)
    {
      var result := GetBucket(k);
      b := Live(result);
    }

    /** get(k) */
    method Get(k: K) returns (r: Option<V>)
      requires Valid()
      ensures r == Lookup(k)
      ensures r.Some? <==> LiveAt(k, 1) || LiveAt(k, 2)
    {
      var returnBucket := GetBucket(k);
      r := if Live(returnBucket) then Some(returnBucket.value.value) else None;
    }

    /**
     * redrawMAD() for tables of length n (buckets1.length, which the source
     * reads after allocating the new tables); fails (a NullPointerException in
     * the source) when no listed prime exceeds n.
     */
    method RedrawMad(n: int) returns (ok: bool)
      modifies this`p, this`a1, this`b1, this`a2, this`b2, this`draws
      ensures ok <==> n < LastPrime
      ensures ok ==> Ceiling(n + 1) == Some(p) && n < p <= LastPrime
      ensures ok ==> 1 <= a1 < p && 0 <= b1 < p && 1 <= a2 < p && 0 <= b2 < p && draws == old(draws) + 4
      ensures !ok ==> p == old(p) && a1 == old(a1) && b1 == old(b1) && a2 == old(a2) && b2 == old(b2) && draws == old(draws)
    {
      var c := Ceiling(n + 1);
      if c.None? {
        return false;
      }
      p := c.value;
      a1 := rand(draws) % (p - 1) + 1;
      b1 := rand(draws + 1) % p;
      a2 := rand(draws + 2) % (p - 1) + 1;
      b2 := rand(draws + 3) % p;
      draws := draws + 4;
      ok := true;
    }

    /**
     * regrow(): new tables of length p, counters reset, parameters redrawn, and
     * every live bucket of the old tables re-put. The evicted bucket fl, held
     * by the caller, is not in the tables and so is not re-put.
     */
    method Regrow(ghost fl: Option<K>) returns (ok: bool)
      requires Placed(fl)
      modifies this
      decreases LastPrime - |buckets1|, 0
      ensures Valid()
      ensures |buckets1| > old(|buckets1|) || (!ok && |buckets1| == LastPrime)
      ensures ok ==> Removed == 0
      ensures ok ==> Contents == if fl.Some? then old(Contents) - {fl.value} else old(Contents)
      ensures !ok ==> Contents == map[] && |buckets1| == LastPrime
    {
      var old1, old2 := buckets1, buckets2;
      TablesHoldContents(H(), old1, old2, Contents, Where, fl);
      ok := FreshTables();
      if !ok {
        return;
      }
      ok := ReputAll(old1, old2);
    }

    /** The first half of regrow: empty tables of length p, counters reset, and the MAD parameters redrawn. */
    method FreshTables() returns (ok: bool)
      requires Shape()
      modifies this
      ensures Valid() && Contents == map[] && Removed == 0 && count1 == 0 && count2 == 0
      ensures |buckets1| == old(p) && (ok <==> |buckets1| < LastPrime)
      ensures ok ==> Drawn()
    {
      var n := p;
      ok := RedrawMad(n);
      Reset(n);
    }

    /** The loop of regrow: re-puts every live bucket of the old tables s1 and s2 into the empty new ones. */
    method ReputAll(s1: seq<Option<Bucket<K, V>>>, s2: seq<Option<Bucket<K, V>>>) returns (ok: bool)
      requires |s1| == |s2| < |buckets1|
      requires Valid() && Contents == map[] && Removed == 0
      modifies this
      decreases LastPrime - |buckets1|, 4
      ensures Valid() && |s1| < |buckets1|
      ensures ok ==> Contents == LiveEntries(s1, s2, |s1|) && Removed == 0
      ensures !ok ==> Contents == map[] && |buckets1| == LastPrime
    {
      var i := 0;
      while i < |s1|
        invariant 0 <= i <= |s1| == |s2| < |buckets1| && old(|buckets1|) <= |buckets1|
        invariant Valid() && Removed == 0
        invariant Contents == LiveEntries(s1, s2, i)
      {
        ok := ReputSlot(s1, s2, i);
        if !ok {
          return;
        }
        i := i + 1;
      }
      ok := true;
    }

    /** The body of regrow's loop: re-puts the live buckets of slot i of the old tables s1 and s2. */
    method ReputSlot(s1: seq<Option<Bucket<K, V>>>, s2: seq<Option<Bucket<K, V>>>, i: nat) returns (ok: bool)
      requires i < |s1| == |s2| < |buckets1|
      requires Valid() && Contents == LiveEntries(s1, s2, i) && Removed == 0
      modifies this
      decreases LastPrime - |buckets1|, 3
      ensures Valid() && |s1| < |buckets1| && old(|buckets1|) <= |buckets1|
      ensures ok ==> Contents == LiveEntries(s1, s2, i + 1) && Removed == 0
      ensures !ok ==> Contents == map[] && |buckets1| == LastPrime
    {
      ok := true;
      if Live(s1[i]) {
        var _, ok' := Put(s1[i].value.key, s1[i].value.value);
        if !ok' {
          return false;
        }
      }
      ghost var m1 := Contents;
      if Live(s2[i]) {
        var _, ok' := Put(s2[i].value.key, s2[i].value.value);
        ok := ok';
      }
      assert ok ==> Contents == Reput(m1, s2[i]);
    }

    /** Writes x into slot i of table t. */
    method StoreSlot(t: int, i: int, x: Option<Bucket<K, V>>)
      requires (t == 1 || t == 2) && 0 <= i < |buckets1| == |buckets2|
      modifies this`buckets1, this`buckets2
      ensures (buckets1, buckets2) == Store(old(buckets1), old(buckets2), t, i, x)
    {
      if t == 1 {
        buckets1 := buckets1[i := x];
      } else {
        buckets2 := buckets2[i := x];
      }
    }

    /**
     * putBucket(b, tableToTry, callNum). When inFlight, b is an evicted bucket
     * whose key is in no table; otherwise b replaces a live bucket with the
     * same key at its candidate slot in table t.
     */
    method PutBucket(b: Bucket<K, V>, t: int, callNum: int, ghost inFlight: bool) returns (r: Option<V>, ok: bool)
      requires t == 1 || t == 2
      requires 0 <= callNum <= MaxCallBeforeRegrow + 1
      requires !b.deleted
      requires inFlight ==> Placed(Some(b.key)) && Contents[b.key] == b.value
      requires !inFlight ==> Valid() && callNum == 0 && LiveAt(b.key, t)
      modifies this
      decreases LastPrime - |buckets1|, 1, MaxCallBeforeRegrow + 1 - callNum
      ensures Valid()
      ensures |buckets1| >= old(|buckets1|)
      ensures ok && inFlight ==> Contents == old(Contents) && r == None
      ensures ok && !inFlight ==> Contents == old(Contents)[b.key := b.value] && r == old(Lookup(b.key))
      ensures !inFlight ==> ok && count1 == old(count1) && count2 == old(count2)
      ensures ok ==> Removed == old(Removed) || Removed == 0
      ensures !ok ==> Contents == map[] && |buckets1| == LastPrime
    {
      var t, callNum := t, callNum;
      if callNum > MaxCallBeforeRegrow {
        ok := Regrow(Some(b.key));
        if !ok {
          return None, false;
        }
        Located(H(), buckets1, buckets2, Contents, Where, None, b.key);
        InvFloat(H(), buckets1, buckets2, Contents, Where, b.key, b.value);
        Contents := Contents[b.key := b.value];
        assert Contents == old(Contents);
        callNum, t := 0, 1;
      }

      var index := Hash(b.key, t);
      var temp := if t == 1 then buckets1[index] else buckets2[index];
      if !Live(temp) {
        Place(b, t);
        return None, true;
      } else if temp.value.key == b.key {
        Located(H(), buckets1, buckets2, Contents, Where, if inFlight then Some(b.key) else None, b.key);
        var previous := SetValue(b, t);
        return Some(previous), true;
      } else {
        var kickedOut := Evict(b, t);
        r, ok := PutBucket(kickedOut, 2 - (t + 1) % 2, callNum + 1, true);
      }
    }

    /** putBucket's first branch: b, evicted, goes into the null or tombstoned slot at its candidate index in table t. */
    method Place(b: Bucket<K, V>, t: int)
      requires t == 1 || t == 2
      requires !b.deleted && Placed(Some(b.key)) && Contents[b.key] == b.value
      requires !Live(At(buckets1, buckets2, t, Hash(b.key, t)))
      modifies this
      ensures Valid() && Contents == old(Contents) && Removed == old(Removed) && |buckets1| == old(|buckets1|)
      ensures var i := Hash(b.key, t); At(buckets1, buckets2, t, i) == Some(b)
      ensures t == 1 ==> count1 == old(count1) + 1 && count2 == old(count2)
      ensures t == 2 ==> count2 == old(count2) + 1 && count1 == old(count1)
    {
      var index := Hash(b.key, t);
      InvStore(H(), buckets1, buckets2, Contents, Where, b, t);
      StoreSlot(t, index, Some(b));
      if t == 1 {
        count1 := count1 + 1;
      } else {
        count2 := count2 + 1;
      }
      Where := Where[b.key := (t, index)];
    }

    /** putBucket's second branch, Bucket.setValue: the live bucket of b.key in table t takes b's value; returns the value it had. */
    method SetValue(b: Bucket<K, V>, t: int) returns (previous: V)
      requires t == 1 || t == 2
      requires !b.deleted && Valid() && LiveAt(b.key, t)
      modifies this
      ensures Valid() && Removed == old(Removed) && |buckets1| == old(|buckets1|)
      ensures count1 == old(count1) && count2 == old(count2)
      ensures b.key in old(Contents) && previous == old(Contents)[b.key]
      ensures Contents == old(Contents)[b.key := b.value]
    {
      var index := Hash(b.key, t);
      var temp := if t == 1 then buckets1[index] else buckets2[index];
      Located(H(), buckets1, buckets2, Contents, Where, None, b.key);
      InvSetValue(H(), buckets1, buckets2, Contents, Where, b, t);
      StoreSlot(t, index, Some(Bucket(temp.value.key, b.value, temp.value.deleted)));
      Contents := Contents[b.key := b.value];
      previous := temp.value.value;
    }

    /** putBucket's third branch: b takes the slot of a live bucket with another key, which is returned, evicted in turn. */
    method Evict(b: Bucket<K, V>, t: int) returns (kickedOut: Bucket<K, V>)
      requires t == 1 || t == 2
      requires !b.deleted && Placed(Some(b.key)) && Contents[b.key] == b.value
      requires Live(At(buckets1, buckets2, t, Hash(b.key, t))) && At(buckets1, buckets2, t, Hash(b.key, t)).value.key != b.key
      modifies this
      ensures Placed(Some(kickedOut.key)) && !kickedOut.deleted && Contents[kickedOut.key] == kickedOut.value
      ensures Contents == old(Contents) && Removed == old(Removed) && |buckets1| == old(|buckets1|)
      ensures kickedOut == old(At(buckets1, buckets2, t, Hash(b.key, t))).value
    {
      var index := Hash(b.key, t);
      kickedOut := (if t == 1 then buckets1[index] else buckets2[index]).value;
      InvEvict(H(), buckets1, buckets2, Contents, Where, b, t);
      StoreSlot(t, index, Some(b));
      Where := (Where - {kickedOut.key})[b.key := (t, index)];
    }

    /** put's load test: (count + 1) / length > 1/2 for either table. */
    predicate Crowded()
      reads this
    {
      2 * (count1 + 1) > |buckets1| || 2 * (count2 + 1) > |buckets2|
    }

    /** put(k, v): returns the value k had, or null. */
    method Put(k: K, v: V) returns (r: Option<V>, ok: bool)
      requires Valid()
      modifies this
      decreases LastPrime - |buckets1|, 2
      ensures Valid()
      ensures |buckets1| >= old(|buckets1|)
      ensures ok ==> Contents == old(Contents)[k := v] && r == old(Lookup(k))
      ensures ok ==> Removed == old(Removed) || Removed == 0
      ensures !ok ==> Contents == map[] && |buckets1| == LastPrime
      ensures old(k in Contents && !Crowded()) ==> ok && count1 == old(count1) && count2 == old(count2)
    {
      if Crowded() {
        ok := Regrow(None);
        if !ok {
          return None, false;
        }
      }
      var newBucket := Bucket(k, v, false);
      var index1 := Hash(k, 1);
      var index2 := Hash(k, 2);
      Located(H(), buckets1, buckets2, Contents, Where, None, k);
      if Live(buckets1[index1]) && buckets1[index1].value.key == k {
        r, ok := PutBucket(newBucket, 1, 0, false);
      } else if Live(buckets2[index2]) && buckets2[index2].value.key == k {
        r, ok := PutBucket(newBucket, 2, 0, false);
      } else {
        InvFloat(H(), buckets1, buckets2, Contents, Where, k, v);
        Contents := Contents[k := v];
        r, ok := PutBucket(newBucket, 1, 0, true);
      }
    }

    /**
     * The part of remove(k) the source performs: getBucket(k), then the bucket
     * found, if live, is marked deleted. t is the table it was in, 0 if none.
     */
    method Tombstone(k: K) returns (r: Option<V>, t: int)
      requires Valid()
      modifies this`buckets1, this`buckets2, this`Contents, this`Where
      ensures Shape() && Inv(H(), buckets1, buckets2, Contents, Where, None)
      ensures r == old(Lookup(k)) && (r.Some? <==> t != 0) && 0 <= t <= 2
      ensures Contents == old(Contents) - {k}
      ensures |buckets1| == old(|buckets1|)
    {
      var index1 := Hash(k, 1);
      var index2 := Hash(k, 2);
      ghost var s1, s2 := buckets1, buckets2;
      Located(H(), s1, s2, Contents, Where, None, k);
      if Live(buckets1[index1]) && buckets1[index1].value.key == k {
        InvRemove(H(), s1, s2, Contents, Where, k, 1);
        r, t := Some(buckets1[index1].value.value), 1;
        buckets1 := buckets1[index1 := Some(buckets1[index1].value.(deleted := true))];
      } else if Live(buckets2[index2]) && buckets2[index2].value.key == k {
        InvRemove(H(), s1, s2, Contents, Where, k, 2);
        r, t := Some(buckets2[index2].value.value), 2;
        buckets2 := buckets2[index2 := Some(buckets2[index2].value.(deleted := true))];
      } else {
        return None, 0;
      }
      Contents, Where := Contents - {k}, Where - {k};
    }

    /** remove(k) as written: tombstones k's bucket and returns its value; the counters are left as they were. */
    method Remove(k: K) returns (r: Option<V>)
      requires Valid()
      modifies this`buckets1, this`buckets2, this`Contents, this`Where, this`Removed
      ensures Valid()
      ensures r == old(Lookup(k))
      ensures Contents == old(Contents) - {k}
      ensures Removed == old(Removed) + (if r.Some? then 1 else 0)
      ensures count1 == old(count1) && count2 == old(count2)
    {
      var t;
      r, t := Tombstone(k);
      if r.Some? {
        Removed := Removed + 1;
      }
    }

    /** remove(k) as evidently intended: as Remove, but the table that held k counts one bucket fewer. */
    method RemoveCounted(k: K) returns (r: Option<V>)
      requires Valid()
      modifies this`buckets1, this`buckets2, this`Contents, this`Where, this`count1, this`count2
      ensures Valid()
      ensures r == old(Lookup(k))
      ensures Contents == old(Contents) - {k}
      ensures Removed == old(Removed)
      ensures count1 + count2 == old(count1 + count2) - (if r.Some? then 1 else 0)
    {
      var t;
      r, t := Tombstone(k);
      if t == 1 {
        count1 := count1 - 1;
      } else if t == 2 {
        count2 := count2 - 1;
      }
    }

    /** clear(): fresh default-size tables and zero counters; the MAD parameters are not redrawn. */
    method Clear()
      requires Valid()
      modifies this
      ensures Valid() && Contents == map[] && Removed == 0
      ensures |buckets1| == DefaultSize
      ensures count1 == 0 && count2 == 0
      ensures p == old(p) && a1 == old(a1) && b1 == old(b1) && a2 == old(a2) && b2 == old(b2)
    {
      Reset(DefaultSize);
    }

    /** Empty tables of length n and zero counters, under the current MAD parameters. */
    method Reset(n: int)
      requires 0 < n <= p <= LastPrime && DefaultSize < p && (n == p ==> p == LastPrime)
      requires 1 <= a1 < p && 0 <= b1 < p && 1 <= a2 < p && 0 <= b2 < p
      modifies this`buckets1, this`buckets2, this`count1, this`count2, this`Contents, this`Where, this`Removed
      ensures Valid() && Contents == map[] && Removed == 0
      ensures |buckets1| == n && count1 == 0 && count2 == 0
    {
      buckets1 := EmptyTable(n);
      buckets2 := EmptyTable(n);
      count1, count2 := 0, 0;
      Contents, Where, Removed := map[], map[], 0;
      InvEmpty<K, V>(H());
    }
  }

  /**
   * remove as written: after put(k, v) and remove(k) on a new map, the map is
   * empty but size() still reports 1.
   */
  method SizeAfterRemove<K(==), V>(hash1: K -> int, hash2: K -> int, rand: nat -> nat, k: K, v: V)
    returns (ok: bool, size: int, present: bool)
    ensures ok ==> size == 1 && !present
  {
    size, present := 0, false;
    var m := new CuckooMap<K, V>(hash1, hash2, rand);
    var _, put := m.Put(k, v);
    ok := put;
    if ok {
      assert m.Contents == map[k := v] && m.Removed == 0;
      var _ := m.Remove(k);
      size := m.Size();
      present := m.ContainsKey(k);
    }
  }

  /** The same scenario with the corrected remove: size() reports 0. */
  method SizeAfterRemoveCounted<K(==), V>(hash1: K -> int, hash2: K -> int, rand: nat -> nat, k: K, v: V)
    returns (ok: bool, size: int, present: bool)
    ensures ok ==> size == 0 && !present
  {
    size, present := 0, false;
    var m := new CuckooMap<K, V>(hash1, hash2, rand);
    var _, put := m.Put(k, v);
    ok := put;
    if ok {
      assert m.Contents == map[k := v] && m.Removed == 0;
      var _ := m.RemoveCounted(k);
      size := m.Size();
      present := m.ContainsKey(k);
    }
  }
}
