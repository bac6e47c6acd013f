/**
 * Hopscotch hashing (HopScotchHash HopScotchHashMap): one table of buckets,
 * each key kept within the four slots that start at its home, insertion by
 * hopping buckets towards the key's window, and a regrow to the next listed
 * prime when the load passes 0.9 or no open slot can be found.
 *
 * The operations here are the evidently intended ones: lookups skip
 * tombstones and stop at the end of the table, put first looks for a live copy
 * of its key, the hop loop stops once the gap is inside the window, and put
 * starts over after a regrow. The module HopscotchAsWritten follows the source
 * line by line and shows where it departs from these.
 */
module Hopscotch {
  import opened Common
  import opened Mad
  import opened HopscotchTables

  class HopScotchHashMap<K(==), V> {
    /** The hashCode of the key type. */
    const hashCode: K -> int
    /** The successive results of the shared java.util.Random, before reduction by nextInt's bound. */
    const rand: nat -> nat
    /** How many values have been drawn from rand so far. */
    var draws: nat

    var count: int
    var a1: int
    var b1: int
    var p: int
    var spine: seq<Option<Bucket<K, V>>>

    ghost var Contents: map<K, V>
    /** The slot of every live key. */
    ghost var Where: map<K, int>

    function H(): Hasher<K>
      reads this
    {
      Hasher(hashCode, a1, b1, p, |spine|)
    }

    /** Table length and MAD parameter ranges. */
    ghost predicate Shape()
      reads this
    {
      |spine| <= p <= LastPrime && DefaultSize < p &&
      (|spine| == p ==> p == LastPrime) && H().Ok()
    }

    /** The representation invariant, with the slot `hole` a gap left by a hop (-1 for none). */
    ghost predicate Holed(hole: int)
      reads this
    {
      Shape() && Inv(H(), spine, Contents, Where, hole) && count == |Contents|
    }

    ghost predicate Valid()
      reads this
    {
      Holed(-1)
    }

    /** The value the abstract map holds for k, or null. */
    ghost function Lookup(k: K): Option<V>
      reads this
    {
      if k in Contents then Some(Contents[k]) else None
    }

    /** hash(k) % spine.length: the home slot of k. */
    function Hash(k: K): (r: int)
      requires Shape()
      reads this
      ensures 0 <= r < |spine|
    {
      H().Hash(k)
    }

    constructor (hashCode: K -> int, rand: nat -> nat)
      ensures Valid() && Contents == map[]
      ensures |spine| == DefaultSize && count == 0 && p == 23
      ensures this.hashCode == hashCode && this.rand == rand && draws == 2
    {
      this.hashCode, this.rand := hashCode, rand;
      draws := 0;
      new;
      var drawn := RedrawMad(DefaultSize);
      assert drawn;
      Reset(DefaultSize);
    }

    /** size() */
    method Size() returns (n: int)
      requires Valid()
      ensures n == count && n == |Contents|
    {
      n := count;
    }

    /** isEmpty() */
    method IsEmpty() returns (e: bool)
      requires Valid()
      ensures e <==> Contents == map[]
    {
      e := count == 0;
    }

    /**
     * get(k): scans k's window from its home, stopping at a null slot or at
     * the end of the table, and passing over tombstones.
     */
    method Get(k: K) returns (r: Option<V>)
      requires Valid()
      ensures r == Lookup(k)
    {
      var searchPos := Hash(k);
      var i := searchPos;
      Located(H(), spine, Contents, Where, k);
      while true
        invariant searchPos <= i <= searchPos + NeighSize
        invariant FindFrom(spine, k, searchPos, i) == FindFrom(spine, k, searchPos, searchPos)
        decreases searchPos + NeighSize - i
      {
        if i >= |spine| || spine[i].None? || i == searchPos + NeighSize {
          return None;
        }
        if spine[i].value.key == k && !spine[i].value.deleted {
          return Some(spine[i].value.value);
        }
        i := i + 1;
      }
    }

    /** getKey(k): the slot of k's live bucket, or -1. */
    method GetKey(k: K) returns (i: int)
      requires Valid()
      ensures k in Contents <==> i >= 0
      ensures k !in Contents ==> i == -1
      ensures k in Contents ==> k in Where && i == Where[k]
      ensures i >= 0 ==> i < |spine| && Live(spine[i]) && spine[i].value.key == k && spine[i].value.value == Contents[k]
    {
      var searchPos := Hash(k);
      i := searchPos;
      Located(H(), spine, Contents, Where, k);
      while true
        invariant searchPos <= i <= searchPos + NeighSize
        invariant FindFrom(spine, k, searchPos, i) == FindFrom(spine, k, searchPos, searchPos)
        decreases searchPos + NeighSize - i
      {
        if i >= |spine| || spine[i].None? || i == searchPos + NeighSize {
          return -1;
        }
        if spine[i].value.key == k && !spine[i].value.deleted {
          return i;
        }
        i := i + 1;
      }
    }

    /** containsKey(k) */
    method ContainsKey(k: K) returns (b: bool)
      requires Valid()
      ensures b <==> k in Contents
    {
      var i := GetKey(k);
      b := i != -1;
    }

    /** remove(k): tombstones k's live bucket, counts one entry fewer and returns its value. */
    method Remove(k: K) returns (r: Option<V>)
      requires Valid()
      modifies this`spine, this`count, this`Contents, this`Where
      ensures Valid() && |spine| == old(|spine|)
      ensures r == old(Lookup(k))
      ensures Contents == old(Contents) - {k}
      ensures count == old(count) - (if r.Some? then 1 else 0)
    {
      var pos := GetKey(k);
      if pos >= 0 {
        InvTombstone(H(), spine, Contents, Where, k);
        spine := spine[pos := Some(spine[pos].value.(deleted := true))];
        count := count - 1;
        r := Some(spine[pos].value.value);
        Contents, Where := Contents - {k}, Where - {k};
      } else {
        r := None;
      }
    }

    /** clear(): a fresh default-size table and a zero count; the MAD parameters are not redrawn. */
    method Clear()
      requires Valid()
      modifies this
      ensures Valid() && Contents == map[]
      ensures |spine| == DefaultSize && count == 0
      ensures p == old(p) && a1 == old(a1) && b1 == old(b1) && draws == old(draws)
    {
      Reset(DefaultSize);
    }

    /** An empty table of length n and a zero count, under the current MAD parameters. */
    method Reset(n: int)
      requires 0 < n <= p <= LastPrime && DefaultSize < p && (n == p ==> p == LastPrime)
      requires 1 <= a1 < p && 0 <= b1 < p
      modifies this`spine, this`count, this`Contents, this`Where
      ensures Valid() && Contents == map[]
      ensures |spine| == n && count == 0
    {
      spine := EmptyTable(n);
      count := 0;
      Contents, Where := map[], map[];
      InvEmpty<K, V>(H());
    }

    /**
     * redrawMAD() for a table of length n: p becomes the least listed prime
     * above n; fails (a NullPointerException in the source, unboxing the
     * missing ceiling) when there is none.
     */
    method RedrawMad(n: int) returns (ok: bool)
      modifies this`p, this`a1, this`b1, this`draws
      ensures ok <==> n < LastPrime
      ensures ok ==> Ceiling(n + 1) == Some(p) && n < p <= LastPrime
      ensures ok ==> 1 <= a1 < p && 0 <= b1 < p && draws == old(draws) + 2
      ensures ok ==> a1 == rand(old(draws)) % (p - 1) + 1 && b1 == rand(old(draws) + 1) % p
      ensures !ok ==> p == old(p) && a1 == old(a1) && b1 == old(b1) && draws == old(draws)
    {
      var c := Ceiling(n + 1);
      if c.None? {
        return false;
      }
      p := c.value;
      a1 := rand(draws) % (p - 1) + 1;
      b1 := rand(draws + 1) % p;
      draws := draws + 2;
      ok := true;
    }

    /**
     * regrow(): a new table of length p, the count reset, the parameters
     * redrawn, and every live bucket of the old table re-put. The slot `hole`
     * is the gap of a hop under way, which holds nothing to re-put.
     */
    method Regrow(ghost hole: int) returns (ok: bool)
      requires Holed(hole)
      modifies this
      decreases LastPrime - |spine|, 0
      ensures Valid()
      ensures |spine| > old(|spine|) || (!ok && |spine| == LastPrime)
      ensures ok ==> Contents == old(Contents)
      ensures !ok ==> Contents == map[] && |spine| == LastPrime
    {
      var old0 := spine;
      TablesHoldContents(H(), old0, Contents, Where, hole);
      var n := p;
      ok := RedrawMad(n);
      Reset(n);
      if !ok {
        return;
      }
      ok := ReputAll(old0);
    }

    /** The loop of regrow: re-puts every live bucket of the old table s into the empty new one. */
    method ReputAll(s: seq<Option<Bucket<K, V>>>) returns (ok: bool)
      requires |s| < |spine|
      requires Valid() && Contents == map[]
      modifies this
      decreases LastPrime - |spine|, 4
      ensures Valid() && |s| < |spine|
      ensures ok ==> Contents == LiveEntries(s, |s|)
      ensures !ok ==> Contents == map[] && |spine| == LastPrime
    {
      var i := 0;
      while i < |s|
        invariant 0 <= i <= |s| < |spine| && old(|spine|) <= |spine|
        invariant Valid()
        invariant Contents == LiveEntries(s, i)
      {
        if Live(s[i]) {
          var _, ok' := Put(s[i].value.key, s[i].value.value);
          if !ok' {
            return false;
          }
        }
        i := i + 1;
      }
      ok := true;
    }

    /** put's load test, count / length > 0.9, exact for these table lengths. */
    predicate Crowded()
      reads this
    {
      10 * count > 9 * |spine|
    }

    /** A new key k goes into slot i of its window, which the caller has opened. */
    method PlaceNew(k: K, v: V, i: int)
      requires Holed(i) && k !in Contents
      requires 0 <= i < |spine| && !Live(spine[i])
      requires Hash(k) <= i < Hash(k) + NeighSize && Filled(spine, Hash(k), i, i)
      modifies this`spine, this`count, this`Contents, this`Where
      ensures Valid() && Contents == old(Contents)[k := v] && |spine| == old(|spine|)
      ensures spine[i] == Some(Bucket(k, v, false, Hash(k)))
    {
      InvPlace(H(), spine, Contents, Where, k, v, i);
      spine := spine[i := Some(Bucket(k, v, false, Hash(k)))];
      count := count + 1;
      Contents, Where := Contents[k := v], Where[k := i];
    }

    /** A live key k gets a new bucket with value v in its slot; returns the value it had. */
    method Overwrite(k: K, v: V, i: int) returns (previous: V)
      requires Valid() && k in Contents && k in Where && i == Where[k]
      modifies this`spine, this`Contents
      ensures Valid() && |spine| == old(|spine|)
      ensures previous == old(Contents)[k] && Contents == old(Contents)[k := v]
    {
      InvOverwrite(H(), spine, Contents, Where, k, v);
      Located(H(), spine, Contents, Where, k);
      previous := spine[i].value.value;
      spine := spine[i := Some(Bucket(k, v, false, Hash(k)))];
      Contents := Contents[k := v];
    }

    /**
     * findOpen(pos): the first slot after pos that is null or a tombstone.
     * Reaching the end of the table regrows it and gives Integer.MIN_VALUE.
     */
    method FindOpen(pos: int) returns (r: int, ok: bool)
      requires Valid() && 0 <= pos < |spine|
      modifies this
      decreases LastPrime - |spine|, 2
      ensures Valid()
      ensures ok && r != MinValue ==> unchanged(this) && pos < r < |spine| && !Live(spine[r])
      ensures ok && r != MinValue ==> forall j :: pos < j < r ==> Live(spine[j])
      ensures ok && r == MinValue ==> Contents == old(Contents) && |spine| > old(|spine|)
      ensures !ok ==> Contents == map[] && |spine| == LastPrime
    {
      var i := pos;
      while true
        invariant pos <= i < |spine|
        invariant forall j :: pos < j <= i ==> Live(spine[j])
        decreases |spine| - i
      {
        i := i + 1;
        if i >= |spine| {
          ok := Regrow(-1);
          return MinValue, ok;
        } else if !Live(spine[i]) {
          return i, true;
        }
      }
    }

    /**
     * One hop of openBucketInNeigh: the bucket at j moves into the gap at cur,
     * and j becomes the gap (when j is cur, the tombstone there is cleared).
     */
    method Hop(j: int, cur: int, ghost lo: int)
      requires Holed(cur) && 0 <= lo <= j <= cur < |spine| && !Live(spine[cur]) && spine[j].Some?
      requires cur - spine[j].value.base < NeighSize && Filled(spine, lo, cur, cur)
      modifies this`spine, this`Where
      ensures |spine| == old(|spine|)
      ensures Holed(j) && spine[j].None? && Filled(spine, lo, cur, j)
      ensures Contents == old(Contents) && H() == old(H())
    {
      if j == cur {
        InvClear(H(), spine, Contents, Where, cur, lo, cur);
        spine := spine[cur := None];
      } else {
        var b := spine[j].value;
        InvMove(H(), spine, Contents, Where, j, cur, lo, cur);
        spine := spine[cur := spine[j]][j := None];
        if !b.deleted {
          Where := Where[b.key := cur];
        }
      }
    }

    /**
     * openBucketInNeigh(neighStart, cur): hops the gap at cur back, one bucket
     * at a time, until it is within the window of neighStart, and returns its
     * slot. A null candidate regrows the table and gives Integer.MIN_VALUE.
     */
    method OpenBucketInNeigh(neighStart: int, cur: int) returns (r: int, ok: bool)
      requires Holed(cur) && 0 <= neighStart && neighStart + NeighSize <= cur < |spine|
      requires !Live(spine[cur]) && Filled(spine, neighStart, cur, cur)
      modifies this
      decreases LastPrime - |spine|, 1, if spine[cur].Some? then 1 else 0, cur
      ensures ok && r != MinValue ==> Holed(r) && neighStart < r < neighStart + NeighSize && r < |spine|
      ensures ok && r != MinValue ==> spine[r].None? && Filled(spine, neighStart, r, r)
      ensures ok && r != MinValue ==> Contents == old(Contents) && H() == old(H())
      ensures ok && r == MinValue ==> Valid() && Contents == old(Contents) && |spine| > old(|spine|)
      ensures !ok ==> Valid() && Contents == map[] && |spine| == LastPrime
    {
      var candidatePos := cur - NeighSize + 1;
      var candidate := spine[candidatePos];
      while candidate.Some? && cur - candidate.value.base >= NeighSize
        invariant cur - NeighSize + 1 <= candidatePos <= cur
        invariant candidate == spine[candidatePos]
        decreases cur - candidatePos
      {
        assert candidatePos < cur by {
          assert SlotOk(H(), spine, Contents, Where, cur, candidatePos);
        }
        candidatePos := candidatePos + 1;
        candidate := spine[candidatePos];
      }
      if candidate.None? {
        ok := Regrow(cur);
        return MinValue, ok;
      }
      Hop(candidatePos, cur, neighStart);
      if candidatePos - neighStart >= NeighSize {
        r, ok := OpenBucketInNeigh(neighStart, candidatePos);
      } else {
        r, ok := candidatePos, true;
      }
    }

    /** put(k, v): returns the value k had, or null. */
    method Put(k: K, v: V) returns (r: Option<V>, ok: bool)
      requires Valid()
      modifies this
      decreases LastPrime - |spine|, 3
      ensures Valid() && |spine| >= old(|spine|)
      ensures ok ==> Contents == old(Contents)[k := v] && r == old(Lookup(k))
      ensures !ok ==> Contents == map[] && |spine| == LastPrime
    {
      if Crowded() {
        ok := Regrow(-1);
        if !ok {
          return None, false;
        }
      }
      var pos := Hash(k);
      var at := GetKey(k);
      if at >= 0 {
        var previous := Overwrite(k, v, at);
        return Some(previous), true;
      }
      InvWeaken(H(), spine, Contents, Where, pos);
      if !Live(spine[pos]) {
        PlaceNew(k, v, pos);
        return None, true;
      }
      var firstOpen;
      firstOpen, ok := FindOpen(pos);
      if !ok {
        return None, false;
      } else if firstOpen == MinValue {
        r, ok := Put(k, v);
        return;
      }
      if firstOpen < pos + NeighSize {
        InvWeaken(H(), spine, Contents, Where, firstOpen);
        PlaceNew(k, v, firstOpen);
        return None, true;
      }
      InvWeaken(H(), spine, Contents, Where, firstOpen);
      var newPos;
      newPos, ok := OpenBucketInNeigh(pos, firstOpen);
      if !ok {
        return None, false;
      } else if newPos == MinValue {
        r, ok := Put(k, v);
        return;
      }
      PlaceNew(k, v, newPos);
      return None, true;
    }
  }
}
