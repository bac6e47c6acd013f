/**
 * Concrete tables on which HopScotchHashMap as written departs from a map.
 * Keys are ints that are their own hashCode, every draw of the Random is 0,
 * and the MAD parameters are a1 = 1, b1 = 0, so the home of key h in a table
 * of length n under prime p is h % p % n.
 */
module HopscotchFindings {
  import opened Common
  import opened Mad
  import opened HopscotchTables
  import opened HopscotchAsWritten

  function Ident(): Env<int>
  {
    Env(x => x, _ => 0)
  }

  /** With a1 = 1 and b1 = 0 the home of a non-negative key h is h % p % length. */
  lemma SmallHash(t: Table<int, int>, h: int)
    requires Shape(Ident(), t) && t.a1 == 1 && t.b1 == 0 && 0 <= h < 0x8000_0000
    ensures H(Ident(), t).Hash(h) == h % t.p % |t.spine|
  {
    MadIndexSmall(1, 0, t.p, h, |t.spine|);
  }

  // get reads past the end of the table

  /** Length 11 under p = 23; the only bucket, key 10, sits in the last slot, its home. */
  function Lone(): (t: Table<int, int>)
    ensures Shape(Ident(), t)
  {
    Table(EmptyTable(11)[10 := Some(Bucket(10, 100, false, 10))], 1, 1, 0, 23, 2)
  }

  /** Key 21 also has home 10, the last slot: get(21) reads slot 11 of 11 and throws. */
  lemma GetOffEndExample()
    ensures GetAsWritten(Ident(), Lone(), 21) == Thrown(IndexOutOfBounds)
    ensures ContainsKeyAsWritten(Ident(), Lone(), 21) == Thrown(IndexOutOfBounds)
  {
    SmallHash(Lone(), 21);
    GetRunsOffEnd(Ident(), Lone(), 21);
  }

  // openBucketInNeigh stops one hop short

  /** Keys 0, 11, 22 and 23 with home 0 in slots 0 to 3, key 4 at its home, slot 4; slot 5 is null. */
  function Crowd(): (t: Table<int, int>)
    ensures Shape(Ident(), t)
  {
    var s := EmptyTable(11)[0 := Some(Bucket(0, 0, false, 0))][1 := Some(Bucket(11, 1, false, 0))]
      [2 := Some(Bucket(22, 2, false, 0))][3 := Some(Bucket(23, 3, false, 0))][4 := Some(Bucket(4, 4, false, 4))];
    Table(s, 5, 1, 0, 23, 2)
  }

  /** Crowd after key 4 has hopped from slot 4 to slot 5. */
  function Hopped(): (t: Table<int, int>)
    ensures Shape(Ident(), t)
  {
    var s := Crowd().spine[5 := Some(Bucket(4, 4, false, 4))][4 := None];
    Crowd().(spine := s)
  }

  /** Hopped with key 34 put in slot 4, the fifth slot of its window. */
  function OffByOne(): (t: Table<int, int>)
    ensures Shape(Ident(), t)
  {
    Hopped().(spine := Hopped().spine[4 := Some(Bucket(34, 7, false, 0))], count := 6)
  }

  /** findOpen from home 0 passes the four keys and stops at null slot 5. */
  lemma CrowdFindOpen()
    ensures FindOpenAsWritten(Ident(), Crowd(), 34, 0) == Ok((Crowd(), 5))
  {
    var t := Crowd();
    assert FindOpenAsWritten(Ident(), t, 34, 4) == Ok((t, 5));
    assert FindOpenAsWritten(Ident(), t, 34, 3) == Ok((t, 5));
    assert FindOpenAsWritten(Ident(), t, 34, 2) == Ok((t, 5));
    assert FindOpenAsWritten(Ident(), t, 34, 1) == Ok((t, 5));
  }

  /** One hop (key 4, slot 4 to 5) leaves the open slot at 4, four past home 0, and openBucketInNeigh returns it. */
  lemma CrowdHops()
    ensures OpenBucketAsWritten(Ident(), Crowd(), 0, 5, 11) == Ok((Hopped(), 4))
  {
    var t := Crowd();
    assert CandidateAsWritten(t, 5, 4) == Ok(Some(4));
    assert CandidateAsWritten(t, 5, 3) == Ok(Some(4));
    assert CandidateAsWritten(t, 5, 2) == Ok(Some(4));
  }

  /** put(34, 7) on Crowd: findOpen gives slot 5, one hop opens slot 4, and 34 goes there with count 6. */
  lemma CrowdPut()
    ensures PutAsWritten(Ident(), Crowd(), 34, 7) == Ok((OffByOne(), None))
  {
    SmallHash(Crowd(), 34);
    CrowdFindOpen();
    CrowdHops();
  }

  /** In OffByOne the scan from home 0 stops at slot 4 without reading it. */
  lemma OffByOneMisses()
    ensures GetKeyAsWritten(Ident(), OffByOne(), 34) == Ok(-1)
  {
    var t := OffByOne();
    SmallHash(t, 34);
    assert ScanAsWritten(t, 34, 0, 3) == Ok(-1);
    assert ScanAsWritten(t, 34, 0, 1) == Ok(-1);
  }

  /**
   * put(34, 7) on Crowd puts 34 at slot 4, outside the window of its home 0,
   * where get's scan stops: get(34) then gives null and containsKey(34) false.
   */
  lemma OffByOneExample()
    ensures PutAsWritten(Ident(), Crowd(), 34, 7) == Ok((OffByOne(), None))
    ensures OffByOne().spine[4] == Some(Bucket(34, 7, false, 0))
    ensures GetAsWritten(Ident(), OffByOne(), 34) == Ok(None)
    ensures ContainsKeyAsWritten(Ident(), OffByOne(), 34) == Ok(false)
  {
    CrowdPut();
    OffByOneMisses();
  }

  // remove leaves a tombstone that getKey still matches

  /** remove(11) twice on Crowd: both calls return 11's value and count drops from 5 to 3. */
  lemma RemoveTwiceExample()
    ensures var r1 := RemoveAsWritten(Ident(), Crowd(), 11);
      r1.Ok? && r1.value.1 == Some(1) && ContainsKeyAsWritten(Ident(), r1.value.0, 11) == Ok(true) &&
      var r2 := RemoveAsWritten(Ident(), r1.value.0, 11);
      r2.Ok? && r2.value.1 == Some(1) && r2.value.0.count == 3
  {
    SmallHash(Crowd(), 11);
    assert ScanAsWritten(Crowd(), 11, 0, 0) == Ok(1);
    RemoveTwiceAsWritten(Ident(), Crowd(), 11);
  }

  // put after a regrow inside findOpen keeps the old home

  /** regrow's loop passes over slots with no live bucket. */
  lemma {:induction false} ReputSkips<K, V>(e: Env<K>, t: Table<K, V>, s: seq<Option<Bucket<K, V>>>, i: nat, j: nat)
    requires Shape(e, t) && i <= j <= |s|
    requires forall m :: i <= m < j ==> !Live(s[m])
    ensures ReputAsWritten(e, t, s, i) == ReputAsWritten(e, t, s, j)
    decreases j - i
  {
    if i < j {
      ReputSkips(e, t, s, i + 1, j);
    }
  }

  /** Lone after regrow: length 23 under p = 53 (both draws 0 give a1 = 1, b1 = 0), key 10 re-put at its home, slot 10. */
  function Moved(): (t: Table<int, int>)
    ensures Shape(Ident(), t)
  {
    Table(EmptyTable(23)[10 := Some(Bucket(10, 100, false, 10))], 1, 1, 0, 53, 4)
  }

  /** Moved with key 21 put in slot 11 under its home in Lone, slot 10. */
  function Stale(): (t: Table<int, int>)
    ensures Shape(Ident(), t)
  {
    Moved().(spine := Moved().spine[11 := Some(Bucket(21, 7, false, 10))], count := 2)
  }

  /** The table regrow of Lone allocates: length 23, count 0, and the parameters drawn for p = 53. */
  function Grown(): (t: Table<int, int>)
    ensures Shape(Ident(), t)
  {
    Table(EmptyTable(23), 0, 1, 0, 53, 4)
  }

  /** put(10, 100) on Grown goes to 10's home, slot 10. */
  lemma GrownPut()
    ensures PutAsWritten(Ident(), Grown(), 10, 100) == Ok((Moved(), None))
  {
    SmallHash(Grown(), 10);
  }

  /** regrow's loop over Lone's slots: nothing until slot 10, whose key 10 is re-put. */
  lemma LoneReput()
    ensures ReputAsWritten(Ident(), Grown(), Lone().spine, 0) == Ok(Moved())
  {
    ReputSkips(Ident(), Grown(), Lone().spine, 0, 10);
    GrownPut();
    assert ReputAsWritten(Ident(), Moved(), Lone().spine, 11) == Ok(Moved());
  }

  /** regrow of Lone: the prime after 23 is 53, and the one live bucket, key 10, is re-put. */
  lemma LoneRegrow()
    ensures RegrowAsWritten(Ident(), Lone()) == Ok(Moved())
  {
    NextPrimeAfter23();
    var e, t := Ident(), Lone();
    assert e.rand(t.draws) % 52 + 1 == 1 && e.rand(t.draws + 1) % 53 == 0;
    LoneReput();
  }

  /** redrawMAD after a regrow to length 23 takes p = 53. */
  lemma NextPrimeAfter23()
    ensures Ceiling(23 + 1) == Some(53)
  {
    assert Primes[0] == 11 && Primes[1] == 23 && Primes[2] == 53;
    assert CeilingFrom(24, 2) == Some(53);
    assert CeilingFrom(24, 1) == Some(53);
    assert CeilingFrom(24, 0) == Some(53);
  }

  /** After the regrow, findOpen(9, 21) passes key 10 and stops at null slot 11. */
  lemma MovedRetry()
    ensures RetryFindOpen(Ident(), Moved(), 21, 10) == Ok((Moved(), 11))
  {
    assert FindOpenAsWritten(Ident(), Moved(), 21, 10) == Ok((Moved(), 11));
    assert FindOpenAsWritten(Ident(), Moved(), 21, 9) == Ok((Moved(), 11));
  }

  /** put(21, 7) on Lone: findOpen runs off the end and regrows, the retry finds slot 11, below the stale home 10 + 4. */
  lemma LonePut()
    ensures PutAsWritten(Ident(), Lone(), 21, 7) == Ok((Stale(), None))
  {
    SmallHash(Lone(), 21);
    LoneRegrow();
    MovedRetry();
  }

  /** In Stale the home of 21 is slot 21, which is null. */
  lemma StaleMisses()
    ensures H(Ident(), Stale()).Hash(21) == 21
    ensures GetKeyAsWritten(Ident(), Stale(), 21) == Ok(-1)
  {
    SmallHash(Stale(), 21);
  }

  /**
   * put(21, 7) on Lone regrows the table from inside findOpen, then places 21
   * by its home in the old table: get(21) gives null and containsKey(21) false.
   */
  lemma StaleHomeExample()
    ensures PutAsWritten(Ident(), Lone(), 21, 7) == Ok((Stale(), None))
    ensures Stale().spine[11] == Some(Bucket(21, 7, false, 10)) && H(Ident(), Stale()).Hash(21) == 21
    ensures GetAsWritten(Ident(), Stale(), 21) == Ok(None)
    ensures ContainsKeyAsWritten(Ident(), Stale(), 21) == Ok(false)
  {
    LonePut();
    StaleMisses();
  }

  // put on a tombstoned home does not look for a live copy of the key

  /** Slot 0 a tombstone of key 0 (value 5), slot 1 key 11 (value 6), both with home 0. */
  function Tomb(): (t: Table<int, int>)
    ensures Shape(Ident(), t)
  {
    Table(EmptyTable(11)[0 := Some(Bucket(0, 5, true, 0))][1 := Some(Bucket(11, 6, false, 0))], 1, 1, 0, 23, 2)
  }

  /** Tomb with a second live bucket of key 11, value 7, in slot 0, and count 2. */
  function Dup(): (t: Table<int, int>)
    ensures Shape(Ident(), t)
  {
    Tomb().(spine := Tomb().spine[0 := Some(Bucket(11, 7, false, 0))], count := 2)
  }

  /** Dup after remove(11): the bucket in slot 0 deleted, count 1. */
  function DupRemoved(): (t: Table<int, int>)
    ensures Shape(Ident(), t)
  {
    Dup().(spine := Dup().spine[0 := Some(Bucket(11, 7, true, 0))], count := 1)
  }

  /** The home branch of put(11, 7) on Tomb, and the remove that follows. */
  lemma TombPut()
    ensures PutAsWritten(Ident(), Tomb(), 11, 7) == Ok((Dup(), Some(5)))
    ensures RemoveAsWritten(Ident(), Dup(), 11) == Ok((DupRemoved(), Some(7)))
  {
    SmallHash(Tomb(), 11);
    SmallHash(Dup(), 11);
  }

  /** The scan from home 0 in DupRemoved stops at the deleted bucket in slot 0. */
  lemma DupRemovedLookups()
    ensures GetAsWritten(Ident(), DupRemoved(), 11) == Ok(None)
    ensures ContainsKeyAsWritten(Ident(), DupRemoved(), 11) == Ok(true)
  {
    SmallHash(DupRemoved(), 11);
  }

  /**
   * put(11, 7) on Tomb writes over the tombstone at home 0 while 11 is live in
   * slot 1: two live buckets hold 11, count becomes 2, and put returns 5, the
   * removed key 0's value. A remove(11) then leaves get(11) null while
   * containsKey(11) is true.
   */
  lemma DuplicateExample()
    ensures PutAsWritten(Ident(), Tomb(), 11, 7) == Ok((Dup(), Some(5)))
    ensures Dup().spine[0] == Some(Bucket(11, 7, false, 0)) && Dup().spine[1] == Some(Bucket(11, 6, false, 0))
    ensures RemoveAsWritten(Ident(), Dup(), 11) == Ok((DupRemoved(), Some(7)))
    ensures GetAsWritten(Ident(), DupRemoved(), 11) == Ok(None)
    ensures ContainsKeyAsWritten(Ident(), DupRemoved(), 11) == Ok(true)
  {
    TombPut();
    DupRemovedLookups();
  }

  // findOpen stops at a tombstone of the key

  /** Slot 0 key 0 (value 5), slot 1 a tombstone of key 11 (value 6), both with home 0. */
  function TombLater(): (t: Table<int, int>)
    ensures Shape(Ident(), t)
  {
    Table(EmptyTable(11)[0 := Some(Bucket(0, 5, false, 0))][1 := Some(Bucket(11, 6, true, 0))], 1, 1, 0, 23, 2)
  }

  /** TombLater with the tombstone replaced by a live bucket of 11, value 7; count still 1. */
  function Revived(): (t: Table<int, int>)
    ensures Shape(Ident(), t)
  {
    TombLater().(spine := TombLater().spine[1 := Some(Bucket(11, 7, false, 0))])
  }

  /**
   * put(11, 7) on TombLater: findOpen matches the tombstone of 11 and put
   * treats it as a live key, so it returns the removed value 6 and leaves
   * count at 1 with two live keys.
   */
  lemma ReviveExample()
    ensures PutAsWritten(Ident(), TombLater(), 11, 7) == Ok((Revived(), Some(6)))
    ensures Live(Revived().spine[0]) && Live(Revived().spine[1]) && Revived().count == 1
  {
    SmallHash(TombLater(), 11);
    assert FindOpenAsWritten(Ident(), TombLater(), 11, 0) == Ok((TombLater(), -1));
  }
}
