/**
 * HopScotchHashMap's operations exactly as written, as functions from one
 * table value to the next: the same scans, the same order of tests, the same
 * regrow points and the same exceptions. The lemmas at the end exhibit the
 * inputs on which these depart from the map behaviour that the class
 * Hopscotch.HopScotchHashMap proves for the corrected operations.
 */
module HopscotchAsWritten {
  import opened Common
  import opened Mad
  import opened HopscotchTables

  /** The fields of a HopScotchHashMap; draws counts the values taken from the shared Random. */
  datatype Table<K, V> = Table(spine: seq<Option<Bucket<K, V>>>, count: int, a1: int, b1: int, p: int, draws: nat)

  /** What the map reads from outside: the keys' hashCode and the successive results of the Random. */
  datatype Env<!K> = Env(hashCode: K -> int, rand: nat -> nat)

  function H<K, V>(e: Env<K>, t: Table<K, V>): Hasher<K>
  {
    Hasher(e.hashCode, t.a1, t.b1, t.p, |t.spine|)
  }

  /** The table length and the MAD parameters are as the constructor, regrow and clear leave them. */
  predicate Shape<K, V>(e: Env<K>, t: Table<K, V>)
  {
    |t.spine| <= t.p <= LastPrime && DefaultSize < t.p &&
    (|t.spine| == t.p ==> t.p == LastPrime) && H(e, t).Ok()
  }

  /**
   * The loop of get and getKey from slot i: slot i is read before i is
   * compared with searchPos + 4, so a window that runs past the end of the
   * table throws; a bucket with the key matches whether or not it is deleted.
   */
  function ScanAsWritten<K(==), V>(t: Table<K, V>, k: K, searchPos: int, i: int): (r: Outcome<int>)
    requires 0 <= searchPos <= i <= searchPos + NeighSize
    ensures r.Ok? ==> (r.value == -1 ||
      (i <= r.value < searchPos + NeighSize && r.value < |t.spine| && t.spine[r.value].Some? && t.spine[r.value].value.key == k))
    decreases searchPos + NeighSize - i
  {
    if i >= |t.spine| then Thrown(IndexOutOfBounds)
    else if t.spine[i].None? || i == searchPos + NeighSize then Ok(-1)
    else if t.spine[i].value.key == k then Ok(i)
    else ScanAsWritten(t, k, searchPos, i + 1)
  }

  /** getKey(k) */
  function GetKeyAsWritten<K(==), V>(e: Env<K>, t: Table<K, V>, k: K): Outcome<int>
    requires Shape(e, t)
  {
    var searchPos := H(e, t).Hash(k);
    ScanAsWritten(t, k, searchPos, searchPos)
  }

  /** get(k): the loop of getKey; a deleted match gives null. */
  function GetAsWritten<K(==), V>(e: Env<K>, t: Table<K, V>, k: K): (r: Outcome<Option<V>>)
    requires Shape(e, t)
    ensures r.Thrown? <==> GetKeyAsWritten(e, t, k).Thrown?
    ensures r.Ok? && r.value.Some? ==> exists i :: 0 <= i < |t.spine| && Live(t.spine[i]) && t.spine[i].value.key == k
  {
    match GetKeyAsWritten(e, t, k)
    case Thrown(f) => Thrown(f)
    case Ok(i) =>
      if i == -1 then Ok(None)
      else
        var b := t.spine[i].value;
        Ok(if b.deleted then None else Some(b.value))
  }

  /** containsKey(k) */
  function ContainsKeyAsWritten<K(==), V>(e: Env<K>, t: Table<K, V>, k: K): (r: Outcome<bool>)
    requires Shape(e, t)
    ensures r.Ok? <==> GetKeyAsWritten(e, t, k).Ok?
  {
    match GetKeyAsWritten(e, t, k)
    case Thrown(f) => Thrown(f)
    case Ok(i) => Ok(i != -1)
  }

  /** remove(k): marks the bucket getKey found deleted, decrements count and returns the bucket's value. */
  function RemoveAsWritten<K(==), V>(e: Env<K>, t: Table<K, V>, k: K): (r: Outcome<(Table<K, V>, Option<V>)>)
    requires Shape(e, t)
    ensures r.Ok? ==> Shape(e, r.value.0) && |r.value.0.spine| == |t.spine|
  {
    match GetKeyAsWritten(e, t, k)
    case Thrown(f) => Thrown(f)
    case Ok(pos) =>
      if pos >= 0 then
        var b := t.spine[pos].value;
        Ok((t.(spine := t.spine[pos := Some(b.(deleted := true))], count := t.count - 1), Some(b.value)))
      else Ok((t, None))
  }

  /**
   * put(k, v): regrows first when count / length > 0.9 (exact for these
   * table lengths), then places k by the home, findOpen and
   * openBucketInNeigh branches.
   */
  function PutAsWritten<K(==), V>(e: Env<K>, t: Table<K, V>, k: K, v: V): (r: Outcome<(Table<K, V>, Option<V>)>)
    requires Shape(e, t)
    ensures r.Ok? ==> Shape(e, r.value.0) && |r.value.0.spine| >= |t.spine|
    decreases LastPrime - |t.spine|, 4
  {
    if 10 * t.count > 9 * |t.spine| then
      match RegrowAsWritten(e, t)
      case Thrown(f) => Thrown(f)
      case Ok(t') => PlaceAsWritten(e, t', k, v)
    else PlaceAsWritten(e, t, k, v)
  }

  /**
   * The body of put after the load test. A null, deleted or equal-keyed home
   * takes the new bucket at once; otherwise the slot findOpen gives is used,
   * after hops when it lies outside the window. The new bucket's base is the
   * home computed here, even when findOpen has regrown the table since.
   */
  function PlaceAsWritten<K(==), V>(e: Env<K>, t: Table<K, V>, k: K, v: V): (r: Outcome<(Table<K, V>, Option<V>)>)
    requires Shape(e, t)
    ensures r.Ok? ==> Shape(e, r.value.0) && |r.value.0.spine| >= |t.spine|
    decreases LastPrime - |t.spine|, 3
  {
    var pos := H(e, t).Hash(k);
    var newBucket := Bucket(k, v, false, pos);
    var home := t.spine[pos];
    if home.None? || home.value.deleted || home.value.key == k then
      var increment := !Live(home);
      var result := if home.None? then None else Some(home.value.value);
      Ok((t.(spine := t.spine[pos := Some(newBucket)], count := if increment then t.count + 1 else t.count), result))
    else
      match FindOpenThenRetry(e, t, k, pos)
      case Thrown(f) => Thrown(f)
      case Ok((t2, firstOpen)) =>
        if firstOpen < 0 then
          Ok((t2.(spine := t2.spine[-firstOpen := Some(newBucket)]), Some(t2.spine[-firstOpen].value.value)))
        else if firstOpen < pos + NeighSize then
          Ok((t2.(spine := t2.spine[firstOpen := Some(newBucket)], count := t2.count + 1), None))
        else
          match OpenBucketAsWritten(e, t2, pos, firstOpen, |t2.spine|)
          case Thrown(f) => Thrown(f)
          case Ok((t3, newPos)) =>
            if newPos == MinValue then PutAsWritten(e, t3, k, v)
            else Ok((t3.(spine := t3.spine[newPos := Some(newBucket)], count := t3.count + 1), None))
  }

  /** findOpen(pos, k), and while that reports a regrow, findOpen(pos - 1, k) on the new table. */
  function FindOpenThenRetry<K(==), V>(e: Env<K>, t: Table<K, V>, k: K, pos: int): (r: Outcome<(Table<K, V>, int)>)
    requires Shape(e, t) && 0 <= pos < |t.spine|
    ensures r.Ok? ==> OpenFound(e, t, r.value.0, r.value.1)
    decreases LastPrime - |t.spine|, 2
  {
    match FindOpenAsWritten(e, t, k, pos)
    case Thrown(f) => Thrown(f)
    case Ok((t', i)) => if i == MinValue then RetryFindOpen(e, t', k, pos) else Ok((t', i))
  }

  /** The loop after a regrow: findOpen(pos - 1, k) until it does not regrow again. */
  function RetryFindOpen<K(==), V>(e: Env<K>, t: Table<K, V>, k: K, pos: int): (r: Outcome<(Table<K, V>, int)>)
    requires Shape(e, t) && 0 <= pos < |t.spine|
    ensures r.Ok? ==> OpenFound(e, t, r.value.0, r.value.1)
    decreases LastPrime - |t.spine|, 2
  {
    match FindOpenAsWritten(e, t, k, pos - 1)
    case Thrown(f) => Thrown(f)
    case Ok((t', i)) => if i == MinValue then RetryFindOpen(e, t', k, pos) else Ok((t', i))
  }

  /** What put relies on in findOpen's answer i about table t', reached from t. */
  predicate OpenFound<K(==), V>(e: Env<K>, t: Table<K, V>, t': Table<K, V>, i: int)
  {
    Shape(e, t') && |t'.spine| >= |t.spine| && -|t'.spine| < i < |t'.spine| &&
    (i < 0 ==> t'.spine[-i].Some?)
  }

  /**
   * findOpen(i, k): the first slot after i that is null, holds a bucket with
   * key k (returned negated, deleted or not), or holds a deleted bucket.
   * Running off the end regrows the table and gives Integer.MIN_VALUE.
   */
  function FindOpenAsWritten<K(==), V>(e: Env<K>, t: Table<K, V>, k: K, i: int): (r: Outcome<(Table<K, V>, int)>)
    requires Shape(e, t) && -1 <= i < |t.spine|
    ensures r.Ok? ==> Shape(e, r.value.0)
    ensures r.Ok? && r.value.1 == MinValue ==> |r.value.0.spine| > |t.spine|
    ensures r.Ok? && r.value.1 != MinValue ==> r.value.0 == t && OpenFound(e, t, t, r.value.1)
    decreases LastPrime - |t.spine|, 1, |t.spine| - i
  {
    var i := i + 1;
    if i >= |t.spine| then
      match RegrowAsWritten(e, t)
      case Thrown(f) => Thrown(f)
      case Ok(t') => Ok((t', MinValue))
    else if t.spine[i].None? then Ok((t, i))
    else if t.spine[i].value.key == k then Ok((t, -i))
    else if t.spine[i].value.deleted then Ok((t, i))
    else FindOpenAsWritten(e, t, k, i)
  }

  /**
   * The candidate loop of openBucketInNeigh from slot j: the first bucket
   * whose base is within three slots of cur, or None on reaching a null slot.
   */
  function CandidateAsWritten<K, V>(t: Table<K, V>, cur: int, j: int): (r: Outcome<Option<int>>)
    requires 0 <= j
    ensures r.Ok? && r.value.Some? ==> j <= r.value.value < |t.spine| && t.spine[r.value.value].Some?
    decreases |t.spine| - j
  {
    if j >= |t.spine| then Thrown(IndexOutOfBounds)
    else if t.spine[j].None? then Ok(None)
    else if cur - t.spine[j].value.base < NeighSize then Ok(Some(j))
    else CandidateAsWritten(t, cur, j + 1)
  }

  /**
   * openBucketInNeigh(neighStart, cur): one hop of the open slot cur back to
   * the candidate's slot, then another while the open slot is more than four
   * slots past neighStart. A null candidate regrows the table and gives
   * Integer.MIN_VALUE. The hops are bounded by fuel (Diverges when it runs
   * out), which callers set to the table length.
   */
  function OpenBucketAsWritten<K(==), V>(e: Env<K>, t: Table<K, V>, neighStart: int, cur: int, fuel: nat): (r: Outcome<(Table<K, V>, int)>)
    requires Shape(e, t) && 0 <= neighStart && neighStart + NeighSize <= cur < |t.spine|
    ensures r.Ok? ==> Shape(e, r.value.0)
    ensures r.Ok? && r.value.1 == MinValue ==> |r.value.0.spine| > |t.spine|
    ensures r.Ok? && r.value.1 != MinValue ==> |r.value.0.spine| == |t.spine| && 0 <= r.value.1 < |t.spine|
    decreases LastPrime - |t.spine|, 1, fuel
  {
    match CandidateAsWritten(t, cur, cur - NeighSize + 1)
    case Thrown(f) => Thrown(f)
    case Ok(None) =>
      (match RegrowAsWritten(e, t)
       case Thrown(f) => Thrown(f)
       case Ok(t') => Ok((t', MinValue)))
    case Ok(Some(j)) =>
      var t' := t.(spine := t.spine[cur := t.spine[j]][j := None]);
      if j - neighStart > NeighSize then
        if fuel == 0 then Thrown(Diverges) else OpenBucketAsWritten(e, t', neighStart, j, fuel - 1)
      else Ok((t', j))
  }

  /**
   * regrow(): a table of length p and count 0, then redrawMAD() (a
   * NullPointerException when no listed prime exceeds p), then put for every
   * non-null, non-deleted bucket of the old table.
   */
  function RegrowAsWritten<K(==), V>(e: Env<K>, t: Table<K, V>): (r: Outcome<Table<K, V>>)
    requires Shape(e, t)
    ensures r.Ok? ==> Shape(e, r.value) && |r.value.spine| > |t.spine|
    decreases LastPrime - |t.spine|, 0
  {
    match Ceiling(t.p + 1)
    case None => Thrown(NullPointer)
    case Some(p') =>
      var grown := Table(EmptyTable(t.p), 0, e.rand(t.draws) % (p' - 1) + 1, e.rand(t.draws + 1) % p', p', t.draws + 2);
      ReputAsWritten(e, grown, t.spine, 0)
  }

  /** regrow's loop from slot i of the old table s. */
  function ReputAsWritten<K(==), V>(e: Env<K>, t: Table<K, V>, s: seq<Option<Bucket<K, V>>>, i: nat): (r: Outcome<Table<K, V>>)
    requires Shape(e, t) && i <= |s|
    ensures r.Ok? ==> Shape(e, r.value) && |r.value.spine| >= |t.spine|
    decreases LastPrime - |t.spine|, 5, |s| - i
  {
    if i == |s| then Ok(t)
    else if Live(s[i]) then
      match PutAsWritten(e, t, s[i].value.key, s[i].value.value)
      case Thrown(f) => Thrown(f)
      case Ok(put) => ReputAsWritten(e, put.0, s, i + 1)
    else ReputAsWritten(e, t, s, i + 1)
  }

  // Lookups that match tombstones

  /** Two tables whose slots agree in everything the scans look at: null or not, and the key. */
  ghost predicate SameKeys<K, V>(s: seq<Option<Bucket<K, V>>>, s': seq<Option<Bucket<K, V>>>)
  {
    |s| == |s'| &&
    forall i :: 0 <= i < |s| ==> s[i].None? == s'[i].None? && (s[i].Some? ==> s[i].value.key == s'[i].value.key)
  }

  /** The scan of get and getKey never reads a deleted flag. */
  lemma {:induction false} ScanIgnoresDeleted<K, V>(t: Table<K, V>, t': Table<K, V>, k: K, searchPos: int, i: int)
    requires SameKeys(t.spine, t'.spine) && 0 <= searchPos <= i <= searchPos + NeighSize
    ensures ScanAsWritten(t, k, searchPos, i) == ScanAsWritten(t', k, searchPos, i)
    decreases searchPos + NeighSize - i
  {
    if i < |t.spine| && t.spine[i].Some? && i != searchPos + NeighSize && t.spine[i].value.key != k {
      ScanIgnoresDeleted(t, t', k, searchPos, i + 1);
    }
  }

  /**
   * remove as written on a present key, then again: the tombstone still
   * matches getKey, so containsKey stays true while get gives null, and the
   * second remove returns the same value and decrements count a second time.
   */
  lemma RemoveTwiceAsWritten<K, V>(e: Env<K>, t: Table<K, V>, k: K)
    requires Shape(e, t) && GetKeyAsWritten(e, t, k).Ok? && GetKeyAsWritten(e, t, k).value >= 0
    ensures var r1 := RemoveAsWritten(e, t, k);
      r1.Ok? && r1.value.1.Some? &&
      ContainsKeyAsWritten(e, r1.value.0, k) == Ok(true) && GetAsWritten(e, r1.value.0, k) == Ok(None) &&
      var r2 := RemoveAsWritten(e, r1.value.0, k);
      r2.Ok? && r2.value.1 == r1.value.1 && r2.value.0.count == t.count - 2
  {
    var pos := GetKeyAsWritten(e, t, k).value;
    var b := t.spine[pos].value;
    var t1 := t.(spine := t.spine[pos := Some(b.(deleted := true))], count := t.count - 1);
    assert H(e, t1) == H(e, t);
    var home := H(e, t).Hash(k);
    ScanIgnoresDeleted(t, t1, k, home, home);
    assert GetKeyAsWritten(e, t1, k) == Ok(pos);
  }

  // A window that runs past the end of the table

  /** The scan reads one slot past the end when the window does and holds no bucket with the key before it. */
  lemma {:induction false} ScanRunsOffEnd<K, V>(t: Table<K, V>, k: K, searchPos: int, i: int)
    requires 0 <= searchPos <= i <= |t.spine| <= searchPos + NeighSize
    requires forall j :: i <= j < |t.spine| ==> t.spine[j].Some? && t.spine[j].value.key != k
    ensures ScanAsWritten(t, k, searchPos, i) == Thrown(IndexOutOfBounds)
    decreases |t.spine| - i
  {
    if i < |t.spine| {
      ScanRunsOffEnd(t, k, searchPos, i + 1);
    }
  }

  /**
   * get and containsKey as written throw ArrayIndexOutOfBoundsException for a
   * missing key whose home is within three slots of the end of the table when
   * every slot from the home to the end holds a bucket.
   */
  lemma GetRunsOffEnd<K, V>(e: Env<K>, t: Table<K, V>, k: K)
    requires Shape(e, t)
    requires |t.spine| <= H(e, t).Hash(k) + NeighSize
    requires forall j :: H(e, t).Hash(k) <= j < |t.spine| ==> t.spine[j].Some? && t.spine[j].value.key != k
    ensures GetAsWritten(e, t, k) == Thrown(IndexOutOfBounds)
    ensures ContainsKeyAsWritten(e, t, k) == Thrown(IndexOutOfBounds)
  {
    var home := H(e, t).Hash(k);
    ScanRunsOffEnd(t, k, home, home);
  }
}
