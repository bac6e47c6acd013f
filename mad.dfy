/**
 * The MAD ("multiply, add, divide") hash shared by the Cuckoo map and the
 * Hopscotch map, and the ascending table of primes from which both maps draw
 * their modulus and their capacities.
 */
module Mad {
  import opened Common

  /** The prime table, in ascending order (a Java TreeSet in the source). */
  const Primes: seq<int> := [11, 23, 53, 97, 193, 389, 769, 1543, 3079, 6151,
    12289, 24593, 49157, 98317, 196613, 400009, 800011, 16000057]

  /** The largest listed prime: no table can grow beyond it. */
  const LastPrime: int := 16000057

  lemma PrimesAscending()
    ensures forall i, j :: 0 <= i < j < |Primes| ==> Primes[i] < Primes[j]
    ensures Primes[|Primes| - 1] == LastPrime
    ensures forall q :: q in Primes ==> 11 <= q <= LastPrime
  {
  }

  /** TreeSet.ceiling: the least listed prime at or above n, or null when n exceeds them all. */
  function Ceiling(n: int): (r: Option<int>)
    ensures r.Some? ==> n <= r.value && 11 <= r.value <= LastPrime
    ensures r.None? <==> LastPrime < n
  {
    PrimesAscending();
    CeilingFromFound(n, 0);
    CeilingFrom(n, 0)
  }

  /** No listed prime lies in [n, Ceiling(n)). */
  lemma CeilingIsLeast(n: int, q: int)
    requires q in Primes && n <= q
    ensures Ceiling(n).Some? && Ceiling(n).value <= q
  {
    PrimesAscending();
    CeilingFromFound(n, 0);
    var r := CeilingFrom(n, 0);
    var j :| 0 <= j < |Primes| && Primes[j] == r.value && forall j' :: 0 <= j' < j ==> Primes[j'] < n;
    var i :| 0 <= i < |Primes| && Primes[i] == q;
    assert !(i < j);
  }

  /** The search behind Ceiling, from index i of the table on. */
  function CeilingFrom(n: int, i: nat): Option<int>
    requires i <= |Primes|
    decreases |Primes| - i
  {
    if i == |Primes| then None
    else if n <= Primes[i] then Some(Primes[i])
    else CeilingFrom(n, i + 1)
  }

  /**
   * When every prime before index i is below n, the search from i finds the
   * first listed prime at or above n, or finds none when there is none.
   */
  lemma {:induction false} CeilingFromFound(n: int, i: nat)
    requires i <= |Primes|
    requires forall j :: 0 <= j < i ==> Primes[j] < n
    ensures var r := CeilingFrom(n, i);
      r.Some? ==> (exists j :: i <= j < |Primes| && Primes[j] == r.value
                               && n <= r.value && forall j' :: 0 <= j' < j ==> Primes[j'] < n)
    ensures CeilingFrom(n, i).None? ==> forall j :: 0 <= j < |Primes| ==> Primes[j] < n
    decreases |Primes| - i
  {
    if i < |Primes| && n > Primes[i] {
      CeilingFromFound(n, i + 1);
    }
  }

  /** Java int arithmetic: x reduced to 32 bits, two's complement. */
  function Wrap32(x: int): (r: int)
    ensures -0x8000_0000 <= r < 0x8000_0000
    ensures (r - x) % 0x1_0000_0000 == 0
  {
    (x + 0x8000_0000) % 0x1_0000_0000 - 0x8000_0000
  }

  /** Math.abs on an int: Integer.MIN_VALUE is its own absolute value. */
  function JavaAbs(x: int): (r: int)
    requires -0x8000_0000 <= x < 0x8000_0000
    ensures -0x8000_0000 <= r < 0x8000_0000
    ensures x != -0x8000_0000 ==> r >= 0 && (r == x || r == -x)
    ensures x == -0x8000_0000 ==> r == x
  {
    if x == -0x8000_0000 then x else if x < 0 then -x else x
  }

  /** Java's %, which truncates toward zero: the remainder takes the sign of x. */
  function JavaRem(x: int, m: int): (r: int)
    requires 0 < m
    ensures -m < r < m
    ensures x >= 0 ==> 0 <= r
    ensures x < 0 ==> r <= 0
  {
    if x >= 0 then x % m else -((-x) % m)
  }

  /**
   * Math.abs((a * Math.abs(h + b)) % p) % len in 32-bit int arithmetic. The
   * inner sum and product may wrap around, and Math.abs may return a negative
   * value, but the remainder mod p lies strictly between -p and p, so the
   * outer Math.abs is exact and the index is in range.
   */
  function MadIndex(a: int, b: int, p: int, h: int, len: int): (r: int)
    requires 0 < p < 0x8000_0000 && 0 < len
    ensures 0 <= r < len
  {
    var inner := JavaAbs(Wrap32(h + b));
    var rem := JavaRem(Wrap32(a * inner), p);
    JavaAbs(rem) % len
  }

  /** With no wrap-around and no negative operand, the MAD index is (a * (h + b)) % p % len. */
  lemma MadIndexSmall(a: int, b: int, p: int, h: int, len: int)
    requires 0 < p < 0x8000_0000 && 0 < len
    requires 0 <= h + b < 0x8000_0000 && 0 <= a && a * (h + b) < 0x8000_0000
    ensures MadIndex(a, b, p, h, len) == (a * (h + b)) % p % len
  {
    assert Wrap32(h + b) == h + b;
    assert 0 <= a * (h + b);
    assert Wrap32(a * (h + b)) == a * (h + b);
  }
}
