/**
 * The doubling growable array of HW1: a backing array `store` whose first
 * `index` slots hold the elements, doubled in length when an add finds it full.
 *
 * Unused slots hold null in the source; here a slot is an Option, None being
 * null. The abstract value is the ghost sequence Elements.
 */
module GrowableArrays {
  import opened Common

  /** DEFAULT_CAPACITY */
  const DefaultCapacity: int := 10

  class GrowableArray<T> {
    var store: array<Option<T>>
    var index: int
    ghost var Elements: seq<T>

    /** The first `index` slots of the backing array hold the elements, in order. */
    ghost predicate Valid()
      reads this, store
    {
      0 <= index <= store.Length && |Elements| == index &&
      forall i :: 0 <= i < index ==> store[i] == Some(Elements[i])
    }

    /** GrowableArrayImpl(): DEFAULT_CAPACITY slots, no elements. */
    constructor Default()
      ensures Valid() && fresh(store) && Elements == [] && store.Length == DefaultCapacity
    {
      store := new Option<T>[DefaultCapacity](_ => None);
      index := 0;
      Elements := [];
    }

    /**
     * GrowableArrayImpl(capacity) for a capacity the array allocation accepts:
     * the requested number of slots, no elements. NewGrowableArray covers
     * every int capacity, negative ones included.
     */
    constructor (capacity: nat)
      ensures Valid() && fresh(store) && Elements == [] && store.Length == capacity
    {
      store := new Option<T>[capacity](_ => None);
      index := 0;
      Elements := [];
    }

    /** isEmpty() */
    method IsEmpty() returns (e: bool)
      requires Valid()
      ensures e <==> Elements == []
    {
      e := index == 0;
    }

    /** capacity() */
    method Capacity() returns (c: int)
      requires Valid()
      ensures c == store.Length && |Elements| <= c
    {
      c := store.Length;
    }

    /** size() */
    method Size() returns (n: int)
      requires Valid()
      ensures n == |Elements| && 0 <= n <= store.Length
    {
      n := index;
    }

    /** get(slot): the element at slot, or IllegalArgumentException outside [0, size). */
    method Get(slot: int) returns (r: Outcome<T>)
      requires Valid()
      ensures r.Ok? <==> 0 <= slot < |Elements|
      ensures r.Ok? ==> r.value == Elements[slot]
      ensures r.Thrown? ==> r.failure == IllegalArgument
    {
      if slot < 0 {
        return Thrown(IllegalArgument);
      }
      if slot >= index {
        return Thrown(IllegalArgument);
      }
      return Ok(store[slot].value);
    }

    /** set(slot, data): replaces one element, or IllegalArgumentException outside [0, size). */
    method Set(slot: int, data: T) returns (r: Outcome<()>)
      requires Valid()
      modifies this, store
      ensures Valid() && store == old(store) && index == old(index)
      ensures r.Ok? <==> 0 <= slot < old(|Elements|)
      ensures r.Ok? ==> Elements == old(Elements)[slot := data]
      ensures r.Thrown? ==> r.failure == IllegalArgument && Elements == old(Elements)
    {
      if slot < 0 {
        return Thrown(IllegalArgument);
      }
      if slot >= index {
        return Thrown(IllegalArgument);
      }
      store[slot] := Some(data);
      Elements := Elements[slot := data];
      return Ok(());
    }

    /**
     * add(data): doubles the backing array when it is full, then writes data
     * at index `size`. With capacity 0 the doubled array is still empty: the
     * write throws ArrayIndexOutOfBoundsException after `index++` has already
     * run, so size() then reports 1 against capacity 0.
     */
    method Add(data: T) returns (r: Outcome<()>)
      requires Valid()
      modifies this, store
      ensures r.Ok? <==> old(store.Length) > 0
      ensures store == old(store) || fresh(store)
      ensures r.Ok? ==> Valid() && Elements == old(Elements) + [data]
      ensures r.Ok? ==> store.Length == if old(index) < old(store.Length) then old(store.Length) else 2 * old(store.Length)
      ensures r.Thrown? ==> r.failure == IndexOutOfBounds
      ensures r.Thrown? ==> store.Length == 0 && index == old(index) + 1 && Elements == old(Elements)
    {
      if index >= store.Length {
        Regrow();
      }
      if index < store.Length {
        store[index] := Some(data);
        index := index + 1;
        Elements := Elements + [data];
        r := Ok(());
      } else {
        index := index + 1;
        r := Thrown(IndexOutOfBounds);
      }
    }

    /** regrow(): a fresh array of twice the length, with every old slot copied into it. */
    method Regrow()
      requires Valid()
      modifies this
      ensures Valid() && fresh(store) && store.Length == 2 * old(store.Length)
      ensures store[..old(store.Length)] == old(store[..])
      ensures Elements == old(Elements) && index == old(index)
    {
      var previous := store;
      var grown := new Option<T>[previous.Length * 2](_ => None);
      for i := 0 to previous.Length
        invariant grown[..i] == previous[..i]
        invariant store == previous && index == old(index) && Elements == old(Elements)
      {
        grown[i] := previous[i];
      }
      store := grown;
      assert store[..previous.Length] == previous[..];
      assert forall i :: 0 <= i < index ==> store[i] == store[..previous.Length][i];
    }

    /** remove(): the last element, which leaves the array, or null when it is empty. */
    method Remove() returns (r: Option<T>)
      requires Valid()
      modifies this
      ensures Valid() && store == old(store)
      ensures old(Elements) == [] ==> r == None && Elements == []
      ensures old(Elements) != [] ==>
        r == Some(old(Elements)[|old(Elements)| - 1]) && Elements == old(Elements)[..|old(Elements)| - 1]
    {
      if index == 0 {
        return None;
      }
      r := store[index - 1];
      index := index - 1;
      Elements := Elements[..index];
    }
  }

  /**
   * GrowableArrayImpl(capacity) over every int: a negative capacity makes the
   * array allocation throw NegativeArraySizeException, any other gives an
   * empty array of that many slots.
   */
  method NewGrowableArray<T>(capacity: int) returns (r: Outcome<GrowableArray<T>>)
    ensures r.Thrown? <==> capacity < 0
    ensures r.Thrown? ==> r.failure == NegativeArraySize
    ensures r.Ok? ==> fresh(r.value) && fresh(r.value.store) && r.value.Valid()
    ensures r.Ok? ==> r.value.Elements == [] && r.value.store.Length == capacity
  {
    if capacity < 0 {
      return Thrown(NegativeArraySize);
    }
    var a := new GrowableArray<T>(capacity);
    r := Ok(a);
  }

  /** A default array after adding each of xs in turn: its elements are xs. */
  method FromSeq(xs: seq<int>) returns (a: GrowableArray<int>)
    ensures fresh(a) && fresh(a.store) && a.Valid() && a.Elements == xs && a.store.Length >= DefaultCapacity
  {
    a := new GrowableArray<int>.Default();
    for i := 0 to |xs|
      invariant fresh(a) && fresh(a.store) && a.Valid() && a.Elements == xs[..i]
      invariant a.store.Length >= DefaultCapacity
    {
      var added := a.Add(xs[i]);
      assert xs[..i + 1] == xs[..i] + [xs[i]];
    }
  }

  /** 23 adds to a default array: capacity 10 doubles twice, to 40, and every element is kept. */
  method TwentyThreeAdds() returns (c: int, n: int, last: Outcome<int>)
    ensures c == 40 && n == 23 && last == Ok(22)
  {
    var a := new GrowableArray<int>.Default();
    var i := 0;
    while i < 23
      invariant 0 <= i <= 23 && fresh(a.store) && a.Valid()
      invariant a.Elements == seq(i, j => j)
      invariant a.store.Length == if i <= 10 then 10 else if i <= 20 then 20 else 40
    {
      var added := a.Add(i);
      i := i + 1;
    }
    c := a.Capacity();
    n := a.Size();
    last := a.Get(22);
  }

  /** add then remove returns what was added and restores the elements (last in, first out). */
  method AddThenRemove(xs: seq<int>, x: int) returns (r: Option<int>, a: GrowableArray<int>)
    ensures r == Some(x) && a.Valid() && a.Elements == xs
  {
    a := FromSeq(xs);
    var added := a.Add(x);
    r := a.Remove();
  }

  /** set(slot, y) then get: y at slot, every other slot as before, and an error outside [0, |xs|). */
  method SetThenGet(xs: seq<int>, slot: int, y: int, other: int) returns (s: Outcome<()>, g: Outcome<int>, h: Outcome<int>)
    requires other != slot
    ensures s.Ok? <==> 0 <= slot < |xs|
    ensures s.Ok? ==> g == Ok(y)
    ensures 0 <= other < |xs| ==> h == Ok(xs[other])
  {
    var a := FromSeq(xs);
    s := a.Set(slot, y);
    g := a.Get(slot);
    h := a.Get(other);
  }

  /**
   * An array built with capacity 0 cannot take an element: add throws, yet
   * leaves size() at 1 against capacity() 0.
   */
  method ZeroCapacityAdd(x: int) returns (r: Outcome<()>, n: int, c: int)
    ensures r == Thrown(IndexOutOfBounds) && n == 1 && c == 0
  {
    var a := new GrowableArray<int>(0);
    r := a.Add(x);
    n, c := a.index, a.store.Length;
  }
}
