# CS1332 data structures, modelled in Dafny

This project models the data-structure exercises of the CS1332 repository:
two open-addressing hash maps, a Cuckoo map and a Hopscotch map, which share a
MAD ("multiply, add, divide") hash and an ascending table of primes; a plain
binary search tree and an AVL tree; a skip list with sentinel towers; a
lazy-deletion doubly linked list that recycles deleted nodes through a stack;
a doubling growable array; a 1-indexed binary max-heap and a sorted list
(median-of-three quicksort above ten elements, insertion sort otherwise)
behind the same work-order container interface; a Huffman encoder and
decoder; and an array-based union-find.

Each Java class whose fields its methods update becomes a Dafny `class` with
those fields, `modifies` clauses and a `Valid()` representation invariant;
each hash map also keeps a ghost map `Contents` (the abstract dictionary) and
proves every operation against it. Pure helpers (the MAD hash, heap index
arithmetic, the traversal orders, the Huffman tree walk) are functions, and
the properties that relate several calls are lemmas.

Modules, one per source file:

- `Common`: `Option` (a nullable reference), `Failure` (the Java exceptions
  the code can throw) and `Outcome` (a call that returns or throws).
- `Mad`: the prime table, `TreeSet.ceiling` over it, and the MAD index in
  32-bit Java arithmetic (`Math.abs` of `Integer.MIN_VALUE`, truncating `%`).
- `CuckooTables`, `Cuckoo`: the Cuckoo map of `HW5/src/CuckooMap.java`. The
  invariant says where every live key sits (its slot in table 1 or table 2)
  and ties the tables to `Contents`; `put`, the eviction chain of `putBucket`,
  `regrow`, `remove` and `clear` are proved against it.
- `HopscotchTables`, `Hopscotch`, `HopscotchAsWritten`, `HopscotchFindings`:
  the Hopscotch map of `HopScotchHash/src/HopScotchHashMap.java`. `Hopscotch`
  is the corrected map, proved against the window invariant (every live
  bucket lies in the four slots from its home, and the scan from home finds
  it). `HopscotchAsWritten` states the Java code's behaviour as written, and
  `HopscotchFindings` evaluates it on small concrete tables to exhibit each
  defect listed under Findings.
- `GrowableArrays`: `HW1/GrowableArray/src/GrowableArrayImpl.java`, over a
  Dafny `array` that doubles when full.
- `UnionFinds`: `HW7/src/UnionFind.java`; the parent array is proved to stay
  a forest (each link climbs to a strictly higher level), so `find`
  terminates.
- `Heaps`, `SortedLists`: `HW6/src/Heap.java` and `HW6/src/SortedList.java`.
  The comparator is a key function `T -> int`, so `compare(a, b)` is the sign
  of `key(a) - key(b)`; until `setComparator` runs it is null, and every
  operation that would compare throws `NullPointerException`.
- `Huffman`: `HuffmanEncoder/src/HuffmanEncoder.java`: frequencies, the
  tree built from a priority queue, the cipher, encoding and decoding.
- `BinarySearchTrees` and `AvlTrees`: `HW3/src/BST.java` and
  `HW4/AVLTree.java`; each tree is a datatype value held in a class field.
- `SkipLists`: `HW8/src/SkipList.java`, as a sequence of levels, each a
  strictly increasing sequence of entries between the two sentinels.
- `LazyLists`: `HW2/src/LazyDeleteLinkedList.java`, as an arena of node
  records with integer links (-1 for null), so that the chain the code leaves
  behind after `compress` can be followed and checked.

The random draws of `redrawMAD` (`java.util.Random`) are a stream
`rand: nat -> nat` fixed at construction and a counter of draws taken;
`nextInt(bound)` is `rand(draws) % bound`. The skip list's coin flips are a
parameter of `put`: the number of `nextBoolean()` calls that return true
before the first false. Key hash codes
(`hash1`, `hash2`, `hashCode`) are function parameters.

## Model

| member | source | states |
|---|---|---|
| Mad.PrimesAscending | HW5/src/CuckooMap.java:26-30 | the prime table is strictly ascending, its last entry is the largest prime, and every entry lies between 11 and it |
| Mad.Ceiling | HW5/src/CuckooMap.java:361 | `optimusPrimes.ceiling(n)` is a listed prime at least n, and is null exactly when n exceeds the largest listed prime |
| Mad.CeilingIsLeast | HW5/src/CuckooMap.java:361 | the ceiling is the least listed prime at or above n: no listed prime q with n <= q lies below it |
| Mad.CeilingFromFound | HW5/src/CuckooMap.java:361 | the ascending search returns the first listed prime at or above n, and finds none only when every listed prime is below n |
| Mad.Wrap32 | HW5/src/CuckooMap.java:352-354 | Java int arithmetic: the result is a 32-bit two's-complement value congruent to x modulo 2^32 |
| Mad.JavaAbs | HW5/src/CuckooMap.java:352-354 | `Math.abs` on an int: non-negative and equal to x or -x, except that `Integer.MIN_VALUE` stays negative |
| Mad.JavaRem | HW5/src/CuckooMap.java:352-354 | Java's `%` truncates: the remainder lies strictly between -m and m and takes the sign of x |
| Mad.MadIndex | HW5/src/CuckooMap.java:351-355 | `abs((a * abs(h + b)) % p) % len` in 32-bit arithmetic is always an index in [0, len), even when the sum or product wraps around |
| Mad.MadIndexSmall | HW5/src/CuckooMap.java:351-355 | without wrap-around or negative operands the MAD index is the textbook `(a * (h + b)) % p % len` |
| CuckooTables.Hasher.Hash | HW5/src/CuckooMap.java:351-355 | `hash(k, t)` lies in [0, length of the tables) for both tables |
| CuckooTables.Located | HW5/src/CuckooMap.java:329-344 | under the placement invariant, a key of the map (other than the one being moved) is live at its recorded candidate slot, and a live bucket for k at either candidate slot holds k's value in the map |
| CuckooTables.EmptyTable | HW5/src/CuckooMap.java:46-47 | a new bucket array of length n holds n nulls |
| CuckooTables.InvEmpty | HW5/src/CuckooMap.java:45-53 | empty tables represent the empty map |
| CuckooTables.InvFloat | HW5/src/CuckooMap.java:130-144 | putting a key live in neither table adds it to the map as the bucket in flight |
| CuckooTables.InvStore | HW5/src/CuckooMap.java:171-180 | storing the bucket in flight into a null or tombstoned candidate slot re-establishes the invariant with no bucket in flight |
| CuckooTables.InvSetValue | HW5/src/CuckooMap.java:181-182 | overwriting the value of a live bucket with the same key updates that key in the map and keeps the invariant |
| CuckooTables.InvEvict | HW5/src/CuckooMap.java:183-186 | placing the bucket in flight over a live bucket with another key makes that occupant the bucket in flight, losing no entry |
| CuckooTables.InvRemove | HW5/src/CuckooMap.java:195-206 | tombstoning k's live bucket removes k from the map and keeps the invariant |
| CuckooTables.LiveEntriesSpec | HW5/src/CuckooMap.java:314-322 | the map regrow re-puts from the first n slot pairs holds exactly the keys live there, with their values |
| CuckooTables.TablesHoldContents | HW5/src/CuckooMap.java:303-323 | the live buckets of both tables are exactly the map's entries, less the bucket in flight, so regrow re-puts every entry |
| Cuckoo.CuckooMap.Hash | HW5/src/CuckooMap.java:351-355 | `hash(k, t)` is an index of table t |
| Cuckoo.CuckooMap.constructor | HW5/src/CuckooMap.java:45-53 | two null tables of length 11, both counters 0, the empty map, and MAD parameters drawn for p = ceiling(12) |
| Cuckoo.CuckooMap.Size | HW5/src/CuckooMap.java:58-61 | `size()` is `count1 + count2`, which is the number of live keys plus the removals not yet rebuilt away |
| Cuckoo.CuckooMap.IsEmpty | HW5/src/CuckooMap.java:66-69 | `isEmpty()` holds iff `count1 + count2 == 0`, and then the map is empty |
| Cuckoo.CuckooMap.GetBucket | HW5/src/CuckooMap.java:329-344 | returns k's live bucket from table 1's candidate slot if there, else from table 2's, else null; a live bucket is returned iff k is in the map, with k's value |
| Cuckoo.CuckooMap.ContainsKey | HW5/src/CuckooMap.java:75-82 | true iff k is in the map, iff a live bucket for k sits at one of its candidate slots |
| Cuckoo.CuckooMap.Get | HW5/src/CuckooMap.java:108-115 | returns k's value in the map, or null; a value exactly when a live bucket for k is at a candidate slot |
| Cuckoo.CuckooMap.RedrawMad | HW5/src/CuckooMap.java:360-366 | p becomes the least listed prime above the table length, a1, a2 in [1, p-1] and b1, b2 in [0, p-1] from four draws; with no such prime (the NullPointerException) nothing is drawn |
| Cuckoo.CuckooMap.Regrow | HW5/src/CuckooMap.java:303-323 | tables grow to length p and hold exactly the old entries (less a bucket in flight); when no larger prime exists the map ends empty at the largest length |
| Cuckoo.CuckooMap.FreshTables | HW5/src/CuckooMap.java:304-312 | regrow's first half: null tables of the old p's length, zero counters, parameters redrawn for the new length |
| Cuckoo.CuckooMap.ReputAll | HW5/src/CuckooMap.java:314-322 | regrow's loop re-puts the live buckets of both old tables, so the map becomes exactly their entries |
| Cuckoo.CuckooMap.ReputSlot | HW5/src/CuckooMap.java:315-321 | one turn of regrow's loop adds the live buckets of old slot i of both tables to the map |
| Cuckoo.CuckooMap.StoreSlot | HW5/src/CuckooMap.java:166-172 | writes one slot of the chosen table and changes nothing else |
| Cuckoo.CuckooMap.PutBucket | HW5/src/CuckooMap.java:157-188 | a bucket in flight ends placed with no entry lost, regrowing after more than 15 evictions in a row; putting a live key updates its value, returns the old one and leaves both counters as they were |
| Cuckoo.CuckooMap.Place | HW5/src/CuckooMap.java:171-180 | a null or tombstoned candidate slot takes the bucket, and only that table's counter grows, by exactly one |
| Cuckoo.CuckooMap.SetValue | HW5/src/CuckooMap.java:181-182 | the live bucket with the same key takes the new value, returns the old value, and the counters stay |
| Cuckoo.CuckooMap.Evict | HW5/src/CuckooMap.java:183-186 | the bucket takes the occupied candidate slot and the occupant, returned, becomes the bucket in flight; the map is unchanged |
| Cuckoo.CuckooMap.Put | HW5/src/CuckooMap.java:123-145 | after `put(k, v)` the map is the old map with k bound to v and the result is k's old value or null; an existing live key leaves the counters unchanged unless the load test regrows |
| Cuckoo.CuckooMap.Tombstone | HW5/src/CuckooMap.java:195-203 | k's live bucket, if any, becomes a tombstone; k leaves the map and its old value is returned |
| Cuckoo.CuckooMap.Remove | HW5/src/CuckooMap.java:194-206 | `remove(k)` returns k's value or null and removes k from the map, but leaves `count1` and `count2` unchanged |
| Cuckoo.CuckooMap.RemoveCounted | HW5/src/CuckooMap.java:194-206 | the corrected remove: as Remove, but `count1 + count2` drops by one when a key was removed |
| Cuckoo.CuckooMap.Clear | HW5/src/CuckooMap.java:224-231 | fresh null tables of length 11, zero counters and the empty map; the MAD parameters stay as they were |
| Cuckoo.CuckooMap.Reset | HW5/src/CuckooMap.java:226-230 | null tables of length n and zero counters under the current MAD parameters |
| Cuckoo.SizeAfterRemove | HW5/src/CuckooMap.java:194-206 | as written: `put(k, v)` then `remove(k)` leaves `size()` at 1 with k absent |
| Cuckoo.SizeAfterRemoveCounted | HW5/src/CuckooMap.java:194-206 | with the corrected remove, `put(k, v)` then `remove(k)` leaves `size()` at 0 |
| GrowableArrays.GrowableArray.constructor | HW1/GrowableArray/src/GrowableArrayImpl.java:27-43 | `GrowableArrayImpl()` has capacity 10 and `GrowableArrayImpl(capacity)` with a non-negative capacity has that capacity, both with no elements |
| GrowableArrays.NewGrowableArray | HW1/GrowableArray/src/GrowableArrayImpl.java:40-43 | `GrowableArrayImpl(capacity)` over every int: throws NegativeArraySizeException iff the capacity is negative, and otherwise gives an empty array of exactly that capacity |
| GrowableArrays.GrowableArray.IsEmpty | HW1/GrowableArray/src/GrowableArrayImpl.java:49-52 | `isEmpty()` holds iff there are no elements |
| GrowableArrays.GrowableArray.Capacity | HW1/GrowableArray/src/GrowableArrayImpl.java:58-61 | `capacity()` is the backing array's length, never below the size |
| GrowableArrays.GrowableArray.Size | HW1/GrowableArray/src/GrowableArrayImpl.java:67-70 | `size()` is the number of elements, between 0 and the capacity |
| GrowableArrays.GrowableArray.Get | HW1/GrowableArray/src/GrowableArrayImpl.java:76-81 | `get(slot)` returns the element at slot when 0 <= slot < size, and throws IllegalArgumentException otherwise |
| GrowableArrays.GrowableArray.Set | HW1/GrowableArray/src/GrowableArrayImpl.java:87-92 | `set(slot, x)` replaces exactly the element at slot when 0 <= slot < size; otherwise it throws IllegalArgumentException and changes nothing |
| GrowableArrays.GrowableArray.Add | HW1/GrowableArray/src/GrowableArrayImpl.java:98-103 | `add(x)` appends x, doubling the capacity first when the array is full; with capacity 0 the doubling leaves no room and the write throws ArrayIndexOutOfBoundsException after the index has been bumped |
| GrowableArrays.GrowableArray.Regrow | HW1/GrowableArray/src/GrowableArrayImpl.java:106-112 | a fresh array of twice the length whose first half is a copy of the old one; the elements are unchanged |
| GrowableArrays.GrowableArray.Remove | HW1/GrowableArray/src/GrowableArrayImpl.java:118-123 | `remove()` returns and drops the last element (last in, first out), or returns null on an empty array |
| GrowableArrays.FromSeq | HW1/GrowableArray/src/GrowableArrayImpl.java:98-103 | adding each of xs in turn to a default array gives exactly the elements xs |
| GrowableArrays.TwentyThreeAdds | HW1/GrowableArray/src/GrowableArrayImpl.java:98-112 | 23 adds to a default array leave capacity 40, size 23 and element 22 at slot 22 |
| GrowableArrays.AddThenRemove | HW1/GrowableArray/src/GrowableArrayImpl.java:98-123 | `remove()` after `add(x)` returns x and restores the previous elements |
| GrowableArrays.SetThenGet | HW1/GrowableArray/src/GrowableArrayImpl.java:76-92 | after `set(slot, y)`, `get(slot)` is y, every other slot keeps its element, and an out-of-range slot is an error |
| GrowableArrays.ZeroCapacityAdd | HW1/GrowableArray/src/GrowableArrayImpl.java:40-43 | on an array of capacity 0, `add` throws ArrayIndexOutOfBoundsException, leaving size 1 against capacity 0 |
| UnionFinds.Root | HW7/src/UnionFind.java:45-53 | following parent links from i reaches an index with a negative entry, which is i itself when sets[i] is negative |
| UnionFinds.SelfLinkIsNoForest | HW7/src/UnionFind.java:55-67 | a union of two vertices already in one set writes `sets[r] = r`, which no forest allows (find would loop) |
| UnionFinds.LinkForest | HW7/src/UnionFind.java:65-67 | linking one root under another root keeps the parent array a forest |
| UnionFinds.RootAfterLink | HW7/src/UnionFind.java:65-67 | after linking root rv under root ru, exactly the indices whose root was rv get root ru; every other index keeps its root |
| UnionFinds.AllRoots | HW7/src/UnionFind.java:29-35 | an array of -1 entries is a forest in which every index is its own root |
| UnionFinds.UnionFind.constructor | HW7/src/UnionFind.java:23-36 | make-set: the i-th vertex gets index i in both maps (inverse bijections), every entry is -1, and each vertex is its own representative |
| UnionFinds.UnionFind.Find | HW7/src/UnionFind.java:45-53 | `find(u)` is the root of u's index, an index whose entry is negative |
| UnionFinds.UnionFind.Union | HW7/src/UnionFind.java:55-67 | for vertices in different sets, `union(u, v)` writes exactly `sets[find(v)] = find(u)`; afterwards u and v share u's old root, and only the vertices of v's old set change representative |
| UnionFinds.UnionThenFind | HW7/src/UnionFind.java:45-67 | after `union(u, v)`, `find(u) == find(v)` |
| Heaps.Left | HW6/src/Heap.java:79-81 | `getLeft(i)` is a child of i: halving it gives i |
| Heaps.Right | HW6/src/Heap.java:88-90 | `getRight(i)` is the slot after the left child, also a child of i |
| Heaps.Parent | HW6/src/Heap.java:97-99 | for i >= 1, `getParent(i)` lies below i and i is its left or right child |
| Heaps.Swap | HW6/src/Heap.java:123-125 | exchanging two slots keeps the length and the multiset and changes no other slot |
| Heaps.DescendsBelow | HW6/src/Heap.java:105-129 | a proper descendant of k lies at index 2k or beyond |
| Heaps.Largest | HW6/src/Heap.java:106-120 | the index heapify picks: i unless a child holds a strictly larger key, preferring the left child on ties; its key is at least those of i and both children |
| Heaps.Heapified | HW6/src/Heap.java:105-129 | heapify keeps the shape, the length and the multiset of the spine |
| Heaps.HeapifiedFrame | HW6/src/Heap.java:105-129 | heapify(i) changes only the subtree rooted at i and leaves at i the largest key among i and its children |
| Heaps.DescendsUp | HW6/src/Heap.java:105-129 | a descendant of a child of i descends from i |
| Heaps.HeapifiedRestores | HW6/src/Heap.java:105-129 | if every edge below i holds, after heapify(i) every edge from i down holds |
| Heaps.SwapDownRestores | HW6/src/Heap.java:122-128 | the swap-and-recurse case of heapify keeps the heap property at i |
| Heaps.SiftUpStep | HW6/src/Heap.java:32-36 | while the new element beats its parent, heapify at the parent is a single swap of the two, and the sift-up invariant moves one level up |
| Heaps.SiftUpSwaps | HW6/src/Heap.java:32-33 | in the sift-up situation heapify at the parent swaps it with the new element |
| Heaps.SiftUpMoves | HW6/src/Heap.java:32-35 | after that swap every edge but the one into the parent holds |
| Heaps.RootIsMax | HW6/src/Heap.java:58-63 | on a max-heap, index 1 holds a largest key |
| Heaps.RootRemoved | HW6/src/Heap.java:63-65 | moving the last element to the root and dropping the last slot loses exactly the root element; on a heap only edges out of the root can be broken |
| Heaps.AfterNextKeepsHeap | HW6/src/Heap.java:58-72 | `next()` leaves a spine one shorter holding every element but the old root, and keeps a heap a heap |
| Heaps.Heap.constructor | HW6/src/Heap.java:16-19 | a new heap holds only the placeholder at index 0 and has no comparator yet |
| Heaps.Heap.SetComparator | HW6/src/Heap.java:21-24 | `setComparator` installs the ordering and leaves the spine alone |
| Heaps.Heap.HasNext | HW6/src/Heap.java:52-55 | `hasNext()` holds iff an element is stored besides the placeholder |
| Heaps.Heap.Heapify | HW6/src/Heap.java:105-129 | the method's spine afterwards is the heapify function of the old spine |
| Heaps.Heap.Arrange | HW6/src/Heap.java:40-45 | `arrange()` runs heapify from size/2 down to 1 and leaves a max-heap with the same elements; without a comparator it throws NullPointerException iff an element is stored, changing nothing |
| Heaps.Heap.Add | HW6/src/Heap.java:26-38 | `add(wo)` adds exactly wo to the multiset and keeps a heap a heap; without a comparator it throws NullPointerException iff an element was already stored, wo having been appended |
| Heaps.Heap.Next | HW6/src/Heap.java:57-72 | `next()` throws NoSuchElementException iff empty, and without a comparator NullPointerException iff more than two elements were stored, the root already replaced by the last element; otherwise it returns the old root and removes exactly it from the multiset; when the old spine was a heap, that root holds a largest key and the new spine is a heap |
| Heaps.AddThenNext | HW6/src/Heap.java:26-72 | `add(wo)` then `next()` on a heap returns an element keyed at least as high as wo, and the heap keeps the rest |
| SortedLists.FilterConcat | HW6/src/SortedList.java:94-107 | the elements of one key in a concatenation are those of each part, in order |
| SortedLists.FilterNone | HW6/src/SortedList.java:94-107 | a sequence with no element of key k has none to keep in order |
| SortedLists.Swap | HW6/src/SortedList.java:140-144 | exchanging two positions keeps the length and the multiset and changes nothing else |
| SortedLists.Shifted | HW6/src/SortedList.java:99-102 | the inner loop's state: the run before[j+1..i] copied one slot to the right |
| SortedLists.ShiftStart | HW6/src/SortedList.java:98-99 | the inner loop starts from the unchanged list |
| SortedLists.ShiftedAt | HW6/src/SortedList.java:99-102 | where each element of the shifted list comes from |
| SortedLists.ShiftStep | HW6/src/SortedList.java:101 | one inner-loop turn `list.set(j + 1, list.get(j))` moves the gap down by one |
| SortedLists.Inserted | HW6/src/SortedList.java:103 | placing the held element at j+1 keeps the length |
| SortedLists.InsertedAt | HW6/src/SortedList.java:103 | where each element of the list after the placement comes from |
| SortedLists.Drop | HW6/src/SortedList.java:103 | writing the held element into the gap gives the inserted list |
| SortedLists.InsertedSorted | HW6/src/SortedList.java:95-104 | inserting element i below the run of strictly larger keys extends the sorted prefix by one |
| SortedLists.InsertedPrefix | HW6/src/SortedList.java:95-104 | the new prefix is before[..j+1], then the inserted element, then the run it jumped |
| SortedLists.InsertedPermutes | HW6/src/SortedList.java:95-104 | one insertion keeps the prefix's elements as a multiset and the rest untouched |
| SortedLists.InsertedStable | HW6/src/SortedList.java:99-103 | the shift test is strict, so the inserted element jumps only larger keys and equal keys keep their order |
| SortedLists.InsertStep | HW6/src/SortedList.java:95-104 | one outer-loop turn carries the insertion-sort invariant from i to i+1 |
| SortedLists.MiddleIsMedian | HW6/src/SortedList.java:118-124 | the middle of the sorted three candidates is one of them and their median |
| SortedLists.RearrangedTrans | HW6/src/SortedList.java:63-87 | a rearrangement of a segment followed by another is one |
| SortedLists.RearrangedWiden | HW6/src/SortedList.java:63-87 | a rearrangement of a segment is one of any enclosing segment |
| SortedLists.RearrangedOutside | HW6/src/SortedList.java:63-87 | a rearrangement of [b, e) leaves every position outside it alone |
| SortedLists.SwapRearranges | HW6/src/SortedList.java:140-144 | a swap inside a segment rearranges that segment |
| SortedLists.SegmentPermutation | HW6/src/SortedList.java:63-87 | a segment rearrangement is a permutation of that segment |
| SortedLists.FromSegment | HW6/src/SortedList.java:63-87 | every element of a rearranged segment came from that segment |
| SortedLists.AtMostSurvives | HW6/src/SortedList.java:85 | a bound on every key of a segment survives its rearrangement |
| SortedLists.AboveSurvives | HW6/src/SortedList.java:86 | a lower bound on every key of a segment survives its rearrangement |
| SortedLists.PartitionStep | HW6/src/SortedList.java:77-81 | an element keyed at most the pivot is swapped to p and the lower part grows by one |
| SortedLists.PlacePivot | HW6/src/SortedList.java:83 | the final swap puts the pivot between the parts: keys at most its own before, larger keys after |
| SortedLists.PartitionFrames | HW6/src/SortedList.java:74-83 | the pivot swap, the loop and the final swap together partition [begin, end] around the pivot |
| SortedLists.AfterLeft | HW6/src/SortedList.java:85 | sorting the left part keeps the partition around the pivot |
| SortedLists.AfterRight | HW6/src/SortedList.java:86 | sorting the right part after the left sorts the whole segment |
| SortedLists.SortedList.constructor | HW6/src/SortedList.java:16-18 | a new list is empty and has no comparator yet |
| SortedLists.SortedList.SetComparator | HW6/src/SortedList.java:20-23 | `setComparator` installs the ordering and leaves the list alone |
| SortedLists.SortedList.Add | HW6/src/SortedList.java:25-28 | `add(wo)` appends wo |
| SortedLists.SortedList.HasNext | HW6/src/SortedList.java:44-47 | `hasNext()` holds iff the list is non-empty |
| SortedLists.SortedList.Next | HW6/src/SortedList.java:49-56 | `next()` removes and returns the first element, and throws NoSuchElementException on an empty list |
| SortedLists.SortedList.Arrange | HW6/src/SortedList.java:30-37 | `arrange()` leaves a sorted permutation of the old list; with at most ten elements (insertion sort) equal keys also keep their order; without a comparator it throws NullPointerException iff the list holds two or more elements, changing nothing |
| SortedLists.SortedList.InsertionSort | HW6/src/SortedList.java:94-107 | `insertionSort(list)` returns a sorted permutation of list in which equal keys keep their order |
| SortedLists.SortedList.InsertNext | HW6/src/SortedList.java:96-103 | one outer-loop turn moves element i into the sorted prefix, stably, leaving the rest untouched |
| SortedLists.SortedList.GetMedianPivot | HW6/src/SortedList.java:114-133 | the pivot index is the first, the last or the middle of the range, and holds the median of those three elements |
| SortedLists.SortedList.SwapOrder | HW6/src/SortedList.java:140-144 | `swapOrder(i, j)` exchanges two positions and changes nothing else |
| SortedLists.SortedList.Partition | HW6/src/SortedList.java:76-81 | the partition loop rearranges only [begin, end) and leaves keys at most the pivot's before p and larger keys from p on |
| SortedLists.SortedList.PartitionAround | HW6/src/SortedList.java:68-83 | with the pivot first swapped to the end and finally to p, [begin, begin+length) is rearranged and split around the pivot at p |
| SortedLists.SortedList.QuickSort | HW6/src/SortedList.java:63-87 | `quickSort(begin, length)` sorts [begin, begin+length) in place as a permutation of it and leaves the rest alone |
| SortedLists.ArrangeThenNext | HW6/src/SortedList.java:30-56 | after `arrange()`, `next()` returns an element of the list with the least key, and throws only on an empty list |
| Huffman.CharsOf | HuffmanEncoder/src/HuffmanEncoder.java:58 | the distinct characters of a text, empty exactly for the empty text |
| Huffman.Without | HuffmanEncoder/src/HuffmanEncoder.java:58-60 | dropping every occurrence of c shortens s by c's count and keeps the other characters' counts |
| Huffman.QueueSnoc | HuffmanEncoder/src/HuffmanEncoder.java:59-69 | offering a tree to the priority queue adds its leaves and its frequency to the queue's totals |
| Huffman.RemoveAt | HuffmanEncoder/src/HuffmanEncoder.java:63-64 | polling a tree leaves a queue one shorter |
| Huffman.RemoveAtSplits | HuffmanEncoder/src/HuffmanEncoder.java:63-64 | polling a tree takes exactly its leaves and its frequency out of the queue's totals |
| Huffman.BagDistinct | HuffmanEncoder/src/HuffmanEncoder.java:58-60 | the leaves made from the key set of the frequency map are distinct characters, exactly the keys |
| Huffman.PollMin | HuffmanEncoder/src/HuffmanEncoder.java:63-64 | `poll()` takes out a tree of least frequency in the queue |
| Huffman.CountFrequencies | HuffmanEncoder/src/HuffmanEncoder.java:83-99 | `countFrequencies(text)` maps exactly the characters of text, each to its number of occurrences |
| Huffman.CodesShape | HuffmanEncoder/src/HuffmanEncoder.java:40-47 | `makeCipher(t, s)` gives a code to exactly the leaves of t, each extending s, strictly so below an internal node |
| Huffman.CodesPrefixFree | HuffmanEncoder/src/HuffmanEncoder.java:40-47 | the cipher of a tree with distinct leaves is prefix-free: '0' for left and '1' for right part ways at every internal node |
| Huffman.DistinctHalves | HuffmanEncoder/src/HuffmanEncoder.java:40-47 | the two subtrees of a tree with distinct leaves have distinct leaves and share none |
| Huffman.ForkNotPrefix | HuffmanEncoder/src/HuffmanEncoder.java:42-43 | two codes that differ right after a common prefix are not prefixes of each other |
| Huffman.EncodedSnoc | HuffmanEncoder/src/HuffmanEncoder.java:25-32 | encoding one more character appends its code, so the encoding is the codes concatenated in text order |
| Huffman.FirstCode | HuffmanEncoder/src/HuffmanEncoder.java:130-132 | the decoder's inner loop stops at a prefix of the remaining bits that is a code, of length at least n |
| Huffman.ThenEmpty | HuffmanEncoder/src/HuffmanEncoder.java:120-138 | continuing a decoding after nothing has been read changes nothing |
| Huffman.ThenAppend | HuffmanEncoder/src/HuffmanEncoder.java:133 | appending characters to the decoded result one at a time or together agrees |
| Huffman.FirstCodeAt | HuffmanEncoder/src/HuffmanEncoder.java:130-132 | the inner loop stops at the first length whose prefix is a code |
| Huffman.DecodeAfterEncoded | HuffmanEncoder/src/HuffmanEncoder.java:120-138 | with a prefix-free cipher of non-empty codes and its exact inverse, decoding the encoding of text followed by more bits gives text followed by the decoding of those bits |
| Huffman.ThenCons | HuffmanEncoder/src/HuffmanEncoder.java:133 | a decoded character followed by the rest of a decoding |
| Huffman.RoundTrip | HuffmanEncoder/src/HuffmanEncoder.java:109-138 | with a prefix-free cipher of non-empty codes covering text and its exact inverse, `decoder(encoder(text)) == text` |
| Huffman.TrailingBitsThrow | HuffmanEncoder/src/HuffmanEncoder.java:129-132 | trailing bits that are a proper prefix of a code make `removeFirst` throw NoSuchElementException |
| Huffman.FirstCodeNone | HuffmanEncoder/src/HuffmanEncoder.java:130-132 | when no prefix of the remaining bits is a code, the inner loop runs out of bits |
| Huffman.LeafOneChar | HuffmanEncoder/src/HuffmanEncoder.java:62-72 | a tree built from a text that is a single leaf stands for a text with one distinct character |
| Huffman.CipherOfBuilt | HuffmanEncoder/src/HuffmanEncoder.java:40-74 | the cipher of the built tree covers exactly the characters of text and is prefix-free; with two or more distinct characters every code is non-empty |
| Huffman.ReverseOfPrefixFree | HuffmanEncoder/src/HuffmanEncoder.java:144-150 | for a prefix-free cipher, the reverse cipher built from an empty map is its exact inverse |
| Huffman.SingleSymbolLost | HuffmanEncoder/src/HuffmanEncoder.java:40-47 | as written: a text with one distinct character gets the empty code, encodes to "" and decodes to "", not to text |
| Huffman.InternalTwoChars | HuffmanEncoder/src/HuffmanEncoder.java:62-72 | an internal root means the text has at least two distinct characters |
| Huffman.LeavesNonEmpty | HuffmanEncoder/src/HuffmanEncoder.java:162-180 | every tree has at least one leaf |
| Huffman.AllEmptyCodes | HuffmanEncoder/src/HuffmanEncoder.java:25-32 | a text whose every character has the empty code encodes to the empty string |
| Huffman.FixedCodes | HuffmanEncoder/src/HuffmanEncoder.java:40-47 | the corrected cipher: codes for exactly the leaves, a lone leaf getting "0" |
| Huffman.FixedRoundTrip | HuffmanEncoder/src/HuffmanEncoder.java:109-138 | with the corrected cipher and its inverse every non-empty text decodes back to itself, a single repeated character included |
| Huffman.LeafQueue | HuffmanEncoder/src/HuffmanEncoder.java:56-60 | buildTree's first loop queues one leaf per counted character, with the text's length as total frequency |
| Huffman.MergeAll | HuffmanEncoder/src/HuffmanEncoder.java:62-72 | buildTree's second loop merges the two least frequent trees until one is left: a well-formed tree whose leaves are the characters, each with its count, and whose root frequency is the text's length; none for an empty text |
| Huffman.RemoveAtOk | HuffmanEncoder/src/HuffmanEncoder.java:63-64 | polling keeps the rest of the queue well formed |
| Huffman.MergeKeeps | HuffmanEncoder/src/HuffmanEncoder.java:63-69 | replacing the two polled trees by their parent keeps the queue's leaves, its total frequency and its well-formedness |
| Huffman.SnocOk | HuffmanEncoder/src/HuffmanEncoder.java:69 | offering a well-formed tree that counts the text keeps the queue well formed |
| Huffman.HuffmanEncoder.constructor | HuffmanEncoder/src/HuffmanEncoder.java:8-12 | a new encoder has no tree and empty cipher and reverse cipher |
| Huffman.HuffmanEncoder.GetCipher | HuffmanEncoder/src/HuffmanEncoder.java:155-157 | `getCipher()` returns the cipher |
| Huffman.HuffmanEncoder.BuildTree | HuffmanEncoder/src/HuffmanEncoder.java:54-74 | `buildTree(text)` sets sigmaSize to the number of distinct characters and root to a Huffman tree of text, or null for an empty text |
| Huffman.HuffmanEncoder.MakeCipher | HuffmanEncoder/src/HuffmanEncoder.java:40-47 | `makeCipher(node, s)` adds to the cipher every leaf's path below node, after s |
| Huffman.HuffmanEncoder.Encoder | HuffmanEncoder/src/HuffmanEncoder.java:25-32 | `encoder(text)` is the concatenation of the characters' codes in text order |
| Huffman.HuffmanEncoder.Encode | HuffmanEncoder/src/HuffmanEncoder.java:14-18 | `encode(text)` builds the tree and the cipher and encodes text; an empty text throws NullPointerException from makeCipher |
| Huffman.HuffmanEncoder.CreateReverseCipher | HuffmanEncoder/src/HuffmanEncoder.java:144-150 | every code of the cipher maps back to a character with that code, and other entries are kept |
| Huffman.HuffmanEncoder.Decoder | HuffmanEncoder/src/HuffmanEncoder.java:120-138 | `decoder(text)` reads off the shortest code prefix repeatedly, throwing NoSuchElementException on trailing bits and looping forever on an empty code |
| Huffman.HuffmanEncoder.Decode | HuffmanEncoder/src/HuffmanEncoder.java:109-113 | `decode(c, text)` builds the reverse cipher of c, then decodes text with it |
| Huffman.EncodeThenDecode | HuffmanEncoder/src/HuffmanEncoder.java:14-138 | `decode(getCipher(), encode(text))` is text when text has at least two distinct characters; one distinct character gives "" both ways; an empty text throws |
| BinarySearchTrees.SubtreeFacts | HW3/src/BST.java:293-350 | a subtree's elements and size are within the tree's, and a subtree of an ordered tree is ordered |
| BinarySearchTrees.SubtreeTrans | HW3/src/BST.java:425-433 | a subtree of a subtree is a subtree |
| BinarySearchTrees.MinOf | HW3/src/BST.java:344-350 | `min(node)`, the leftmost data, is an element and, in an ordered tree, the least one |
| BinarySearchTrees.MaxOf | HW3/src/BST.java:70-82 | the rightmost data is an element and, in an ordered tree, the greatest one |
| BinarySearchTrees.AddMe | HW3/src/BST.java:37-65 | `addMe` adds x to the elements, grows the size by one exactly when it reports true, keeps the order, and reports true iff x was absent |
| BinarySearchTrees.RemoveMin | HW3/src/BST.java:329-337 | `removeMin` drops exactly the least element and one node, keeping the order |
| BinarySearchTrees.RemoveFrom | HW3/src/BST.java:293-322 | the recursive remove drops exactly x, one node fewer exactly when it reports a removal, keeps the order, and reports one iff x was present; a node with two children is replaced by the least element of its right subtree |
| BinarySearchTrees.InOrderSorted | HW3/src/BST.java:177-183 | the in-order traversal of an ordered tree lists each element once, strictly increasing |
| BinarySearchTrees.PreOrderPermutes | HW3/src/BST.java:126-132 | pre-order lists the same elements as in-order, the root first |
| BinarySearchTrees.PostOrderPermutes | HW3/src/BST.java:152-158 | post-order lists the same elements as in-order, the root last |
| BinarySearchTrees.QueueWeightConcat | HW3/src/BST.java:202-216 | the weight of the level-order queue adds up over concatenation |
| BinarySearchTrees.Children | HW3/src/BST.java:209-214 | the children a polled node enqueues, left first, weigh less than the node, so level order terminates |
| BinarySearchTrees.QueueBagConcat | HW3/src/BST.java:202-216 | the elements of the level-order queue add up over concatenation |
| BinarySearchTrees.ChildrenBag | HW3/src/BST.java:209-214 | a node's enqueued children hold the elements of its two subtrees |
| BinarySearchTrees.BfsPermutes | HW3/src/BST.java:202-216 | the breadth-first order of a queue lists every element in it once |
| BinarySearchTrees.LevelOrderPermutes | HW3/src/BST.java:202-216 | level order lists each element of the tree once, the root first |
| BinarySearchTrees.FirstLessThan | HW3/src/BST.java:438-449 | `firstLessThan(node, v)` returns a subtree; when some element is at most v it is a node holding at most v, and it keeps every element at most v |
| BinarySearchTrees.FloorStep | HW3/src/BST.java:425-433 | one round of floor's loop: temp1 holds at most v, and every element at most v is at most temp1's data or in its right subtree |
| BinarySearchTrees.FloorStepRight | HW3/src/BST.java:432 | the next round of the loop, from temp1's right child, starts under the same conditions |
| BinarySearchTrees.FloorFromOk | HW3/src/BST.java:425-434 | when floor's loop returns, it returns an element at most v with no element strictly between it and v |
| BinarySearchTrees.FloorFromThrown | HW3/src/BST.java:426-427 | when floor's loop dereferences null, it does so at a node without right child holding the greatest element at most v |
| BinarySearchTrees.FloorMeaning | HW3/src/BST.java:415-436 | floor as written: NullPointerException on an empty tree; null iff no element is below v; otherwise an element at most v with nothing strictly between, or a null dereference at a node without right child |
| BinarySearchTrees.FloorBelowMeaning | HW3/src/BST.java:415-436 | the corrected floor is none iff no element is below v, and otherwise the greatest element strictly below v |
| BinarySearchTrees.BST.constructor | HW3/src/BST.java:17-20 | a new tree is empty with nodeCount 0 |
| BinarySearchTrees.BST.Add | HW3/src/BST.java:27-65 | `add(null)` returns false and changes nothing; `add(x)` adds x, returns true iff x was absent, and nodeCount grows by one exactly then |
| BinarySearchTrees.BST.Max | HW3/src/BST.java:70-82 | `max()` is null iff the tree is empty, and otherwise the greatest element |
| BinarySearchTrees.BST.Min | HW3/src/BST.java:87-99 | `min()` is null iff the tree is empty, and otherwise the least element |
| BinarySearchTrees.BST.IsEmpty | HW3/src/BST.java:104-106 | `isEmpty()` holds iff the tree has no node |
| BinarySearchTrees.BST.Count | HW3/src/BST.java:221-223 | `size()` is the number of nodes, the length of the in-order traversal |
| BinarySearchTrees.BST.PreOrderInto | HW3/src/BST.java:126-132 | `preOrder(node, accum)` appends node's pre-order to accum |
| BinarySearchTrees.BST.InOrderInto | HW3/src/BST.java:177-183 | `inOrder(node, accum)` appends node's in-order to accum |
| BinarySearchTrees.BST.PostOrderInto | HW3/src/BST.java:152-158 | `postOrder(node, accum)` appends node's post-order to accum |
| BinarySearchTrees.BST.LevelOrderInto | HW3/src/BST.java:202-216 | `levelOrder(node, accum)` appends the breadth-first order of node to accum |
| BinarySearchTrees.BST.GetPreOrder | HW3/src/BST.java:111-119 | `getPreOrder()` lists every element once, the root first |
| BinarySearchTrees.BST.GetInOrder | HW3/src/BST.java:163-170 | `getInOrder()` lists exactly the elements, strictly increasing |
| BinarySearchTrees.BST.GetPostOrder | HW3/src/BST.java:137-145 | `getPostOrder()` lists every element once, the root last |
| BinarySearchTrees.BST.GetLevelOrder | HW3/src/BST.java:188-195 | `getLevelOrder()` lists every element once, the root first; empty for an empty tree |
| BinarySearchTrees.BST.Contains | HW3/src/BST.java:230-256 | `contains(x)` holds iff x is an element; false on an empty tree |
| BinarySearchTrees.BST.Clear | HW3/src/BST.java:261-264 | `clear()` leaves an empty tree with nodeCount 0 |
| BinarySearchTrees.BST.Remove | HW3/src/BST.java:278-322 | `remove(null)` and remove from an empty tree return false; otherwise x is removed, the result is true iff x was present, and nodeCount drops by one exactly then |
| BinarySearchTrees.BST.Floor | HW3/src/BST.java:415-436 | the method computes floor as written, whose meaning FloorMeaning states |
| BinarySearchTrees.BSTIterator.constructor | HW3/src/BST.java:364-367 | the iterator snapshots the in-order traversal, cursor at 0 |
| BinarySearchTrees.BSTIterator.HasNext | HW3/src/BST.java:383-385 | `hasNext()` holds iff the cursor is inside the snapshot |
| BinarySearchTrees.BSTIterator.Next | HW3/src/BST.java:372-378 | `next()` returns the element under the cursor and advances it, or throws IndexOutOfBoundsException past the end |
| BinarySearchTrees.LetterHalfBuild | HW3/src/BinaryTreeTest.java:14 | adding M H S D K builds the expected five-node tree |
| BinarySearchTrees.LetterRestBuild | HW3/src/BinaryTreeTest.java:14 | adding N T A L U to it builds the letter tree |
| BinarySearchTrees.LetterInOrder | HW3/src/BinaryTreeTest.java:15 | the letter tree's in-order traversal is A D H K L M N S T U |
| BinarySearchTrees.LetterPreOrder | HW3/src/BinaryTreeTest.java:17 | its pre-order traversal is M H D A K L S N T U |
| BinarySearchTrees.LetterPostOrder | HW3/src/BinaryTreeTest.java:16 | its post-order traversal is A D L K H N U T S M |
| BinarySearchTrees.BfsHead | HW3/src/BST.java:206-215 | one step of level order: poll the head, record it, enqueue its children |
| BinarySearchTrees.LetterLevelOrderLast | HW3/src/BinaryTreeTest.java:18 | the level order's last three steps, A L U |
| BinarySearchTrees.LetterLevelOrderTail | HW3/src/BinaryTreeTest.java:18 | the level order from K N T A on |
| BinarySearchTrees.LetterLevelOrderHead | HW3/src/BinaryTreeTest.java:18 | the level order's first four steps, M H S D |
| BinarySearchTrees.LetterLevelOrder | HW3/src/BinaryTreeTest.java:18 | the letter tree's level order is M H S D K N T A L U |
| BinarySearchTrees.LetterRemovals | HW3/src/BinaryTreeTest.java:19-20 | removing K lifts L into its place (level order M H S D L N T A U); removing the root M puts its successor N there (level order N H S D K T A L U) |
| BinarySearchTrees.NumberBuild | HW3/src/Driver.java:11-17 | adding 24 34 14 20 27 45 18 builds the expected tree |
| BinarySearchTrees.FloorCounterexample | HW3/src/Driver.java:19-23 | floor as written gives null, 14, 34 and 24 for 14, 17, 45 and 27, but dereferences null for 21 and returns 34 itself for 34 |
| BinarySearchTrees.FloorBelowExamples | HW3/src/Driver.java:19-23 | the corrected floor gives null, 14, 34, 24 for 14, 17, 45, 27 and also 20 for 21 and 27 for 34 |
| AvlTrees.Shape | HW4/AVLTree.java:532-548 | forgetting the stored heights keeps a node a node |
| AvlTrees.H | HW4/AVLTree.java:426-432 | `getHeight(node)` is the stored height, -1 for null |
| AvlTrees.Fixed | HW4/AVLTree.java:413-419 | `node.height = updateHeight(node)` changes only the height field |
| AvlTrees.Height | HW4/AVLTree.java:413-419 | the real height of a tree: -1 when empty, at least 0 otherwise |
| AvlTrees.StoredHeight | HW4/AVLTree.java:426-432 | when every node stores its real height, getHeight returns it |
| AvlTrees.ShapeOfNode | HW4/AVLTree.java:351-376 | re-linking a node keeps its elements, its size and its order as in the search tree |
| AvlTrees.LowerOrder | HW4/AVLTree.java:351-360 | with y at the root and x its left child, the tree is ordered exactly when a, x, b, y, c are in sequence |
| AvlTrees.UpperOrder | HW4/AVLTree.java:367-376 | with x at the root and y its right child, likewise |
| AvlTrees.Rotation | HW4/AVLTree.java:351-376 | the two rotations turn one shape into the other and keep the in-order sequence and the order |
| AvlTrees.RotateRight | HW4/AVLTree.java:351-360 | `rotateRight` keeps the in-order traversal, elements, size and order, and recomputes the heights of the two moved nodes |
| AvlTrees.RotateLeft | HW4/AVLTree.java:367-376 | `rotateLeft` keeps the in-order traversal, elements, size and order, and recomputes the heights of the two moved nodes |
| AvlTrees.Rebalance | HW4/AVLTree.java:383-406 | `rebalance` keeps the in-order traversal, elements, size and order |
| AvlTrees.AddMe | HW4/AVLTree.java:42-59 | `addMe` adds x to the elements, grows the size by one exactly when it reports a new node, keeps the order, and reports one iff x was absent |
| AvlTrees.MinNode | HW4/AVLTree.java:338-344 | `min(node)` is the node holding the leftmost data |
| AvlTrees.RemoveMin | HW4/AVLTree.java:323-331 | `removeMin` drops exactly the least element and one node, keeping the order |
| AvlTrees.Successor | HW4/AVLTree.java:309-312 | replacing a node with two children by the least node of its right subtree drops exactly its data, keeping the order |
| AvlTrees.RemoveFrom | HW4/AVLTree.java:287-316 | the recursive remove drops exactly x, one node fewer exactly when it reports a removal, keeps the order, and reports one iff x was present |
| AvlTrees.AvlChildren | HW4/AVLTree.java:481-483 | the subtrees of an AVL node are AVL trees whose heights differ by at most one |
| AvlTrees.FixedNode | HW4/AVLTree.java:413-419 | updateHeight over two AVL subtrees stores the node's real height |
| AvlTrees.RotateRightAvl | HW4/AVLTree.java:386-388 | a node left-heavy by two whose left child is not right-heavy is balanced by one right rotation |
| AvlTrees.RotateLeftRightAvl | HW4/AVLTree.java:389-392 | a node left-heavy by two whose left child is right-heavy is balanced by the left-right double rotation |
| AvlTrees.RotateLeftAvl | HW4/AVLTree.java:395-397 | a node right-heavy by two whose right child is not left-heavy is balanced by one left rotation |
| AvlTrees.RotateRightLeftAvl | HW4/AVLTree.java:398-401 | a node right-heavy by two whose right child is left-heavy is balanced by the right-left double rotation |
| AvlTrees.RebalanceAvl | HW4/AVLTree.java:383-406 | `rebalance` over AVL subtrees at most two apart in height gives an AVL tree as high as the higher subtree or one more |
| AvlTrees.AddMeAvl | HW4/AVLTree.java:42-59 | adding to an AVL tree gives an AVL tree (stored heights real, balance factors in [-1, 1]) as high as before or one higher |
| AvlTrees.RebalanceAvlUnchanged | HW4/AVLTree.java:404-405 | on an AVL tree, rebalance only confirms the stored height |
| AvlTrees.AddPresentUnchanged | HW4/AVLTree.java:49-58 | adding an element already present leaves the tree unchanged |
| AvlTrees.RemoveMinAvl | HW4/AVLTree.java:323-331 | removeMin, which rebalances each node on its path, keeps an AVL tree AVL |
| AvlTrees.RemoveLeavesStaleHeight | HW4/AVLTree.java:299-314 | remove does not update heights: removing 1 from 2(1, -) leaves a leaf that still stores height 1 |
| AvlTrees.SmallAvl | HW4/AVLTree.java:383-406 | 2(1, 3(-, 4)) is an AVL tree |
| AvlTrees.RemoveLeavesImbalance | HW4/AVLTree.java:287-316 | remove does not rebalance: removing 1 from the AVL tree 2(1, 3(-, 4)) leaves a root with balance -2 |
| AvlTrees.FloorAtBelow | HW4/AVLTree.java:448-474 | `floor(node, value)` below a least element under value finds the greatest element strictly below value |
| AvlTrees.FloorMeaning | HW4/AVLTree.java:434-446 | `floor(null)` is null; on an empty tree `min(root)` dereferences null; otherwise the greatest element strictly below value, or null when there is none |
| AvlTrees.AVLTree.constructor | HW4/AVLTree.java:17-20 | a new tree is empty, with nodeCount 0 |
| AvlTrees.AVLTree.Add | HW4/AVLTree.java:27-34 | `add(null)` returns false; `add(x)` adds x, returns true iff nodeCount grew, which is iff x was absent; an AVL tree stays AVL, and a present x leaves it unchanged |
| AvlTrees.AVLTree.Max | HW4/AVLTree.java:64-76 | `max()` is null iff the tree is empty, and otherwise the greatest element |
| AvlTrees.AVLTree.Min | HW4/AVLTree.java:81-93 | `min()` is null iff the tree is empty, and otherwise the least element |
| AvlTrees.AVLTree.IsEmpty | HW4/AVLTree.java:98-100 | `isEmpty()` holds iff the tree has no node |
| AvlTrees.AVLTree.Count | HW4/AVLTree.java:215-217 | `size()` is the number of nodes |
| AvlTrees.AVLTree.GetPreOrder | HW4/AVLTree.java:105-126 | `getPreOrder()` lists every element once, the root first |
| AvlTrees.AVLTree.GetInOrder | HW4/AVLTree.java:157-177 | `getInOrder()` lists exactly the elements, strictly increasing |
| AvlTrees.AVLTree.GetPostOrder | HW4/AVLTree.java:131-152 | `getPostOrder()` lists every element once, the root last |
| AvlTrees.AVLTree.GetLevelOrder | HW4/AVLTree.java:182-210 | `getLevelOrder()` lists every element once, the root first |
| AvlTrees.AVLTree.Contains | HW4/AVLTree.java:224-250 | `contains(x)` holds iff x is an element; false on an empty tree |
| AvlTrees.AVLTree.Clear | HW4/AVLTree.java:255-258 | `clear()` leaves an empty tree with nodeCount 0 |
| AvlTrees.AVLTree.Remove | HW4/AVLTree.java:272-279 | `remove(null)` and remove from an empty tree return false; otherwise x is removed, the result is true iff x was present, and nodeCount drops by one exactly then |
| AvlTrees.AVLTree.Floor | HW4/AVLTree.java:434-474 | the method computes floor as written; on a non-empty tree with a value it is the greatest element strictly below the value |
| AvlTrees.AVLIterator.constructor | HW4/AVLTree.java:497-500 | the iterator snapshots the in-order traversal, cursor at 0 |
| AvlTrees.AVLIterator.HasNext | HW4/AVLTree.java:516-518 | `hasNext()` holds iff the cursor is inside the snapshot |
| AvlTrees.AVLIterator.Next | HW4/AVLTree.java:505-511 | `next()` returns the element under the cursor and advances it, or throws IndexOutOfBoundsException past the end |
| AvlTrees.AddToRightChain | HW4/AVLTree.java:395-397 | a third ascending element below a right child is fixed by one left rotation |
| AvlTrees.DriverAddOne | HW4/Driver.java:8-10 | the driver's adds of 1, 3, ..., 15: the first gives a leaf |
| AvlTrees.DriverAddThree | HW4/Driver.java:8-10 | adding 3 |
| AvlTrees.DriverAddFive | HW4/Driver.java:8-10 | adding 5 rotates 3 to the root |
| AvlTrees.DriverAddSeven | HW4/Driver.java:8-10 | adding 7 |
| AvlTrees.DriverAddNine | HW4/Driver.java:8-10 | adding 9 rotates at 5 |
| AvlTrees.DriverAddEleven | HW4/Driver.java:8-10 | adding 11 rotates 7 to the root |
| AvlTrees.DriverAddThirteen | HW4/Driver.java:8-10 | adding 13 rotates at 9 |
| AvlTrees.DriverAddFifteen | HW4/Driver.java:8-10 | adding 15 gives the driver's tree |
| AvlTrees.DriverLevelOrder | HW4/Driver.java:12 | the driver's tree prints level order 7 3 11 1 5 9 13 15 |
| AvlTrees.DriverLevelOrderTail | HW4/Driver.java:12 | the level order from 1 5 9 13 on |
| AvlTrees.DriverFloor | HW4/Driver.java:13 | `floor(-7)` on the driver's tree is null |
| SkipLists.Lookup | HW8/src/SkipList.java:84-93 | `get` on one level finds a value iff the key is on the level, and the value found is that key's node's |
| SkipLists.LookupSorted | HW8/src/SkipList.java:84-93 | on a sorted level every node's value is what its key looks up |
| SkipLists.NextKey | HW8/src/SkipList.java:401-403 | `node.next` after key c is the least key above c on the level, or the tail |
| SkipLists.PrevKey | HW8/src/SkipList.java:309-323 | `node.prev` before key c is the greatest key below c on the level, or the head |
| SkipLists.InsertAfter | HW8/src/SkipList.java:117-124 | linking a node after its predecessor adds exactly that node and keeps every other |
| SkipLists.InsertAfterSorted | HW8/src/SkipList.java:117-124 | linking a new key after its predecessor keeps the level strictly increasing and between the sentinels |
| SkipLists.InsertAfterLookupAll | HW8/src/SkipList.java:117-124 | after linking a new node its key looks up its value and every other key what it did before |
| SkipLists.InsertAfterLookup | HW8/src/SkipList.java:117-124 | the same for one key |
| SkipLists.Delete | HW8/src/SkipList.java:168-172 | unlinking key k keeps every node with another key and no node with k |
| SkipLists.DeleteSorted | HW8/src/SkipList.java:168-172 | unlinking keeps a level strictly increasing |
| SkipLists.DeleteLookup | HW8/src/SkipList.java:168-172 | after unlinking k, k looks up nothing and every other key what it did before |
| SkipLists.DeletedCount | HW8/src/SkipList.java:168-182 | unlinking a present key takes exactly one node off a sorted level, and an absent key none |
| SkipLists.DeleteInserted | HW8/src/SkipList.java:117-172 | unlinking the node just linked gives the level back |
| SkipLists.SetValue | HW8/src/SkipList.java:376-380 | `setValue` on k's node changes that node's value only, keeping the keys in order |
| SkipLists.SetValueSorted | HW8/src/SkipList.java:376-380 | setting a value keeps a level sorted |
| SkipLists.SetValueLookupAll | HW8/src/SkipList.java:106-113 | after setting k's value, k looks up the new value (when present) and every other key what it did before |
| SkipLists.SetValueLookup | HW8/src/SkipList.java:106-113 | the same for one key |
| SkipLists.SetValueBelow | HW8/src/SkipList.java:106-113 | setting k's value on two levels keeps the upper level standing on the lower |
| SkipLists.KeyBelow | HW8/src/SkipList.java:131 | a key on a level above the bottom is also on the level below it (`down` links) |
| SkipLists.InBottom | HW8/src/SkipList.java:131 | every node of every level stands on a node of the bottom level with the same key and value |
| SkipLists.AbsentEverywhere | HW8/src/SkipList.java:131 | a key missing from the bottom level is on no level |
| SkipLists.LinkOnLevel | HW8/src/SkipList.java:126-142 | linking a node after its predecessor on level j, when it stands on level j - 1, keeps every level sorted and over the one below |
| SkipLists.DeleteEverywhere | HW8/src/SkipList.java:167-179 | unlinking a key on every level keeps the structure |
| SkipLists.SetEverywhere | HW8/src/SkipList.java:106-113 | setting a key's value on every level keeps the structure |
| SkipLists.TowerStep | HW8/src/SkipList.java:126-142 | one turn of the coin-flip loop adds the new key to the next level and nothing else |
| SkipLists.TowerFinal | HW8/src/SkipList.java:126-142 | after the loop the new key is on levels 0 to flips exactly, and every level without it is as before |
| SkipLists.TowerGrowStep | HW8/src/SkipList.java:313-316 | when the tower reaches the top, a new empty level is added and the key goes onto it alone |
| SkipLists.SkipList.constructor | HW8/src/SkipList.java:17-24 | one level holding only the two sentinels, count 0 |
| SkipLists.SkipList.Size | HW8/src/SkipList.java:30-32 | `size()` is the number of nodes on the bottom level |
| SkipLists.SkipList.IsEmpty | HW8/src/SkipList.java:38-40 | `isEmpty()` holds iff no key looks up a value |
| SkipLists.SkipList.GetNodeOrPrevious | HW8/src/SkipList.java:270-288 | the walk stops at key (a sentinel or the top of key's tower) iff key is a sentinel key or in the map; otherwise at key's predecessor on the bottom level |
| SkipLists.SkipList.ContainsKey | HW8/src/SkipList.java:47-57 | as written: true iff key is in the map or is `Integer.MIN_VALUE` or `Integer.MAX_VALUE` |
| SkipLists.SkipList.ContainsKeyGuarded | HW8/src/SkipList.java:47-57 | the corrected `containsKey`: true iff key is in the map |
| SkipLists.SkipList.Get | HW8/src/SkipList.java:84-93 | `get(k)` is k's value in the map, or null |
| SkipLists.SkipList.NewLayer | HW8/src/SkipList.java:328-342 | an empty level (just the sentinels) goes on top; the rest stays |
| SkipLists.SkipList.PrevUpOneLevel | HW8/src/SkipList.java:309-323 | returns key's predecessor on level j + 1, adding a level first when j is the top |
| SkipLists.SkipList.SetTower | HW8/src/SkipList.java:106-113 | the walk down key's tower sets its value on every level and keeps the structure |
| SkipLists.SkipList.UnlinkTower | HW8/src/SkipList.java:165-179 | the walk down key's tower unlinks it on every level and keeps the structure |
| SkipLists.SkipList.BuildTower | HW8/src/SkipList.java:126-142 | the new key ends on levels 0 to flips exactly, with levels added as needed and the rest unchanged |
| SkipLists.SkipList.Put | HW8/src/SkipList.java:103-148 | returns key's old value or null; the map becomes the old map with key bound to value; an existing key is set on every level of its tower, a new key is linked on levels 0 to flips and nowhere else |
| SkipLists.SkipList.PutExisting | HW8/src/SkipList.java:106-115 | the existing-key branch: returns the old value, sets the value on every level |
| SkipLists.SkipList.LinkNew | HW8/src/SkipList.java:116-145 | the new-key branch: linked after its predecessor on the bottom level, then on levels 1 to flips |
| SkipLists.SkipList.Remove | HW8/src/SkipList.java:156-184 | returns key's old value or null; key leaves every level; count drops by one exactly when key was present |
| SkipLists.SkipList.Clear | HW8/src/SkipList.java:201-208 | back to one level with only the sentinels, count 0, the empty map |
| SkipLists.SkipList.ContainsValue | HW8/src/SkipList.java:64-77 | true iff some key of the map has value v |
| SkipLists.SkipList.Values | HW8/src/SkipList.java:231-242 | the values of the bottom level in key order, one per entry |
| SkipLists.SkipList.KeySet | HW8/src/SkipList.java:214-225 | exactly the keys of the map |
| SkipLists.SkipList.EntrySet | HW8/src/SkipList.java:248-263 | exactly the key-value pairs of the map |
| SkipLists.EmptyListHasSentinelKeys | HW8/src/SkipList.java:47-57 | as written, an empty skip list contains both `Integer.MIN_VALUE` and `Integer.MAX_VALUE` |
| SkipLists.EmptyListGuarded | HW8/src/SkipList.java:47-57 | the corrected `containsKey` reports neither sentinel key on an empty list |
| LazyLists.Relinked | HW2/src/LazyDeleteLinkedList.java:10-13 | pointing one node's links at nodes of the list keeps every link a node of the list or null |
| LazyLists.FirstLive | HW2/src/LazyDeleteLinkedList.java:85-97 | the position where remove's walk stops lies on the chain, or just past it when no live node holds the item |
| LazyLists.LiveCat | HW2/src/LazyDeleteLinkedList.java:102-114 | the live elements of two chained runs of nodes are those of the first followed by those of the second |
| LazyLists.DeadCat | HW2/src/LazyDeleteLinkedList.java:30-31 | the same for the nodes marked deleted but still linked |
| LazyLists.LiveAgree | HW2/src/LazyDeleteLinkedList.java:102-114 | the elements and the dead nodes depend only on the data and deleted flags of the chain's nodes |
| LazyLists.LiveDeadCount | HW2/src/LazyDeleteLinkedList.java:12 | every linked node is either live or dead: together they are the chain's length |
| LazyLists.RemoveFirstBag | HW2/src/LazyDeleteLinkedList.java:80-100 | removing an item takes one copy of it out of the elements when it is there, and nothing otherwise |
| LazyLists.RemoveFirstAfter | HW2/src/LazyDeleteLinkedList.java:85-97 | the first occurrence is the one removed |
| LazyLists.FirstLiveAt | HW2/src/LazyDeleteLinkedList.java:85-97 | a walk that stops at the first live node holding the item stops at FirstLive |
| LazyLists.PopAsWritten | HW2/src/LazyDeleteLinkedList.java:31-46 | one turn of compress's loop as written pops the stack, keeps every link a node or null and count as it was, and decrements deletedCount unless it dereferences null |
| LazyLists.PopFixed | HW2/src/LazyDeleteLinkedList.java:31-46 | the same turn with the tail's right link cleared and the middle node's neighbours linked both ways |
| LazyLists.PopAllAsWritten | HW2/src/LazyDeleteLinkedList.java:27-50 | compress's loop as written: without a null dereference it empties the stack, pops as many nodes as the stack held and takes them off deletedCount |
| LazyLists.Empty | HW2/src/LazyDeleteLinkedList.java:15-21 | a new list is well formed and has no elements |
| LazyLists.TailUnlinkAsWritten | HW2/src/LazyDeleteLinkedList.java:36-38 | as written: after add(1), add(2), remove(2) the list holds [1], yet after compress the walk from the head yields 1 and 2 |
| LazyLists.TailUnlinkThrows | HW2/src/LazyDeleteLinkedList.java:36-38 | as written: after add(1), add(2), add(3), remove(2), remove(3) compress throws a NullPointerException |
| LazyLists.MiddleUnlinkAsWritten | HW2/src/LazyDeleteLinkedList.java:42-43 | as written: after add(1), add(2), add(3), remove(3), remove(2) compress leaves the tail on a removed node and the walk yields 1 and 3 where the list holds [1] |
| LazyLists.StaleHeadAsWritten | HW2/src/LazyDeleteLinkedList.java:124-134 | as written: after add(1), add(2), remove(1) the iterator starts on the removed head and yields 1 and 2 where the list holds [2] |
| LazyLists.PopFixedOnly | HW2/src/LazyDeleteLinkedList.java:33-35 | popping the only node left empties the list without a null dereference |
| LazyLists.PopFixedTail | HW2/src/LazyDeleteLinkedList.java:36-38 | the fixed tail branch: the node before becomes the tail, and the chain loses exactly the popped node |
| LazyLists.PopFixedHead | HW2/src/LazyDeleteLinkedList.java:39-41 | the head branch: the node after becomes the head, and the chain loses exactly the popped node |
| LazyLists.PopFixedMiddle | HW2/src/LazyDeleteLinkedList.java:42-43 | the fixed middle branch: the neighbours point at each other both ways, and the chain loses exactly the popped node |
| LazyLists.PopFixedLinked | HW2/src/LazyDeleteLinkedList.java:33-44 | the fixed turn never dereferences null on a well-linked list and unlinks exactly the popped node |
| LazyLists.PopFixedKeeps | HW2/src/LazyDeleteLinkedList.java:31-46 | the fixed turn keeps the list well formed and its elements unchanged |
| LazyLists.AloneKeeps | HW2/src/LazyDeleteLinkedList.java:62-64 | add into an empty list with nothing to reuse makes the one-node list [data] |
| LazyLists.AppendKeeps | HW2/src/LazyDeleteLinkedList.java:65-68 | add with nothing to reuse keeps the list well formed and appends the data |
| LazyLists.ReviveKeeps | HW2/src/LazyDeleteLinkedList.java:69-75 | add reusing the most recently deleted node keeps the list well formed and adds the data to its elements (as a bag) |
| LazyLists.MarkKeeps | HW2/src/LazyDeleteLinkedList.java:88-93 | remove's hit keeps the list well formed and takes the first occurrence of the item out of the elements |
| LazyLists.NoneDead | HW2/src/LazyDeleteLinkedList.java:27-50 | with an empty stack no linked node is marked deleted and deletedCount is 0 |
| LazyLists.WalkLinked | HW2/src/LazyDeleteLinkedList.java:136-148 | with no dead node linked, following right links from a node yields exactly the elements from there on |
| LazyLists.PopAllFixed | HW2/src/LazyDeleteLinkedList.java:27-50 | compress's loop with the links fixed ends well formed with the same elements and count, an empty stack, no dead node linked, and returns the old deletedCount |
| LazyLists.LazyDeleteLinkedList.constructor | HW2/src/LazyDeleteLinkedList.java:15-21 | null head and tail, both counters 0, an empty stack, no elements |
| LazyLists.LazyDeleteLinkedList.DeletedNodeCount | HW2/src/LazyDeleteLinkedList.java:23-25 | `deletedNodeCount()` is the number of nodes marked deleted and still linked, and the height of the stack |
| LazyLists.LazyDeleteLinkedList.Size | HW2/src/LazyDeleteLinkedList.java:120-122 | `size()` is the number of elements |
| LazyLists.LazyDeleteLinkedList.IsEmpty | HW2/src/LazyDeleteLinkedList.java:116-118 | `isEmpty()` holds iff there are no elements |
| LazyLists.LazyDeleteLinkedList.Clear | HW2/src/LazyDeleteLinkedList.java:52-58 | every field back to the empty list; no elements |
| LazyLists.LazyDeleteLinkedList.Contains | HW2/src/LazyDeleteLinkedList.java:102-114 | `contains(x)` iff x is an element |
| LazyLists.LazyDeleteLinkedList.Add | HW2/src/LazyDeleteLinkedList.java:60-78 | count grows by one and the data joins the elements; with nothing to reuse it goes at the end, otherwise the top of the stack is revived with it |
| LazyLists.LazyDeleteLinkedList.AddFirst | HW2/src/LazyDeleteLinkedList.java:62-64 | the empty-list branch: the new node is head and tail |
| LazyLists.LazyDeleteLinkedList.AddAfterTail | HW2/src/LazyDeleteLinkedList.java:65-68 | the append branch: a new node after the tail, the data at the end of the elements |
| LazyLists.LazyDeleteLinkedList.Reuse | HW2/src/LazyDeleteLinkedList.java:69-75 | the reuse branch: the popped node takes the data and is live again |
| LazyLists.LazyDeleteLinkedList.Remove | HW2/src/LazyDeleteLinkedList.java:80-100 | true iff the item is an element; then its first occurrence's node is marked and pushed and the item leaves the elements; otherwise nothing changes |
| LazyLists.LazyDeleteLinkedList.NoLiveNoMatch | HW2/src/LazyDeleteLinkedList.java:81-83 | an empty list has no live node holding the item |
| LazyLists.LazyDeleteLinkedList.MarkDeleted | HW2/src/LazyDeleteLinkedList.java:88-93 | the node found is marked deleted and pushed; the item's first occurrence leaves the elements |
| LazyLists.LazyDeleteLinkedList.CompressAsWritten | HW2/src/LazyDeleteLinkedList.java:27-50 | as written: the fields become what PopAllAsWritten gives, and the result is the number popped or the null dereference |
| LazyLists.LazyDeleteLinkedList.Compress | HW2/src/LazyDeleteLinkedList.java:27-50 | corrected: the elements and count are unchanged, every dead node is unlinked, the stack is empty, and the old deletedCount is returned |
| LazyLists.LazyDeleteLinkedList.IteratorAsWritten | HW2/src/LazyDeleteLinkedList.java:124-134 | as written: the iterator starts at the head read before compress runs |
| LazyLists.LazyDeleteLinkedList.Iterator | HW2/src/LazyDeleteLinkedList.java:124-134 | corrected: compress first, then the head; the iterator's walk yields exactly the elements |
| LazyLists.LazyListIterator.constructor | HW2/src/LazyDeleteLinkedList.java:131-134 | the cursor starts at the given node |
| LazyLists.LazyListIterator.Next | HW2/src/LazyDeleteLinkedList.java:142-149 | at null `next()` throws NoSuchElementException; otherwise it returns the cursor's data and moves right, so the walk from the old cursor is that value followed by the walk from the new one |
| HopscotchTables.Hasher.Hash | HopScotchHash/src/HopScotchHashMap.java:406-409 | `hash(k)` is a slot of the table |
| HopscotchTables.EmptyTable | HopScotchHash/src/HopScotchHashMap.java:38 | a new bucket array of length n holds n nulls |
| HopscotchTables.FindFrom | HopScotchHash/src/HopScotchHashMap.java:308-323 | the scan from home finds -1 or a live bucket holding k inside home's four-slot window |
| HopscotchTables.InvEmpty | HopScotchHash/src/HopScotchHashMap.java:37-42 | a table of nulls represents the empty map |
| HopscotchTables.InvWeaken | HopScotchHash/src/HopScotchHashMap.java:341-371 | a table with no gap satisfies the invariant for a gap anywhere |
| HopscotchTables.Located | HopScotchHash/src/HopScotchHashMap.java:308-323 | under the invariant k is in the map iff a live bucket holds k in k's window, reached from its home over non-null slots, holding k's value |
| HopscotchTables.FindReaches | HopScotchHash/src/HopScotchHashMap.java:308-323 | the scan passes over buckets that are not live copies of k and stops at the one that is |
| HopscotchTables.FindMisses | HopScotchHash/src/HopScotchHashMap.java:308-323 | with no live bucket holding k the scan finds nothing |
| HopscotchTables.InvPlace | HopScotchHash/src/HopScotchHashMap.java:165-176 | a new key placed in a null or tombstoned slot of its window, with no gap between home and it, joins the map and keeps the invariant |
| HopscotchTables.InvOverwrite | HopScotchHash/src/HopScotchHashMap.java:162-164 | replacing a live key's bucket with the new value updates that key and keeps the invariant |
| HopscotchTables.InvTombstone | HopScotchHash/src/HopScotchHashMap.java:190-201 | tombstoning k's live bucket takes k out of the map and keeps the invariant |
| HopscotchTables.InvMove | HopScotchHash/src/HopScotchHashMap.java:351-355 | one hop moves a bucket into the open slot within its own window and leaves its old slot as the gap, keeping the map |
| HopscotchTables.InvClear | HopScotchHash/src/HopScotchHashMap.java:351-355 | a hop onto the open slot itself clears the tombstone there to null |
| HopscotchTables.LiveEntriesSpec | HopScotchHash/src/HopScotchHashMap.java:287-291 | the map regrow re-puts from the first n slots holds exactly the keys live there, with their values |
| HopscotchTables.TablesHoldContents | HopScotchHash/src/HopScotchHashMap.java:278-292 | the live buckets of the table are exactly the map's entries, whatever gap a hop has left, so regrow re-puts every entry |
| Hopscotch.HopScotchHashMap.Hash | HopScotchHash/src/HopScotchHashMap.java:406-409 | `hash(k) % spine.length` is a slot of the table |
| Hopscotch.HopScotchHashMap.constructor | HopScotchHash/src/HopScotchHashMap.java:37-42 | a null table of length 11, count 0, the empty map, p = 23 and two draws taken |
| Hopscotch.HopScotchHashMap.Size | HopScotchHash/src/HopScotchHashMap.java:49-51 | `size()` is count, the number of keys in the map |
| Hopscotch.HopScotchHashMap.IsEmpty | HopScotchHash/src/HopScotchHashMap.java:57-59 | `isEmpty()` holds iff the map is empty |
| Hopscotch.HopScotchHashMap.Get | HopScotchHash/src/HopScotchHashMap.java:101-119 | corrected `get(k)`: k's value in the map, or null |
| Hopscotch.HopScotchHashMap.GetKey | HopScotchHash/src/HopScotchHashMap.java:308-323 | corrected `getKey(k)`: the slot of k's live bucket when k is in the map, else -1 |
| Hopscotch.HopScotchHashMap.ContainsKey | HopScotchHash/src/HopScotchHashMap.java:67-75 | `containsKey(k)` iff k is in the map |
| Hopscotch.HopScotchHashMap.Remove | HopScotchHash/src/HopScotchHashMap.java:190-201 | corrected `remove(k)`: returns k's value or null, takes k out of the map, and count drops only when k was present |
| Hopscotch.HopScotchHashMap.Clear | HopScotchHash/src/HopScotchHashMap.java:220-223 | a null table of length 11, count 0, the empty map; the MAD parameters are not redrawn |
| Hopscotch.HopScotchHashMap.Reset | HopScotchHash/src/HopScotchHashMap.java:281-283 | an empty table of length n and count 0 under the current parameters |
| Hopscotch.HopScotchHashMap.RedrawMad | HopScotchHash/src/HopScotchHashMap.java:414-418 | p becomes the least listed prime above n, a1 in [1, p-1] and b1 in [0, p-1] from two draws; with no such prime (the NullPointerException) nothing changes |
| Hopscotch.HopScotchHashMap.Regrow | HopScotchHash/src/HopScotchHashMap.java:278-292 | the table grows and holds exactly the old entries; when no larger prime exists the map ends empty at the largest length |
| Hopscotch.HopScotchHashMap.ReputAll | HopScotchHash/src/HopScotchHashMap.java:287-291 | regrow's loop re-puts the live buckets of the old table, so the map becomes exactly their entries |
| Hopscotch.HopScotchHashMap.PlaceNew | HopScotchHash/src/HopScotchHashMap.java:165-176 | a new key in an opened slot of its window joins the map with its value |
| Hopscotch.HopScotchHashMap.Overwrite | HopScotchHash/src/HopScotchHashMap.java:162-164 | a live key's bucket takes the new value and its old value is returned |
| Hopscotch.HopScotchHashMap.FindOpen | HopScotchHash/src/HopScotchHashMap.java:380-400 | the first slot after pos with no live bucket, every slot between holding one; running off the end regrows, keeping the map, and gives `Integer.MIN_VALUE` |
| Hopscotch.HopScotchHashMap.Hop | HopScotchHash/src/HopScotchHashMap.java:351-355 | one hop moves the open slot back to j, keeping the map and the hash |
| Hopscotch.HopScotchHashMap.OpenBucketInNeigh | HopScotchHash/src/HopScotchHashMap.java:341-371 | the open slot is hopped back until it lies in the window of neighStart, keeping the map; a null candidate regrows and gives `Integer.MIN_VALUE` |
| Hopscotch.HopScotchHashMap.Put | HopScotchHash/src/HopScotchHashMap.java:129-181 | corrected `put(k, v)`: the map becomes the old map with k bound to v and the result is k's old value or null; when the largest table fills up the map ends empty |
| HopscotchAsWritten.ScanAsWritten | HopScotchHash/src/HopScotchHashMap.java:106-116 | the loop of get and getKey as written: it finds -1 or a bucket with the key (deleted or not) inside the window, or throws |
| HopscotchAsWritten.GetAsWritten | HopScotchHash/src/HopScotchHashMap.java:101-119 | `get` as written throws exactly when getKey's scan does, and a value it returns comes from a live bucket with the key |
| HopscotchAsWritten.ContainsKeyAsWritten | HopScotchHash/src/HopScotchHashMap.java:67-75 | `containsKey` as written returns exactly when getKey's scan does |
| HopscotchAsWritten.RemoveAsWritten | HopScotchHash/src/HopScotchHashMap.java:190-201 | `remove` as written keeps the table's length and shape |
| HopscotchAsWritten.PutAsWritten | HopScotchHash/src/HopScotchHashMap.java:129-181 | `put` as written keeps the shape and never shrinks the table |
| HopscotchAsWritten.PlaceAsWritten | HopScotchHash/src/HopScotchHashMap.java:135-180 | the body of put after the load test keeps the shape and never shrinks the table |
| HopscotchAsWritten.FindOpenThenRetry | HopScotchHash/src/HopScotchHashMap.java:156-160 | findOpen then the retries after a regrow give a slot put can rely on |
| HopscotchAsWritten.RetryFindOpen | HopScotchHash/src/HopScotchHashMap.java:158-160 | the retry loop gives a slot put can rely on |
| HopscotchAsWritten.FindOpenAsWritten | HopScotchHash/src/HopScotchHashMap.java:380-400 | `findOpen` as written: without a regrow the table is unchanged and the slot is null, deleted or holds the key (negated); a regrow grows the table and gives `Integer.MIN_VALUE` |
| HopscotchAsWritten.CandidateAsWritten | HopScotchHash/src/HopScotchHashMap.java:346-360 | the candidate loop stops at a slot holding a bucket, or reports a null slot |
| HopscotchAsWritten.OpenBucketAsWritten | HopScotchHash/src/HopScotchHashMap.java:341-371 | `openBucketInNeigh` as written returns a slot of the table, or regrows and gives `Integer.MIN_VALUE` |
| HopscotchAsWritten.RegrowAsWritten | HopScotchHash/src/HopScotchHashMap.java:278-292 | `regrow` as written grows the table and keeps the shape |
| HopscotchAsWritten.ReputAsWritten | HopScotchHash/src/HopScotchHashMap.java:287-291 | regrow's loop as written never shrinks the table |
| HopscotchAsWritten.ScanIgnoresDeleted | HopScotchHash/src/HopScotchHashMap.java:106-116 | the scan of get and getKey never reads a deleted flag |
| HopscotchAsWritten.RemoveTwiceAsWritten | HopScotchHash/src/HopScotchHashMap.java:190-201 | as written, after removing a present key containsKey is still true while get is null, and a second remove returns the same value and decrements count again |
| HopscotchAsWritten.ScanRunsOffEnd | HopScotchHash/src/HopScotchHashMap.java:106-108 | the scan reads past the end of the table when the window runs past it and no bucket before the end holds the key |
| HopscotchAsWritten.GetRunsOffEnd | HopScotchHash/src/HopScotchHashMap.java:101-119 | as written, get and containsKey throw ArrayIndexOutOfBoundsException for a missing key whose window runs past the end over buckets only |
| HopscotchFindings.SmallHash | HopScotchHash/src/HopScotchHashMap.java:406-409 | with a1 = 1 and b1 = 0 the home of a non-negative key h is h % p % length |
| HopscotchFindings.GetOffEndExample | HopScotchHash/src/HopScotchHashMap.java:101-119 | as written, get(21) and containsKey(21) throw on a length-11 table whose last slot holds key 10 |
| HopscotchFindings.CrowdFindOpen | HopScotchHash/src/HopScotchHashMap.java:380-400 | findOpen from home 0 passes four keys and stops at the null slot 5 |
| HopscotchFindings.CrowdHops | HopScotchHash/src/HopScotchHashMap.java:341-371 | openBucketInNeigh hops once and returns slot 4, one past the window of home 0 |
| HopscotchFindings.CrowdPut | HopScotchHash/src/HopScotchHashMap.java:168-177 | put(34, 7) puts 34 into slot 4 |
| HopscotchFindings.OffByOneMisses | HopScotchHash/src/HopScotchHashMap.java:308-323 | the scan from home 0 stops before slot 4 |
| HopscotchFindings.OffByOneExample | HopScotchHash/src/HopScotchHashMap.java:366-370 | as written, put(34, 7) leaves 34 outside its window, so get(34) is null and containsKey(34) false |
| HopscotchFindings.RemoveTwiceExample | HopScotchHash/src/HopScotchHashMap.java:190-201 | as written, remove(11) twice returns 11's value both times and count drops from 5 to 3 |
| HopscotchFindings.ReputSkips | HopScotchHash/src/HopScotchHashMap.java:287-291 | regrow's loop passes over slots with no live bucket |
| HopscotchFindings.GrownPut | HopScotchHash/src/HopScotchHashMap.java:140-154 | put(10, 100) on the regrown table goes to its home |
| HopscotchFindings.LoneReput | HopScotchHash/src/HopScotchHashMap.java:287-291 | regrow's loop re-puts the single live key |
| HopscotchFindings.LoneRegrow | HopScotchHash/src/HopScotchHashMap.java:278-292 | regrow from length 11 gives length 23 under p = 53 with key 10 re-put |
| HopscotchFindings.NextPrimeAfter23 | HopScotchHash/src/HopScotchHashMap.java:415 | the least listed prime above 24 is 53 |
| HopscotchFindings.MovedRetry | HopScotchHash/src/HopScotchHashMap.java:158-160 | after the regrow the retry finds slot 11 |
| HopscotchFindings.LonePut | HopScotchHash/src/HopScotchHashMap.java:155-167 | put(21, 7) regrows inside findOpen, then places 21 in slot 11 using the home 10 of the old table |
| HopscotchFindings.StaleMisses | HopScotchHash/src/HopScotchHashMap.java:308-323 | in the regrown table 21's home is slot 21, which is null, so the scan misses |
| HopscotchFindings.StaleHomeExample | HopScotchHash/src/HopScotchHashMap.java:135-167 | as written, put(21, 7) after a regrow inside findOpen places 21 by its stale home, so get(21) is null and containsKey(21) false |
| HopscotchFindings.TombPut | HopScotchHash/src/HopScotchHashMap.java:140-154 | put(11, 7) over a tombstone at home writes a second live bucket for 11, and remove(11) then takes the first |
| HopscotchFindings.DupRemovedLookups | HopScotchHash/src/HopScotchHashMap.java:101-119 | after that remove, get(11) is null while containsKey(11) is true |
| HopscotchFindings.DuplicateExample | HopScotchHash/src/HopScotchHashMap.java:140-154 | as written, put over a tombstone at home does not look for a live copy further on: two live buckets hold 11, put returns the removed key's value, and a later remove leaves get null but containsKey true |
| HopscotchFindings.ReviveExample | HopScotchHash/src/HopScotchHashMap.java:390-392 | as written, findOpen matches a tombstone of the key, so put returns the removed value 6 and leaves count at 1 with two live keys |

## Left out

- `containsValue`, `putAll`, `keySet`, `values` and `entrySet` of the Cuckoo map and of the Hopscotch map: bulk operations and views built on the same loops over the tables; the skip list's versions of these views are modelled.
- `SkipList.putAll` and `getBottomSentinel`: `putAll` is a loop of `put`, and the walk to the bottom level is the index 0 of the level sequence.
- The bucket arrays of both hash maps, the heap's and the sorted list's `ArrayList`, and the skip list's and lazy list's nodes are sequences (or an arena of records with integer links) rather than shared objects, so aliasing between nodes is not modelled.
- The state a hash map is left in after a `NullPointerException` from `redrawMAD` (no listed prime is large enough) is modelled as the empty map at the largest table length; the exception itself is not propagated.
- The load-factor tests compare `double` quotients; the model uses the equivalent integer cross-multiplication, exact for these table lengths.
- Java's `hashCode`, `equals` and `compareTo` of the key and element types are parameters: hash codes are functions `K -> int`, equality is Dafny equality, and tree elements are `int`s rather than arbitrary `Comparable`s.
- GrowableArrays.GrowableArray.constructor: takes a non-negative capacity; a negative one, which the source answers with `NegativeArraySizeException`, goes through `NewGrowableArray`, because a Dafny constructor cannot return an exception.
- The HW6 `Comparator` is a key function `T -> int`: comparators that are not induced by a key are not modelled.
- Null keys, items and values are `Option`s where the source tests for null (tree items, bucket slots, skip list values); null values stored in a map are not modelled.
- `dumpContainer` of the heap and of the sorted list: printing only.
- The `remove` of the tree iterators and of the lazy list iterator: each only throws `UnsupportedOperationException`.
- Huffman: `HashMap` key iteration order is left unspecified (any order is allowed), `PriorityQueue` ties are broken by queue position, and the `'0'` character stored in internal nodes is not modelled because nothing reads it.
- SkipLists.SkipList.Put: requires a key strictly between `Integer.MIN_VALUE` and `Integer.MAX_VALUE`; on a sentinel's key the source overwrites the sentinel's value, which the model does not describe.
- SkipLists.SkipList.Remove: requires a key strictly between the sentinel keys; on a sentinel's key the source unlinks a sentinel and throws `NullPointerException`.
- HopscotchAsWritten.OpenBucketAsWritten: the hops are bounded by a fuel equal to the table length, and running out is reported as `Diverges` rather than modelled as non-termination.
- Huffman.HuffmanEncoder.Decoder: a decoding loop that never advances (the empty string as a codeword) is reported as `Diverges` rather than as non-termination.
- The Cuckoo map's count of removals not yet rebuilt away (`Removed`) is ghost bookkeeping for the as-written `remove`.

## Findings

| source | as written | input that shows it | evidently intended | confidence | as-written member | corrected member |
|---|---|---|---|---|---|---|
| HW5/src/CuckooMap.java:194-206 | `remove` tombstones the bucket but decrements neither `count1` nor `count2`, so `size()` still counts removed keys | a new map, `put(k, v)`, `remove(k)`: `size()` is 1 | `size()` drops by one when a key is removed | not executed | Cuckoo.SizeAfterRemove | Cuckoo.SizeAfterRemoveCounted |
| HuffmanEncoder/src/HuffmanEncoder.java:40-47 | a tree that is a single leaf gives its character the empty code, so the text encodes to "" and decodes to "" (and decoding any non-empty text against that cipher never advances) | `encode("aaa")` | every text decodes back to itself, a lone character getting a one-bit code | not executed | Huffman.SingleSymbolLost | Huffman.FixedRoundTrip |
| HW3/src/BST.java:415-436 | the loop steps to `temp1.right` without checking for null | the tree of HW3/src/Driver.java, `floor(21)`: NullPointerException at node 20 | 20, the greatest element below 21 | not executed | BinarySearchTrees.FloorCounterexample | BinarySearchTrees.FloorBelowExamples |
| HW3/src/BST.java:415-436 | `firstLessThan` stops at an element equal to the value, so floor returns the value itself when present | the tree of HW3/src/Driver.java, `floor(34)`: 34 | 27, the greatest element strictly below 34 (as `floor(45)` is 34 and `floor(27)` is 24 there) | not executed | BinarySearchTrees.FloorMeaning | BinarySearchTrees.FloorBelowMeaning |
| HW4/AVLTree.java:434-446 | `floor` calls `min(root)` before checking for an empty tree | a new AVLTree, `floor(5)`: NullPointerException | null, as no element lies below 5 | not executed | AvlTrees.FloorMeaning | BinarySearchTrees.FloorBelowMeaning |
| HW8/src/SkipList.java:47-57 | the walk can stop at a sentinel, whose key then matches | a new SkipList, `containsKey(Integer.MIN_VALUE)` and `containsKey(Integer.MAX_VALUE)`: both true | false: the map holds no entry | not executed | SkipLists.EmptyListHasSentinelKeys | SkipLists.EmptyListGuarded |
| HW2/src/LazyDeleteLinkedList.java:36-38 | compress's tail branch clears the new tail's `left` link instead of its `right` link, so the removed node stays reachable | add(1), add(2), remove(2), then iterate: 1 and 2 | 1 only | not executed | LazyLists.TailUnlinkAsWritten | LazyLists.LazyDeleteLinkedList.Iterator |
| HW2/src/LazyDeleteLinkedList.java:36-38 | having cleared that `left` link, a second tail pop finds no node before the tail | add(1), add(2), add(3), remove(2), remove(3), compress: NullPointerException | compress returns 2 and the list holds [1] | not executed | LazyLists.TailUnlinkThrows | LazyLists.LazyDeleteLinkedList.Compress |
| HW2/src/LazyDeleteLinkedList.java:42-43 | the middle branch points the left neighbour past the node but never points the right neighbour back | add(1), add(2), add(3), remove(3), remove(2), then iterate: 1 and 3 | 1 only | not executed | LazyLists.MiddleUnlinkAsWritten | LazyLists.LazyDeleteLinkedList.Compress |
| HW2/src/LazyDeleteLinkedList.java:124-134 | `iterator()` reads `head` before the iterator's constructor runs compress, which may move the head | add(1), add(2), remove(1), then iterate: 1 and 2 | 2 only | not executed | LazyLists.StaleHeadAsWritten | LazyLists.LazyDeleteLinkedList.Iterator |
| HopScotchHash/src/HopScotchHashMap.java:190-201 | `getKey` matches tombstones, so a removed key stays found: `containsKey` stays true and a second `remove` returns the value again and decrements count again | keys 0, 11, 22, 23 at home 0 and 4 at home 4 in a length-11 table; `remove(11)` twice: count goes from 5 to 3 | the second `remove` returns null and count drops once | not executed | HopscotchFindings.RemoveTwiceExample | Hopscotch.HopScotchHashMap.Remove |
| HopScotchHash/src/HopScotchHashMap.java:366-370 | the hop loop stops when the open slot is at most four past the home, one slot outside the four-slot window `get` scans | that table, `put(34, 7)`: 34 lands in slot 4 and `get(34)` is null | 34 placed within slots 0 to 3 | not executed | HopscotchFindings.OffByOneExample | Hopscotch.HopScotchHashMap.OpenBucketInNeigh |
| HopScotchHash/src/HopScotchHashMap.java:155-167 | after a regrow inside `findOpen`, put keeps the home computed for the old table | length 11 with key 10 in slot 10; `put(21, 7)`: 21 lands in slot 11 under home 10, but its home is now 21, and `get(21)` is null | put starts over on the regrown table | not executed | HopscotchFindings.StaleHomeExample | Hopscotch.HopScotchHashMap.Put |
| HopScotchHash/src/HopScotchHashMap.java:101-119 | `spine[i]` is read before `i` is compared with the window's end, so a window that runs past the table reads out of bounds | length 11 with key 10 in slot 10; `get(21)`: ArrayIndexOutOfBoundsException | null | not executed | HopscotchFindings.GetOffEndExample | Hopscotch.HopScotchHashMap.Get |
| HopScotchHash/src/HopScotchHashMap.java:140-154 | a tombstone at the home takes the new bucket without looking for a live copy of the key further on | slot 0 a tombstone of 0, slot 1 key 11; `put(11, 7)` returns 5 and leaves two live 11s; then `remove(11)` leaves `get(11)` null while `containsKey(11)` is true | put replaces 11's live bucket and returns 6 | not executed | HopscotchFindings.DuplicateExample | Hopscotch.HopScotchHashMap.Put |
| HopScotchHash/src/HopScotchHashMap.java:390-392 | `findOpen` compares keys before the deleted flag, so a tombstone of the key counts as the live key | slot 0 key 0, slot 1 a tombstone of 11; `put(11, 7)` returns 6 and count stays 1 with two live keys | put returns null and count becomes 2 | not executed | HopscotchFindings.ReviveExample | Hopscotch.HopScotchHashMap.FindOpen |
