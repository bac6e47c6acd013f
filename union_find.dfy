/**
 * The array-based union-find of HW7. Vertices are numbered 0..n-1 through a
 * pair of inverse maps; `sets[i]` is the parent index of i, or negative when i
 * is the representative of its set.
 *
 * The parent array is proved to stay a forest: a ghost level per index that
 * strictly increases from child to parent, bounded by a ghost Top, is the
 * witness, and it is also what makes find terminate.
 */
module UnionFinds {

  /** Parent links never leave the array and always climb to a strictly higher level. */
  ghost predicate Forest(s: seq<int>, level: seq<nat>, top: nat)
  {
    |level| == |s| &&
    forall i :: 0 <= i < |s| ==> level[i] <= top && (s[i] >= 0 ==> s[i] < |s| && level[i] < level[s[i]])
  }

  /** The representative reached from i by following parent links. */
  ghost function Root(s: seq<int>, level: seq<nat>, top: nat, i: int): (r: int)
    requires Forest(s, level, top) && 0 <= i < |s|
    ensures 0 <= r < |s| && s[r] < 0
    ensures s[i] < 0 ==> r == i
    decreases top - level[i]
  {
    if s[i] < 0 then i else Root(s, level, top, s[i])
  }

  /**
   * Why union demands two different sets: linking a representative under
   * itself leaves a self-loop, which no assignment of levels can order, and
   * find would then never return.
   */
  lemma SelfLinkIsNoForest(s: seq<int>, level: seq<nat>, top: nat, r: int)
    requires 0 <= r < |s|
    ensures !Forest(s[r := r], level, top)
  {
    var t := s[r := r];
    assert t[r] == r;
  }

  function Max(a: int, b: int): int
  {
    if a < b then b else a
  }

  /** Linking root rv under root ru keeps the forest, with ru's level raised above rv's. */
  lemma LinkForest(s: seq<int>, level: seq<nat>, top: nat, ru: int, rv: int)
    requires Forest(s, level, top)
    requires 0 <= ru < |s| && 0 <= rv < |s| && s[ru] < 0 && s[rv] < 0 && ru != rv
    ensures Forest(s[rv := ru], level[ru := Max(level[ru], level[rv] + 1)], Max(top, level[rv] + 1))
  {
  }

  /**
   * After linking root rv under root ru, exactly the indices whose root was rv
   * have root ru; every other index keeps its root.
   */
  lemma {:induction false} RootAfterLink(s: seq<int>, level: seq<nat>, top: nat, ru: int, rv: int, w: int)
    requires Forest(s, level, top)
    requires 0 <= ru < |s| && 0 <= rv < |s| && s[ru] < 0 && s[rv] < 0 && ru != rv
    requires 0 <= w < |s|
    ensures Forest(s[rv := ru], level[ru := Max(level[ru], level[rv] + 1)], Max(top, level[rv] + 1))
    ensures var r := Root(s, level, top, w);
      Root(s[rv := ru], level[ru := Max(level[ru], level[rv] + 1)], Max(top, level[rv] + 1), w) ==
      if r == rv then ru else r
    decreases top - level[w]
  {
    LinkForest(s, level, top, ru, rv);
    if s[w] >= 0 {
      RootAfterLink(s, level, top, ru, rv, s[w]);
    }
  }

  /** The levels of n singleton sets. */
  function Zeros(n: nat): (r: seq<nat>)
    ensures |r| == n && forall i :: 0 <= i < n ==> r[i] == 0
  {
    seq(n, _ => 0)
  }

  /** Every index a representative of its own: the state after make-set. */
  lemma AllRoots(s: seq<int>)
    requires forall i :: 0 <= i < |s| ==> s[i] == -1
    ensures Forest(s, Zeros(|s|), 0)
    ensures forall i :: 0 <= i < |s| ==> Root(s, Zeros(|s|), 0, i) == i
  {
  }

  class UnionFind<V(==)> {
    var vertexMap: map<V, int>
    var intMap: map<int, V>
    var sets: array<int>
    ghost var Level: seq<nat>
    ghost var Top: nat

    /** The two maps are inverse bijections between the vertices and 0..n-1, and the parents form a forest. */
    ghost predicate Valid()
      reads this, sets
    {
      Forest(sets[..], Level, Top) &&
      (forall i :: i in intMap <==> 0 <= i < sets.Length) &&
      (forall v :: v in vertexMap ==> 0 <= vertexMap[v] < sets.Length && intMap[vertexMap[v]] == v) &&
      (forall i :: i in intMap ==> intMap[i] in vertexMap && vertexMap[intMap[i]] == i)
    }

    /** The representative of v's set. */
    ghost function RootOf(v: V): int
      requires Valid() && v in vertexMap
      reads this, sets
    {
      Root(sets[..], Level, Top, vertexMap[v])
    }

    /** UnionFind(vertexes), make-set: the i-th vertex of the iteration gets index i and is alone in its set. */
    constructor (vertexes: seq<V>)
      requires forall i, j :: 0 <= i < j < |vertexes| ==> vertexes[i] != vertexes[j]
      ensures Valid() && fresh(sets) && sets.Length == |vertexes|
      ensures vertexMap.Keys == set v | v in vertexes
      ensures forall i :: 0 <= i < |vertexes| ==> vertexMap[vertexes[i]] == i && intMap[i] == vertexes[i]
      ensures forall i :: 0 <= i < sets.Length ==> sets[i] == -1
      ensures forall v :: v in vertexMap ==> RootOf(v) == vertexMap[v]
    {
      vertexMap := map[];
      intMap := map[];
      sets := new int[|vertexes|];
      new;
      for i := 0 to |vertexes|
        invariant fresh(sets) && sets.Length == |vertexes|
        invariant vertexMap.Keys == set v | v in vertexes[..i]
        invariant forall j :: j in intMap <==> 0 <= j < i
        invariant forall j :: 0 <= j < i ==> vertexMap[vertexes[j]] == j && intMap[j] == vertexes[j]
        invariant forall j :: 0 <= j < i ==> sets[j] == -1
      {
        var vert := vertexes[i];
        vertexMap := vertexMap[vert := i];
        intMap := intMap[i := vert];
        sets[i] := -1;
      }
      Level, Top := Zeros(sets.Length), 0;
      AllRoots(sets[..]);
      assert vertexes[..|vertexes|] == vertexes;
    }

    /** find(u): follows parent links from u's index to a negative entry and returns that index. */
    method Find(u: V) returns (r: int)
      requires Valid() && u in vertexMap
      ensures r == RootOf(u) && 0 <= r < sets.Length && sets[r] < 0
      decreases Top - Level[vertexMap[u]]
    {
      var uI := vertexMap[u];
      if sets[uI] < 0 {
        return vertexMap[u];
      }
      r := Find(intMap[sets[uI]]);
    }

    /**
     * union(u, v) for u and v in different sets: the representative of v's
     * set is linked under that of u's. That one array cell is the only change.
     */
    method Union(u: V, v: V)
      requires Valid() && u in vertexMap && v in vertexMap && RootOf(u) != RootOf(v)
      modifies this, sets
      ensures Valid() && vertexMap == old(vertexMap) && intMap == old(intMap) && sets == old(sets)
      ensures sets[..] == old(sets[..])[old(RootOf(v)) := old(RootOf(u))]
      ensures RootOf(u) == RootOf(v) == old(RootOf(u))
      ensures forall w :: w in vertexMap ==>
        RootOf(w) == if old(RootOf(w)) == old(RootOf(v)) then old(RootOf(u)) else old(RootOf(w))
    {
      var rv := Find(v);
      var ru := Find(u);
      ghost var s, level, top := sets[..], Level, Top;
      sets[rv] := ru;
      assert sets[..] == s[rv := ru];
      Level, Top := level[ru := Max(level[ru], level[rv] + 1)], Max(top, level[rv] + 1);
      LinkForest(s, level, top, ru, rv);
      assert Valid();
      forall w | w in vertexMap
        ensures RootOf(w) == if Root(s, level, top, vertexMap[w]) == rv then ru else Root(s, level, top, vertexMap[w])
      {
        RootAfterLink(s, level, top, ru, rv, vertexMap[w]);
      }
    }
  }

  /** After union(u, v), find(u) and find(v) agree. */
  method UnionThenFind<V(==)>(uf: UnionFind<V>, u: V, v: V) returns (fu: int, fv: int)
    requires uf.Valid() && u in uf.vertexMap && v in uf.vertexMap && uf.RootOf(u) != uf.RootOf(v)
    modifies uf, uf.sets
    ensures fu == fv
  {
    uf.Union(u, v);
    fu := uf.Find(u);
    fv := uf.Find(v);
  }
}
