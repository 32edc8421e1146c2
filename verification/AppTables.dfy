/** Applications kept in a map and in two heaps that must hold the same entries. */
module AppTables {
  import opened HeapModel
  import opened Heaps

  ghost predicate Rankable(order: Order, s: set<Entry>)
    reads s
  {
    forall e :: e in s ==> CanRank(order, e)
  }

  ghost function RankMap(order: Order, s: set<Entry>): map<Entry, int>
    requires Rankable(order, s)
    reads s
  {
    map e | e in s :: Rank(order, e)
  }

  /** `heap` is a live heap of exactly the entries in `s`. */
  ghost predicate Holds(heap: Heap, s: set<Entry>)
    reads heap, heap.h, s
  {
    !heap.snapshot && Elems(heap.h) == s && Rankable(heap.order, s) && heap.Valid(RankMap(heap.order, s))
  }

  predicate UsesFirst(order: Order) {
    order == ByTimeMin || order == ByFirstMark
  }

  /** An entry in a heap is found at the place it records. */
  lemma PlaceIsTrue(heap: Heap, s: set<Entry>, y: Entry)
    requires Holds(heap, s) && y in s
    ensures 0 <= Place(heap.order, y) < |heap.h| && heap.h[Place(heap.order, y)] == y
  {
    var p :| 0 <= p < |heap.h| && heap.h[p] == y;
  }

  lemma HoldsRank(heap: Heap, s: set<Entry>, k: map<Entry, int>)
    requires !heap.snapshot && Elems(heap.h) == s && heap.Valid(k)
    ensures Holds(heap, s)
  {
    forall e | e in s ensures e in k && CanRank(heap.order, e) && k[e] == Rank(heap.order, e) {
      var p :| 0 <= p < |heap.h| && heap.h[p] == e;
    }
    assert forall i :: 0 <= i < |heap.h| ==> heap.h[i] in s;
  }

  /** Two heaps that hold `s1` and `s2` and record places in different fields. */
  ghost predicate Twins(a: Heap, b: Heap, s1: set<Entry>, s2: set<Entry>)
    reads a, a.h, b, b.h, s1, s2
  {
    a != b && UsesFirst(a.order) != UsesFirst(b.order) && Holds(a, s1) && Holds(b, s2)
  }

  method PopHeld(a: Heap, ghost s: set<Entry>) returns (y: Entry)
    requires Holds(a, s) && |a.h| > 0
    modifies a`h, s`first, s`second
    ensures y in s && Holds(a, s - {y}) && |a.h| == old(|a.h|) - 1
    ensures forall e :: e in s ==> CanRank(a.order, e) && Rank(a.order, y) <= Rank(a.order, e)
    ensures forall e :: e in s ==> OtherPlace(a.order, e) == old(OtherPlace(a.order, e))
  {
    hide NoDup, Ordered;
    ghost var k := RankMap(a.order, s);
    LeastIsFirst(a, s);
    y := a.Pop(k);
    HoldsRank(a, s - {y}, k);
  }

  method PopFrom(a: Heap, ghost b: Heap, ghost s1: set<Entry>, ghost s2: set<Entry>) returns (y: Entry)
    requires Twins(a, b, s1, s2) && |a.h| > 0
    modifies a`h, s1`first, s1`second
    ensures y in s1 && Twins(a, b, s1 - {y}, s2) && |a.h| == old(|a.h|) - 1
    ensures forall e :: e in s1 ==> CanRank(a.order, e) && Rank(a.order, y) <= Rank(a.order, e)
    ensures Place(b.order, y) == old(Place(b.order, y))
  {
    hide NoDup, Ordered, Elems;
    ghost var k2 := RankMap(b.order, s2);
    y := PopHeld(a, s1);
    assert b.Valid(k2);
    HoldsRank(b, s2, k2);
  }

  lemma LeastIsFirst(heap: Heap, s: set<Entry>)
    requires Holds(heap, s) && |heap.h| > 0
    ensures heap.h[0] in s
    ensures forall e :: e in s ==> Rank(heap.order, heap.h[0]) <= Rank(heap.order, e)
  {
    var k := RankMap(heap.order, s);
    forall e | e in s ensures k[heap.h[0]] <= k[e] {
      var p :| 0 <= p < |heap.h| && heap.h[p] == e;
      RootIsLeast(heap.h, k, |heap.h|, p);
    }
  }

  /** `heap.Remove` at the place the entry records: it removes that very entry. */
  method RemoveFrom(a: Heap, ghost b: Heap, y: Entry, ghost s1: set<Entry>, ghost s2: set<Entry>) returns (z: Entry)
    requires Twins(a, b, s1, s2) && y in s1
    modifies a`h, s1`first, s1`second
    ensures z == y && Twins(a, b, s1 - {y}, s2) && |a.h| == old(|a.h|) - 1
    ensures Place(b.order, y) == old(Place(b.order, y))
  {
    hide NoDup, Ordered;
    ghost var k, k2 := RankMap(a.order, s1), RankMap(b.order, s2);
    PlaceIsTrue(a, s1, y);
    z := a.RemoveAt(if UsesFirst(a.order) then y.first else y.second, k);
    HoldsRank(a, s1 - {y}, k);
    assert b.Valid(k2);
    HoldsRank(b, s2, k2);
  }

  method PushHeld(a: Heap, y: Entry, ghost s: set<Entry>)
    requires Holds(a, s) && y !in s && CanRank(a.order, y)
    modifies a`h, (s + {y})`first, (s + {y})`second
    ensures Holds(a, s + {y}) && |a.h| == old(|a.h|) + 1
    ensures forall e :: e in s + {y} ==> OtherPlace(a.order, e) == old(OtherPlace(a.order, e))
  {
    hide NoDup, Ordered;
    ghost var k := RankMap(a.order, s)[y := Rank(a.order, y)];
    Rerank(a, RankMap(a.order, s), k);
    a.Push(y, k);
    HoldsRank(a, s + {y}, k);
  }

  method PushTo(a: Heap, ghost b: Heap, y: Entry, ghost s1: set<Entry>, ghost s2: set<Entry>)
    requires Twins(a, b, s1, s2) && y !in s1 && CanRank(a.order, y)
    modifies a`h, (s1 + {y})`first, (s1 + {y})`second
    ensures Twins(a, b, s1 + {y}, s2) && |a.h| == old(|a.h|) + 1
    ensures Place(b.order, y) == old(Place(b.order, y))
  {
    hide NoDup, Ordered, Elems;
    ghost var k2 := RankMap(b.order, s2);
    PushHeld(a, y, s1);
    assert b.Valid(k2);
    HoldsRank(b, s2, k2);
  }

  lemma Rerank(heap: Heap, k: map<Entry, int>, k': map<Entry, int>)
    requires heap.Valid(k) && forall e :: e in heap.h ==> e in k && e in k' && k'[e] == k[e]
    ensures heap.Valid(k')
  {
  }

  /** Takes `y` out of both heaps, where it records its places; what comes out is `y` both times. */
  method Detach(a: Heap, b: Heap, y: Entry, ghost s: set<Entry>) returns (z1: Entry, z2: Entry)
    requires Twins(a, b, s, s) && y in s
    modifies a`h, b`h, s`first, s`second
    ensures z1 == z2 == y && Twins(a, b, s - {y}, s - {y}) && y !in a.h && y !in b.h
    ensures |a.h| == old(|a.h|) - 1
  {
    hide Holds;
    z1 := RemoveFrom(a, b, y, s, s);
    z2 := RemoveFrom(b, a, y, s, s - {y});
    HeldOnly(a, s - {y}, y);
    HeldOnly(b, s - {y}, y);
  }

  method Attach(a: Heap, b: Heap, y: Entry, ghost s: set<Entry>)
    requires Twins(a, b, s, s) && y !in s && CanRank(a.order, y) && CanRank(b.order, y)
    modifies a`h, b`h, (s + {y})`first, (s + {y})`second
    ensures Twins(a, b, s + {y}, s + {y}) && |a.h| == old(|a.h|) + 1
  {
    hide Holds;
    PushTo(a, b, y, s, s);
    PushTo(b, a, y, s, s + {y});
  }

  lemma HeldOnly(heap: Heap, s: set<Entry>, y: Entry)
    requires Holds(heap, s) && y !in s
    ensures y !in heap.h
  {
  }

  lemma EmptyHeld(heap: Heap, s: set<Entry>)
    requires Holds(heap, s)
    ensures |heap.h| == 0 <==> s == {}
  {
    if |heap.h| > 0 {
      assert heap.h[0] in Elems(heap.h);
    }
  }

  lemma {:induction false} NoDupSize<T>(h: seq<T>)
    requires NoDup(h)
    ensures |Elems(h)| == |h|
    decreases |h|
  {
    if h != [] {
      NoDupSize(h[1..]);
      assert Elems(h) == {h[0]} + Elems(h[1..]);
    }
  }

  // ---------- Popping a snapshot ----------

  /** `out` lists distinct entries of `all` by rank; the others, `rest`, rank no lower. */
  ghost predicate Popped(out: seq<Entry>, rest: set<Entry>, all: set<Entry>, k: map<Entry, int>) {
    && k.Keys == all && Elems(out) + rest == all && Elems(out) !! rest && NoDup(out)
    && (forall p, q :: 0 <= p < q < |out| ==> k[out[p]] <= k[out[q]])
    && (forall p, e :: 0 <= p < |out| && e in rest ==> k[out[p]] <= k[e])
  }

  lemma NothingPopped(all: set<Entry>, k: map<Entry, int>)
    requires k.Keys == all
    ensures Popped([], all, all, k)
  {
    assert Elems<Entry>([]) + all == all;
  }

  lemma PopNext(out: seq<Entry>, rest: set<Entry>, all: set<Entry>, k: map<Entry, int>, z: Entry)
    requires Popped(out, rest, all, k) && z in rest && forall e :: e in rest ==> k[z] <= k[e]
    ensures Popped(out + [z], rest - {z}, all, k)
  {
    assert Elems(out + [z]) == Elems(out) + {z};
    assert forall p :: 0 <= p < |out| ==> out[p] in Elems(out);
  }

  /** A copy of a heap's slice is a heap of the same entries. */
  lemma SnapshotValid(live: Heap, copy: Heap, k: map<Entry, int>)
    requires live.Valid(k) && copy.h == live.h && copy.order == live.order && copy.snapshot
    ensures copy.Valid(k)
  {
  }

  lemma SnapshotLeast(heap: Heap, k: map<Entry, int>)
    requires heap.Valid(k) && |heap.h| > 0
    ensures heap.h[0] in Elems(heap.h)
    ensures forall e :: e in Elems(heap.h) ==> e in k && k[heap.h[0]] <= k[e]
  {
    forall e | e in Elems(heap.h) ensures e in k && k[heap.h[0]] <= k[e] {
      var p :| 0 <= p < |heap.h| && heap.h[p] == e;
      RootIsLeast(heap.h, k, |heap.h|, p);
    }
  }

  /** Pops the next entry of a snapshot; no entry's recorded places change. */
  method PopSnapshot(a: Heap, ghost k: map<Entry, int>, ghost out: seq<Entry>, ghost all: set<Entry>) returns (z: Entry)
    requires a.snapshot && a.Valid(k) && |a.h| > 0 && Popped(out, Elems(a.h), all, k)
    modifies a`h
    ensures a.Valid(k) && |a.h| == old(|a.h|) - 1 && Popped(out + [z], Elems(a.h), all, k)
    ensures z in all && z in k && forall e :: e in old(Elems(a.h)) ==> e in k && k[z] <= k[e]
  {
    hide NoDup, Ordered, Heap.Indexed;
    SnapshotLeast(a, k);
    PopNext(out, Elems(a.h), all, k, a.h[0]);
    z := a.Pop(k);
  }
}
