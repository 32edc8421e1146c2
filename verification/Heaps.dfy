/** The heaps of application entries, with each entry's places written back into it. */
module Heaps {
  import opened HeapModel
  import opened TimeSlots

  /**
   * An entry of either statistic. Active apps use `t`, top apps use `slots` and `n`;
   * `first` and `second` are the entry's places in the two heaps of its owner.
   */
  class Entry {
    const applicationId: string
    var t: int
    var slots: seq<TimeSlot>
    var n: int
    var first: int
    var second: int

    constructor (applicationId: string)
      ensures this.applicationId == applicationId && t == 0 && slots == [] && n == 0
    {
      this.applicationId := applicationId;
      t, slots, n, first, second := 0, [], 0, 0, 0;
    }

    /** `topAppsEntry.Mark`: one more request in the latest slot, which is new if time went on. */
    method MarkRequest(now: int)
      modifies this`slots, this`n
      ensures slots == Marked(old(slots), now) && n == old(n) + 1
    {
      var l := |slots|;
      if l == 0 || slots[l - 1].t < now {
        slots := slots + [TimeSlot(now, 0)];
        l := |slots|;
      }
      slots := slots[l - 1 := TimeSlot(slots[l - 1].t, slots[l - 1].n + 1)];
      n := n + 1;
    }

    /** `topAppsEntry.Trim`: slots up to and including `until` go, and their requests are taken off the count. */
    method TrimSlots(until: int)
      modifies this`slots, this`n
      ensures slots == Later(old(slots), until)
      ensures n == old(n) - (Sum(old(slots)) - Sum(slots))
    {
      var l, i, gone := |slots|, 0, 0;
      while i < l
        invariant 0 <= i <= l == |slots| && Later(slots[i..], until) == Later(slots, until)
        invariant gone + Sum(slots[i..]) == Sum(slots)
        invariant slots == old(slots) && n == old(n)
      {
        if slots[i].t > until {
          break;
        }
        assert slots[i..][1..] == slots[i + 1..];
        gone := gone + slots[i].n;
        i := i + 1;
      }
      assert Later(slots[i..], until) == slots[i..];
      slots := slots[i..];
      n := n - gone;
    }

    /** `activeAppsEntry.Mark`: time does not go back. */
    method MarkActive(now: int)
      modifies this`t
      ensures t == if old(t) < now then now else old(t)
    {
      if t < now {
        t := now;
      }
    }
  }

  datatype Order = ByTimeMin | ByTimeMax | ByFirstMark | ByRequests

  /** `Less` compares ranks; the first-mark order needs a slot to look at. */
  predicate CanRank(order: Order, e: Entry)
    reads e`slots
  {
    order == ByFirstMark ==> |e.slots| > 0
  }

  function Rank(order: Order, e: Entry): int
    requires CanRank(order, e)
    reads e`t, e`slots, e`n
  {
    match order
    case ByTimeMin => e.t
    case ByTimeMax => -e.t
    case ByFirstMark => e.slots[0].t
    case ByRequests => -e.n
  }

  /** Where the entry records its place for this order. */
  function Place(order: Order, e: Entry): int
    reads e`first, e`second
  {
    if order == ByTimeMin || order == ByFirstMark then e.first else e.second
  }

  function OtherPlace(order: Order, e: Entry): int
    reads e`first, e`second
  {
    if order == ByTimeMin || order == ByFirstMark then e.second else e.first
  }

  class Heap {
    var h: seq<Entry>
    const order: Order
    /** A snapshot does not write places back. */
    const snapshot: bool

    constructor (order: Order, snapshot: bool, h: seq<Entry>)
      ensures this.order == order && this.snapshot == snapshot && this.h == h
    {
      this.order, this.snapshot, this.h := order, snapshot, h;
    }

    ghost predicate Indexed()
      reads this, h
    {
      !snapshot ==> forall i :: 0 <= i < |h| ==> Place(order, h[i]) == i
    }

    /** `k` gives the ranks of the entries. */
    ghost predicate RanksAre(k: map<Entry, int>)
      reads this, h
    {
      Ranked(h, k) && forall i :: 0 <= i < |h| ==> CanRank(order, h[i]) && k[h[i]] == Rank(order, h[i])
    }

    ghost predicate Sound(k: map<Entry, int>)
      reads this, h
    {
      NoDup(h) && Indexed() && RanksAre(k)
    }

    ghost predicate Valid(k: map<Entry, int>)
      reads this, h
    {
      Sound(k) && Ordered(h, k, |h|)
    }

    predicate Less(i: nat, j: nat)
      requires i < |h| && j < |h| && CanRank(order, h[i]) && CanRank(order, h[j])
      reads this, h
    {
      Rank(order, h[i]) < Rank(order, h[j])
    }

    /** The entries whose places this heap writes. */
    ghost function Touched(): set<Entry>
      reads this
    {
      if snapshot then {} else Elems(h)
    }

    method SetIndex(e: Entry, j: int)
      modifies (if snapshot then {} else {e})`first, (if snapshot then {} else {e})`second
      ensures !snapshot ==> Place(order, e) == j
      ensures OtherPlace(order, e) == old(OtherPlace(order, e))
    {
      if !snapshot {
        if order == ByTimeMin || order == ByFirstMark {
          e.first := j;
        } else {
          e.second := j;
        }
      }
    }

    method Swap(i: nat, j: nat, ghost k: map<Entry, int>)
      requires Sound(k) && i < |h| && j < |h|
      modifies this`h, Touched()`first, Touched()`second
      ensures Sound(k) && h == Swapped(old(h), i, j) && Elems(h) == old(Elems(h))
      ensures forall e :: e in Elems(h) ==> OtherPlace(order, e) == old(OtherPlace(order, e))
    {
      SwapKeeps(h, i, j, k);
      h := h[i := h[j]][j := h[i]];
      SetIndex(h[i], i);
      SetIndex(h[j], j);
    }

    method Up(start: nat, ghost n: nat, ghost k: map<Entry, int>)
      requires Sound(k) && start < n <= |h| && Rising(h, k, n, start)
      modifies this`h, Touched()`first, Touched()`second
      ensures |h| == old(|h|) && Sound(k) && Ordered(h, k, n) && Elems(h) == old(Elems(h))
      ensures h[n..] == old(h[n..])
      ensures forall e :: e in Elems(h) ==> OtherPlace(order, e) == old(OtherPlace(order, e))
    {
      hide NoDup, Heap.Indexed;
      var j: nat := start;
      while true
        invariant Sound(k) && j < n <= |h| == old(|h|) && Rising(h, k, n, j)
        invariant Elems(h) == old(Elems(h)) && h[n..] == old(h[n..])
        invariant forall e :: e in Elems(h) ==> OtherPlace(order, e) == old(OtherPlace(order, e))
        decreases j
      {
        var i: nat := if j == 0 then 0 else (j - 1) / 2;
        if i == j || !Less(j, i) {
          break;
        }
        SwapKeeps(h, i, j, k);
        RiseStep(h, k, n, j);
        Swap(i, j, k);
        j := i;
      }
    }

    /** The child of `i` with the lower rank, the right one on a tie. */
    method LowerChild(i: nat, n: nat, ghost k: map<Entry, int>) returns (j: nat)
      requires RanksAre(k) && 2 * i + 1 < n <= |h|
      ensures i < j < n && Parent(j) == i
      ensures forall c :: 1 <= c < n && Parent(c) == i ==> k[h[j]] <= k[h[c]]
    {
      j := 2 * i + 1;
      if j + 1 < n && !Less(j, j + 1) {
        j := j + 1;
      }
      assert forall c :: 1 <= c < n && Parent(c) == i ==> c == 2 * i + 1 || c == 2 * i + 2;
    }

    method Down(i0: nat, n: nat, ghost k: map<Entry, int>)
      requires Sound(k) && i0 <= n <= |h| && i0 < |h| && Sinking(h, k, n, i0, i0)
      modifies this`h, Touched()`first, Touched()`second
      ensures |h| == old(|h|) && Sound(k) && Rising(h, k, n, i0) && Elems(h) == old(Elems(h))
      ensures h[n..] == old(h[n..])
      ensures forall e :: e in Elems(h) ==> OtherPlace(order, e) == old(OtherPlace(order, e))
    {
      hide NoDup, Heap.Indexed, Sinking, Rising, Less;
      var i := i0;
      while true
        invariant Sound(k) && i0 <= i <= n <= |h| == old(|h|) && i < |h| && Sinking(h, k, n, i0, i)
        invariant Elems(h) == old(Elems(h)) && h[n..] == old(h[n..])
        invariant forall e :: e in Elems(h) ==> OtherPlace(order, e) == old(OtherPlace(order, e))
        decreases n - i
      {
        if 2 * i + 1 >= n {
          Sunk(h, k, n, i0, i);
          break;
        }
        var j := LowerChild(i, n, k);
        if !(Rank(order, h[j]) < Rank(order, h[i])) {
          Sunk(h, k, n, i0, i);
          break;
        }
        SwapKeeps(h, i, j, k);
        SinkStep(h, k, n, i0, i, j);
        Swap(i, j, k);
        i := j;
      }
    }

    /** `Heap.Push`: append only. */
    method Append(e: Entry, ghost k: map<Entry, int>)
      requires !snapshot && Valid(k) && e !in h && e in k && CanRank(order, e) && k[e] == Rank(order, e)
      modifies this`h, e`first, e`second
      ensures Sound(k) && h == old(h) + [e]
      ensures OtherPlace(order, e) == old(OtherPlace(order, e))
    {
      AppendRises(h, k, e);
      h := h + [e];
      SetIndex(e, |h| - 1);
    }

    /** `Heap.Pop`: drop the last entry, which no longer has a place. */
    method DropEnd(ghost k: map<Entry, int>) returns (y: Entry)
      requires Sound(k) && |h| > 0
      modifies this`h, Touched()`first, Touched()`second
      ensures Sound(k) && h == old(h[..|h| - 1]) && y == old(h[|h| - 1])
      ensures Elems(h) == old(Elems(h)) - {y}
      ensures forall e :: e in old(Elems(h)) ==> OtherPlace(order, e) == old(OtherPlace(order, e))
    {
      DropLast(h, k);
      var n := |h|;
      SetIndex(h[n - 1], -1);
      y := h[n - 1];
      h := h[..n - 1];
    }

    /** `heap.Push`. */
    method Push(e: Entry, ghost k: map<Entry, int>)
      requires !snapshot && Valid(k) && e !in h && e in k && CanRank(order, e) && k[e] == Rank(order, e)
      modifies this`h, (Elems(h) + {e})`first, (Elems(h) + {e})`second
      ensures Valid(k) && Elems(h) == old(Elems(h)) + {e} && |h| == old(|h|) + 1
      ensures forall x :: x in Elems(h) ==> OtherPlace(order, x) == old(OtherPlace(order, x))
    {
      hide NoDup, Heap.Indexed, Rising, Ordered;
      AppendRises(h, k, e);
      Append(e, k);
      Up(|h| - 1, |h|, k);
    }

    /** `heap.Pop`. */
    method Pop(ghost k: map<Entry, int>) returns (y: Entry)
      requires Valid(k) && |h| > 0
      modifies this`h, Touched()`first, Touched()`second
      ensures Valid(k) && y == old(h[0]) && Elems(h) == old(Elems(h)) - {y} && |h| == old(|h|) - 1
      ensures forall e :: e in old(Elems(h)) ==> OtherPlace(order, e) == old(OtherPlace(order, e))
    {
      hide NoDup, Heap.Indexed, Rising, Sinking;
      var n := |h| - 1;
      SwapKeeps(h, 0, n, k);
      SwapLast(h, k, 0);
      Swap(0, n, k);
      assert h[n] == old(h[0]);
      Down(0, n, k);
      RisenToRoot(h, k, n);
      assert h[n] == h[n..][0] == old(h[0]);
      y := DropEnd(k);
    }

    /** `heap.Remove`. */
    method RemoveAt(i: nat, ghost k: map<Entry, int>) returns (y: Entry)
      requires Valid(k) && i < |h|
      modifies this`h, Touched()`first, Touched()`second
      ensures Valid(k) && y == old(h[i]) && Elems(h) == old(Elems(h)) - {y} && |h| == old(|h|) - 1
      ensures forall e :: e in old(Elems(h)) ==> OtherPlace(order, e) == old(OtherPlace(order, e))
    {
      hide NoDup, Heap.Indexed, Rising, Sinking;
      var n := |h| - 1;
      if n != i {
        SwapKeeps(h, i, n, k);
        SwapLast(h, k, i);
        Swap(i, n, k);
        assert h[n] == old(h[i]);
        Down(i, n, k);
        Up(i, n, k);
        assert h[n] == h[n..][0] == old(h[i]);
      }
      y := DropEnd(k);
    }
  }
}
