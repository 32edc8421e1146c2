/** Binary heaps in sequences: the order that sifting restores, for elements ranked by a map. */
module HeapModel {

  function Parent(c: nat): nat
    requires c > 0
  {
    (c - 1) / 2
  }

  ghost function Elems<T>(h: seq<T>): set<T> {
    set x | x in h
  }

  ghost predicate NoDup<T>(h: seq<T>) {
    forall i, j :: 0 <= i < j < |h| ==> h[i] != h[j]
  }

  ghost predicate Ranked<T>(h: seq<T>, k: map<T, int>) {
    forall i :: 0 <= i < |h| ==> h[i] in k
  }

  /** The first `n` places are in heap order, except that place `c` may rank below its parent if `c == off`. */
  ghost predicate OrderedBut<T>(h: seq<T>, k: map<T, int>, n: nat, off: int)
    requires n <= |h| && Ranked(h, k)
  {
    forall c :: 1 <= c < n && c != off ==> k[h[Parent(c)]] <= k[h[c]]
  }

  ghost predicate Ordered<T>(h: seq<T>, k: map<T, int>, n: nat)
    requires n <= |h| && Ranked(h, k)
  {
    OrderedBut(h, k, n, -1)
  }

  /** The children of place `p` rank no lower than the parent of `p`. */
  ghost predicate Bridged<T>(h: seq<T>, k: map<T, int>, n: nat, p: int)
    requires n <= |h| && Ranked(h, k)
  {
    forall c :: 1 <= c < n && Parent(c) == p > 0 ==> k[h[Parent(p)]] <= k[h[c]]
  }

  /** Sifting up: only place `j` may be out of order. */
  ghost predicate Rising<T>(h: seq<T>, k: map<T, int>, n: nat, j: nat)
    requires n <= |h| && Ranked(h, k)
  {
    OrderedBut(h, k, n, j) && Bridged(h, k, n, j)
  }

  /** Sifting down from `i0`: only the children of place `p`, and `i0` itself, may be out of order. */
  ghost predicate Sinking<T>(h: seq<T>, k: map<T, int>, n: nat, i0: nat, p: nat)
    requires n <= |h| && Ranked(h, k)
  {
    && i0 <= p
    && (forall c :: 1 <= c < n && c != i0 && Parent(c) != p ==> k[h[Parent(c)]] <= k[h[c]])
    && Bridged(h, k, n, p)
    && Bridged(h, k, n, i0)
    && (p != i0 ==> OrderedAt(h, k, n, i0))
  }

  ghost predicate OrderedAt<T>(h: seq<T>, k: map<T, int>, n: nat, c: nat)
    requires n <= |h| && Ranked(h, k)
  {
    0 < c < n ==> k[h[Parent(c)]] <= k[h[c]]
  }

  function Swapped<T>(h: seq<T>, i: nat, j: nat): (r: seq<T>)
    requires i < |h| && j < |h|
    ensures |r| == |h|
  {
    h[i := h[j]][j := h[i]]
  }

  lemma SwapKeeps<T>(h: seq<T>, i: nat, j: nat, k: map<T, int>)
    requires i < |h| && j < |h| && NoDup(h) && Ranked(h, k)
    ensures NoDup(Swapped(h, i, j)) && Elems(Swapped(h, i, j)) == Elems(h) && Ranked(Swapped(h, i, j), k)
  {
    var r := Swapped(h, i, j);
    forall x | x in h ensures x in r {
      var p :| 0 <= p < |h| && h[p] == x;
      assert r[if p == i then j else if p == j then i else p] == x;
    }
  }

  lemma RiseStep<T>(h: seq<T>, k: map<T, int>, n: nat, j: nat)
    requires 0 < j < n <= |h| && Ranked(h, k) && Rising(h, k, n, j) && k[h[j]] < k[h[Parent(j)]]
    requires Ranked(Swapped(h, Parent(j), j), k)
    ensures Rising(Swapped(h, Parent(j), j), k, n, Parent(j))
  {
  }

  lemma SinkStep<T>(h: seq<T>, k: map<T, int>, n: nat, i0: nat, p: nat, c: nat)
    requires n <= |h| && Ranked(h, k) && p < c < n && Parent(c) == p && Sinking(h, k, n, i0, p)
    requires k[h[c]] < k[h[p]] && forall d :: 1 <= d < n && Parent(d) == p ==> k[h[c]] <= k[h[d]]
    requires Ranked(Swapped(h, p, c), k)
    ensures Sinking(Swapped(h, p, c), k, n, i0, c)
  {
  }

  /** The root of a heap ranks lowest. */
  lemma {:induction false} RootIsLeast<T>(h: seq<T>, k: map<T, int>, n: nat, c: nat)
    requires c < n <= |h| && Ranked(h, k) && Ordered(h, k, n)
    ensures k[h[0]] <= k[h[c]]
    decreases c
  {
    if c > 0 {
      RootIsLeast(h, k, n, Parent(c));
    }
  }

  lemma DropLast<T>(h: seq<T>, k: map<T, int>)
    requires |h| > 0 && NoDup(h) && Ranked(h, k)
    ensures var r := h[..|h| - 1];
            NoDup(r) && Ranked(r, k) && Elems(r) == Elems(h) - {h[|h| - 1]}
  {
    var r := h[..|h| - 1];
    forall x | x in h && x != h[|h| - 1] ensures x in r {
      var p :| 0 <= p < |h| && h[p] == x;
      assert r[p] == x;
    }
  }

  /** Moving the last element to place `i` leaves only that place to be sifted. */
  lemma SwapLast<T>(h: seq<T>, k: map<T, int>, i: nat)
    requires i < |h| && Ranked(h, k) && Ordered(h, k, |h|)
    requires Ranked(Swapped(h, i, |h| - 1), k)
    ensures Sinking(Swapped(h, i, |h| - 1), k, |h| - 1, i, i)
  {
  }

  /** Sifting down is done when the lower child of place `p` ranks no lower than `p`. */
  lemma Sunk<T>(h: seq<T>, k: map<T, int>, n: nat, i0: nat, p: nat)
    requires n <= |h| && Ranked(h, k) && p < |h| && Sinking(h, k, n, i0, p)
    requires forall c :: 1 <= c < n && Parent(c) == p ==> k[h[p]] <= k[h[c]]
    ensures Rising(h, k, n, i0)
  {
  }

  lemma AppendRises<T>(h: seq<T>, k: map<T, int>, x: T)
    requires Ranked(h, k) && Ordered(h, k, |h|) && NoDup(h) && x !in h && x in k
    ensures Ranked(h + [x], k) && NoDup(h + [x]) && Elems(h + [x]) == Elems(h) + {x}
    ensures Rising(h + [x], k, |h| + 1, |h|)
  {
  }

  /** Nothing lies above the root. */
  lemma RisenToRoot<T>(h: seq<T>, k: map<T, int>, n: nat)
    requires n <= |h| && Ranked(h, k) && Rising(h, k, n, 0)
    ensures Ordered(h, k, n)
  {
  }
}
