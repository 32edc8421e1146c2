/** The exponentially decaying sample: a min-heap in a fixed array, rescaled in place. */
module Samples {
  import opened SampleModel

  class SampleHeap {
    /** The backing array; the slice in use is its first `n` places. */
    const s: array<Sample>
    var n: nat

    constructor (reservoirSize: nat)
      ensures Valid() && n == 0 && s.Length == reservoirSize && fresh(s)
    {
      s := new Sample[reservoirSize](_ => Sample(Finite(0.0), 0));
      n := 0;
    }

    ghost predicate Valid()
      reads this, s
    {
      n <= s.Length && Ordered(s[..n])
    }

    method Clear()
      requires n <= s.Length
      modifies this`n
      ensures Valid() && n == 0
    {
      n := 0;
    }

    /** Exchanges two of the first `m` places. */
    method Swap(i: nat, j: nat, ghost m: nat)
      requires m <= s.Length && i < m && j < m
      modifies s
      ensures s[..m] == Swapped(old(s[..m]), i, j) && multiset(s[..m]) == old(multiset(s[..m]))
      ensures forall p :: m <= p < s.Length ==> s[p] == old(s[p])
    {
      SwapKeeps(s[..m], i, j);
      s[i], s[j] := s[j], s[i];
    }

    method Up(j0: nat)
      requires n <= s.Length && j0 < n && Rising(s[..n], j0)
      modifies s
      ensures Valid() && multiset(s[..n]) == old(multiset(s[..n]))
      ensures forall m :: n <= m < s.Length ==> s[m] == old(s[m])
      ensures old(Ordered(s[..n])) ==> s[..n] == old(s[..n])
    {
      var j: nat := j0;
      while true
        invariant j < n && Rising(s[..n], j) && multiset(s[..n]) == old(multiset(s[..n]))
        invariant forall m :: n <= m < s.Length ==> s[m] == old(s[m])
        invariant old(Ordered(s[..n])) ==> s[..n] == old(s[..n])
        decreases j
      {
        // truncating division: the parent of place 0 is place 0
        var i: nat := if j == 0 then 0 else (j - 1) / 2;
        if i == j || !Lt(s[j].k, s[i].k) {
          break;
        }
        RiseStep(s[..n], j);
        Swap(i, j, n);
        j := i;
      }
    }

    method Push(x: Sample)
      requires Valid() && n < s.Length
      modifies this`n, s
      ensures Valid() && n == old(n) + 1 && multiset(s[..n]) == old(multiset(s[..n])) + multiset{x}
      ensures forall m :: n <= m < s.Length ==> s[m] == old(s[m])
      ensures Ordered(old(s[..n]) + [x]) ==> s[..n] == old(s[..n]) + [x]
    {
      hide OrderedBut, Bridged;
      AppendRises(s[..n], x);
      n := n + 1;
      s[n - 1] := x;
      assert s[..n] == old(s[..n]) + [x];
      Up(n - 1);
    }

    /** The lower child of place `i` among the first `m` places. */
    method LowerChild(i: nat, m: nat) returns (j: nat)
      requires m <= s.Length && 2 * i + 1 < m
      ensures i < j < m && Parent(j) == i && IsLowest(s[..m], i, s[j].k)
    {
      j := 2 * i + 1;
      if j + 1 < m && !Lt(s[j].k, s[j + 1].k) {
        j := j + 1;
      }
    }

    /** Sifts the root down within the first `m` places. */
    method Down(m: nat)
      requires m <= n <= s.Length && Sinking(s[..m], 0)
      modifies s
      ensures Ordered(s[..m]) && multiset(s[..m]) == old(multiset(s[..m]))
      ensures forall p :: m <= p < s.Length ==> s[p] == old(s[p])
    {
      hide Sinking, OrderedBut, IsLowest, Swapped;
      var i := 0;
      while 2 * i + 1 < m
        invariant Sinking(s[..m], i) && multiset(s[..m]) == old(multiset(s[..m]))
        invariant forall p :: m <= p < s.Length ==> s[p] == old(s[p])
        decreases m - i
      {
        var j := LowerChild(i, m);
        if !Lt(s[j].k, s[i].k) {
          SunkEnough(s[..m], i, j);
          return;
        }
        SinkStep(s[..m], i, j);
        Swap(i, j, m);
        i := j;
      }
      SunkDeep(s[..m], i);
    }

    /** Pushes the first `len` places of the backing array, keys scaled, while they are being overwritten. */
    method Refill(len: nat, f: real, ghost h: seq<Sample>)
      requires Valid() && n == 0 && len <= s.Length && h == s[..len] && Ordered(h) && f > 0.0
      modifies this`n, s
      ensures Valid() && s[..n] == Scaled(h, f)
    {
      hide Scaled, OrderedBut, Times;
      var i := 0;
      ScaledSnoc(h, f, 0);
      while i < len
        invariant i <= len && n == i && Valid() && s[..n] == Scaled(h[..i], f)
        invariant forall m :: i <= m < len ==> s[m] == h[m]
      {
        var x := s[i];
        ScaledSnoc(h, f, i);
        ScaledOrdered(h, f, i + 1);
        Push(Times(x, f));
        i := i + 1;
      }
      assert h[..i] == h;
    }

    method Pop() returns (x: Sample)
      requires Valid() && n > 0
      modifies this`n, s
      ensures Valid() && n == old(n) - 1 && x == old(s[0])
      ensures multiset(s[..n]) == old(multiset(s[..n])) - multiset{x}
    {
      hide Ordered, Sinking, Swapped;
      var m := n - 1;
      LastToRoot(s[..n]);
      Swap(0, m, n);
      assert s[..n][..m] == s[..m];
      Down(m);
      x := s[m];
      n := m;
    }
  }

  const RESCALE_THRESHOLD := 3_600_000_000_000

  class ExpDecaySample {
    /** Growth of weights per unit of time, in place of the rate. */
    const base: real
    const reservoirSize: nat
    const values: SampleHeap
    var count: int
    var t0: int
    var t1: int

    /** All submissions, in order, and how they are split. */
    ghost var history: seq<Submission>
    ghost var kept: seq<Submission>
    ghost var dropped: seq<Submission>

    constructor (reservoirSize: nat, base: real, now: int)
      requires reservoirSize >= 1 && base > 0.0
      ensures Valid() && history == [] && t0 == now
    {
      this.reservoirSize, this.base := reservoirSize, base;
      values := new SampleHeap(reservoirSize);
      count, t0, t1 := 0, now, now + RESCALE_THRESHOLD;
      history, kept, dropped := [], [], [];
    }

    ghost predicate Valid()
      reads this, values, values.s
    {
      count == |history| && t1 == t0 + RESCALE_THRESHOLD && Sampling()
    }

    /** The heap holds the samples of the kept submissions, with keys for the present landmark. */
    ghost predicate Sampling()
      reads this`t0, this`history, this`kept, this`dropped, values, values.s
    {
      && reservoirSize >= 1 && base > 0.0
      && values.Valid() && values.s.Length == reservoirSize
      && Reservoir(base, history, kept, dropped, reservoirSize, t0)
      && Held(base, values.s[..values.n], kept, t0)
    }

    /** Takes a sample out if the reservoir is full. */
    method MakeRoom(ghost sub: Submission)
      requires Sampling()
      modifies this`kept, this`dropped, values`n, values.s
      ensures values.Valid() && values.n < reservoirSize && Held(base, values.s[..values.n], kept, t0)
      ensures Reservoir(base, history + [sub], kept + [sub], dropped, reservoirSize, t0)
    {
      hide Reservoir, Held, Image, OrderedBut, Removed;
      ghost var h := values.s[..values.n];
      HeldSize(base, h, kept, t0);
      KeptSize(base, history, kept, dropped, reservoirSize, t0);
      if values.n == reservoirSize {
        ghost var i := LightestLeaves(base, history, kept, dropped, reservoirSize, t0, sub, h);
        var _ := values.Pop();
        HeldPopped(base, h, kept, t0, i, values.s[..values.n]);
        kept, dropped := Removed(kept, i), dropped + [kept[i]];
      } else {
        ReservoirGrows(base, history, kept, dropped, reservoirSize, t0, sub);
      }
    }

    /** The new sample goes in. */
    method Admit(t: int, u: real, v: int)
      requires Sampling()
      modifies this`history, this`kept, this`dropped, values`n, values.s
      ensures Sampling() && history == old(history) + [Submission(t, u, v)]
    {
      hide Reservoir, Image, KeyAt, OrderedBut;
      var sub := Submission(t, u, v);
      MakeRoom(sub);
      HeldPush(base, values.s[..values.n], kept, t0, sub);
      values.Push(Sample(KeyAt(base, sub, t0), v));
      kept, history := kept + [sub], history + [sub];
    }

    /** Moves the landmark to `t`: every key is scaled, while the heap is filled from the array it is read from. */
    method Rescale(t: int)
      requires Sampling()
      modifies this`t0, values`n, values.s
      ensures Sampling() && t0 == t
    {
      hide Reservoir, Held, Scaled, Factor, OrderedBut;
      ghost var h := values.s[..values.n];
      var f := Factor(base, t0, t);
      FactorPositive(base, t0, t);
      HeldScaled(base, h, kept, t0, t);
      ReservoirMoves(base, history, kept, dropped, reservoirSize, t0, t);
      var len := values.n;
      values.Clear();
      t0 := t;
      values.Refill(len, f, h);
    }

    method Update(t: int, u: real, v: int)
      requires Valid()
      modifies this`count, this`t0, this`t1, this`history, this`kept, this`dropped, values`n, values.s
      ensures Valid() && history == old(history) + [Submission(t, u, v)]
      ensures t0 == if t > old(t1) then t else old(t0)
    {
      hide Sampling;
      count := count + 1;
      Admit(t, u, v);
      if t > t1 {
        Rescale(t);
        t1 := t0 + RESCALE_THRESHOLD;
      }
    }

    method Size() returns (r: nat)
      requires Valid()
      ensures r == if count < reservoirSize then count else reservoirSize
    {
      hide Image;
      r := values.n;
      HeldSize(base, values.s[..values.n], kept, t0);
    }

    /** A run of updates. */
    method Play(subs: seq<Submission>)
      requires Valid()
      modifies this`count, this`t0, this`t1, this`history, this`kept, this`dropped, values`n, values.s
      ensures Valid() && history == old(history) + subs
    {
      hide Valid;
      var i := 0;
      while i < |subs|
        invariant i <= |subs| && Valid() && history == old(history) + subs[..i]
      {
        Update(subs[i].t, subs[i].u, subs[i].v);
        i := i + 1;
      }
    }
  }
}
