/** Forward-decaying samples as values: heap order, weights over time, and which submissions a reservoir keeps. */
module SampleModel {

  /** A key of the heap: dividing by a random number of zero gives infinity. */
  datatype Key = Finite(r: real) | Infinite

  predicate Le(a: Key, b: Key) {
    b.Infinite? || (a.Finite? && a.r <= b.r)
  }

  predicate Lt(a: Key, b: Key) {
    !Le(b, a)
  }

  datatype Sample = Sample(k: Key, v: int)

  /** One update: its time, the random number drawn for it, and its value. */
  datatype Submission = Submission(t: int, u: real, v: int)

  function Parent(c: nat): nat
    requires c > 0
  {
    (c - 1) / 2
  }

  /** Heap order, except that place `off` may lie below its parent. */
  ghost predicate OrderedBut(h: seq<Sample>, off: int) {
    forall c :: 1 <= c < |h| && c != off ==> Le(h[Parent(c)].k, h[c].k)
  }

  ghost predicate Ordered(h: seq<Sample>) {
    OrderedBut(h, -1)
  }

  ghost predicate Bridged(h: seq<Sample>, p: nat) {
    forall c :: 1 <= c < |h| && Parent(c) == p > 0 ==> Le(h[Parent(p)].k, h[c].k)
  }

  ghost predicate Rising(h: seq<Sample>, j: nat) {
    OrderedBut(h, j) && Bridged(h, j)
  }

  /** Sifting down from the root: only the children of place `p` may lie below it. */
  ghost predicate Sinking(h: seq<Sample>, p: nat) {
    (forall c :: 1 <= c < |h| && Parent(c) != p ==> Le(h[Parent(c)].k, h[c].k)) && Bridged(h, p)
  }

  function Swapped(h: seq<Sample>, i: nat, j: nat): seq<Sample>
    requires i < |h| && j < |h|
  {
    h[i := h[j]][j := h[i]]
  }

  lemma SwapKeeps(h: seq<Sample>, i: nat, j: nat)
    requires i < |h| && j < |h|
    ensures multiset(Swapped(h, i, j)) == multiset(h)
  {
  }

  lemma AppendRises(h: seq<Sample>, x: Sample)
    requires Ordered(h)
    ensures Rising(h + [x], |h|)
  {
  }

  lemma RiseStep(h: seq<Sample>, j: nat)
    requires 0 < j < |h| && Rising(h, j) && Lt(h[j].k, h[Parent(j)].k)
    ensures Rising(Swapped(h, Parent(j), j), Parent(j))
  {
  }

  /** The children of place `p` have keys no lower than `k`. */
  ghost predicate IsLowest(h: seq<Sample>, p: nat, k: Key) {
    forall d :: 1 <= d < |h| && Parent(d) == p ==> Le(k, h[d].k)
  }

  lemma SinkStep(h: seq<Sample>, p: nat, c: nat)
    requires p < c < |h| && Parent(c) == p && Sinking(h, p) && Lt(h[c].k, h[p].k) && IsLowest(h, p, h[c].k)
    ensures Sinking(Swapped(h, p, c), c)
  {
  }

  /** Sifting down ends at a place whose lower child does not lie below it. */
  lemma SunkEnough(h: seq<Sample>, p: nat, c: nat)
    requires p < c < |h| && Parent(c) == p && Sinking(h, p) && Le(h[p].k, h[c].k) && IsLowest(h, p, h[c].k)
    ensures Ordered(h)
  {
  }

  lemma SunkDeep(h: seq<Sample>, p: nat)
    requires Sinking(h, p) && 2 * p + 1 >= |h|
    ensures Ordered(h)
  {
  }

  /** Moving the last sample to the root leaves only the root to be sifted. */
  lemma LastToRoot(h: seq<Sample>)
    requires |h| > 0 && Ordered(h)
    ensures var m := |h| - 1;
            Sinking(Swapped(h, 0, m)[..m], 0) && Swapped(h, 0, m)[m] == h[0]
            && multiset(Swapped(h, 0, m)[..m]) == multiset(h) - multiset{h[0]}
  {
    var m := |h| - 1;
    var r := Swapped(h, 0, m);
    SwapKeeps(h, 0, m);
    assert r == r[..m] + [r[m]];
  }

  lemma {:induction false} RootIsLeast(h: seq<Sample>, c: nat)
    requires c < |h| && Ordered(h)
    ensures Le(h[0].k, h[c].k)
    decreases c
  {
    if c > 0 {
      RootIsLeast(h, Parent(c));
    }
  }

  function Scale(k: Key, f: real): Key {
    if k.Finite? then Finite(k.r * f) else Infinite
  }

  function Times(s: Sample, f: real): Sample {
    Sample(Scale(s.k, f), s.v)
  }

  /** All keys times one factor. */
  function Scaled(h: seq<Sample>, f: real): (r: seq<Sample>)
    ensures |r| == |h| && forall i :: 0 <= i < |h| ==> r[i] == Times(h[i], f)
  {
    seq(|h|, i requires 0 <= i < |h| => Times(h[i], f))
  }

  lemma Monotone(a: real, b: real, f: real)
    requires a <= b && f > 0.0
    ensures a * f <= b * f
  {
    assert (b - a) * f >= 0.0;
  }

  lemma ScaleMonotone(a: Key, b: Key, f: real)
    requires Le(a, b) && f > 0.0
    ensures Le(Scale(a, f), Scale(b, f))
  {
    if b.Finite? {
      Monotone(a.r, b.r, f);
    }
  }

  lemma TimesMonotone(a: Sample, b: Sample, f: real)
    requires Le(a.k, b.k) && f > 0.0
    ensures Le(Times(a, f).k, Times(b, f).k)
  {
    ScaleMonotone(a.k, b.k, f);
  }

  lemma ScaledOrdered(h: seq<Sample>, f: real, n: nat)
    requires Ordered(h) && f > 0.0 && n <= |h|
    ensures Ordered(Scaled(h[..n], f))
  {
    hide Scaled, Times;
    var r := Scaled(h[..n], f);
    forall c | 1 <= c < |r| ensures Le(r[Parent(c)].k, r[c].k) {
      TimesMonotone(h[Parent(c)], h[c], f);
    }
  }

  function Removed<T>(s: seq<T>, i: nat): (r: seq<T>)
    requires i < |s|
    ensures |r| == |s| - 1
  {
    s[..i] + s[i + 1..]
  }

  lemma RemovedOne<T>(s: seq<T>, i: nat)
    requires i < |s|
    ensures multiset(Removed(s, i)) == multiset(s) - multiset{s[i]}
  {
    assert s == s[..i] + [s[i]] + s[i + 1..];
  }

  lemma ScaledRemoved(h: seq<Sample>, i: nat, f: real)
    requires i < |h|
    ensures Scaled(Removed(h, i), f) == Removed(Scaled(h, f), i)
  {
    hide Scaled, Times;
  }

  lemma PutBack<T>(a: multiset<T>, b: multiset<T>, x: T)
    requires x in a && x in b && a - multiset{x} == b - multiset{x}
    ensures a == b
  {
    assert a == a - multiset{x} + multiset{x};
    assert b == b - multiset{x} + multiset{x};
  }

  lemma {:induction false} ScaledTogether(a: seq<Sample>, b: seq<Sample>, f: real)
    requires multiset(a) == multiset(b)
    ensures multiset(Scaled(a, f)) == multiset(Scaled(b, f))
    decreases |a|
  {
    hide Scaled, Removed, Times;
    if a == [] {
      assert |multiset(b)| == 0;
    } else {
      assert a[0] in multiset(a);
      assert a[0] in multiset(b);
      var i :| 0 <= i < |b| && b[i] == a[0];
      RemovedOne(a, 0);
      RemovedOne(b, i);
      ScaledTogether(Removed(a, 0), Removed(b, i), f);
      ScaledRemoved(a, 0, f);
      ScaledRemoved(b, i, f);
      RemovedOne(Scaled(a, f), 0);
      RemovedOne(Scaled(b, f), i);
      PutBack(multiset(Scaled(a, f)), multiset(Scaled(b, f)), Times(a[0], f));
    }
  }

  /** `Exp(alpha * n)` for a whole number of time units, with `base` the value for one unit. */
  function Power(base: real, n: int): (r: real)
    requires base > 0.0
    ensures r > 0.0
    decreases if n < 0 then -n else n
  {
    if n == 0 then 1.0
    else if n > 0 then ProductPositive(base, Power(base, n - 1)); base * Power(base, n - 1)
    else Power(base, n + 1) / base
  }

  lemma ProductPositive(x: real, y: real)
    requires x > 0.0 && y > 0.0
    ensures x * y > 0.0
  {
  }

  lemma PowerZero(base: real)
    requires base > 0.0
    ensures Power(base, 0) == 1.0
  {
  }

  lemma PowerNext(base: real, n: int)
    requires base > 0.0
    ensures Power(base, n + 1) == base * Power(base, n)
  {
    if n < 0 {
      assert Power(base, n) == Power(base, n + 1) / base;
    }
  }

  lemma {:induction false} PowerSum(base: real, m: int, n: int)
    requires base > 0.0
    ensures Power(base, m + n) == Power(base, m) * Power(base, n)
    decreases if n < 0 then -n else n
  {
    hide Power;
    if n == 0 {
      assert Power(base, 0) == 1.0 by { PowerZero(base); }
    } else if n > 0 {
      var x, y, z := Power(base, m), Power(base, n - 1), Power(base, m + n - 1);
      assert z == x * y by { PowerSum(base, m, n - 1); }
      assert Power(base, m + n) == base * z by { PowerNext(base, m + n - 1); }
      assert Power(base, n) == base * y by { PowerNext(base, n - 1); }
      Regroup(base, x, y);
    } else {
      var x, y, z := Power(base, m), Power(base, n), Power(base, m + n);
      assert Power(base, m + n + 1) == x * Power(base, n + 1) by { PowerSum(base, m, n + 1); }
      assert Power(base, m + n + 1) == base * z by { PowerNext(base, m + n); }
      assert Power(base, n + 1) == base * y by { PowerNext(base, n); }
      Regroup(base, x, y);
      Cancel(base, z, x * y);
    }
  }

  lemma Regroup(x: real, y: real, z: real)
    ensures x * (y * z) == y * (x * z)
  {
  }

  lemma Cancel(x: real, y: real, z: real)
    requires x > 0.0 && x * y == x * z
    ensures y == z
  {
    assert x * (y - z) == 0.0;
  }

  /** The key of a submission for landmark `t0`. */
  function KeyAt(base: real, s: Submission, t0: int): Key
    requires base > 0.0
  {
    if s.u == 0.0 then Infinite else Finite(Power(base, s.t - t0) / s.u)
  }

  lemma {:induction false} PowerGrows(base: real, m: int, n: int)
    requires base > 1.0 && m < n
    ensures Power(base, m) < Power(base, n)
    decreases n - m
  {
    assert Power(base, n - 1) < Power(base, n) by { StepGrows(base, n - 1); }
    hide Power;
    if m < n - 1 {
      PowerGrows(base, m, n - 1);
    }
  }

  lemma StepGrows(base: real, n: int)
    requires base > 1.0
    ensures Power(base, n) < Power(base, n + 1)
  {
    hide Power;
    PowerNext(base, n);
    Larger(base, Power(base, n), Power(base, n + 1));
  }

  lemma Larger(f: real, x: real, y: real)
    requires f > 1.0 && x > 0.0 && y == f * x
    ensures x < y
  {
    ProductPositive(f - 1.0, x);
  }

  lemma MoreOver(x: real, y: real, w: real)
    requires x < y && w > 0.0
    ensures x / w < y / w
  {
    ProductPositive(y - x, 1.0 / w);
    assert (y - x) * (1.0 / w) == y / w - x / w;
  }

  lemma MoreUnder(x: real, u: real, w: real)
    requires x > 0.0 && 0.0 < w < u
    ensures x / u < x / w
  {
    MoreOver(w, u, w);
    assert u / w > 1.0;
    Larger(u / w, x / u, x / w);
  }

  lemma Shares(x: real, u: real, y: real, w: real)
    requires 0.0 < x <= y && 0.0 < w <= u && (x < y || w < u)
    ensures x / u < y / w
  {
    if w < u {
      MoreUnder(x, u, w);
    }
    if x < y {
      MoreOver(x, y, w);
    }
  }

  /** Of two submissions the one with the smaller draw weighs more, and so does the later one as weights grow. */
  lemma WeighsMore(base: real, a: Submission, b: Submission, t0: int)
    requires base > 1.0 && a.t <= b.t && 0.0 < b.u <= a.u && (a.t < b.t || b.u < a.u)
    ensures Lt(KeyAt(base, a, t0), KeyAt(base, b, t0))
  {
    hide Power;
    if a.t < b.t {
      PowerGrows(base, a.t - t0, b.t - t0);
    }
    Shares(Power(base, a.t - t0), a.u, Power(base, b.t - t0), b.u);
  }

  /** The draw decides at equal times, for any base; a draw of zero outweighs all others. */
  lemma SmallerDraw(base: real, a: Submission, b: Submission, t0: int)
    requires base > 0.0 && a.t == b.t && 0.0 <= b.u < a.u
    ensures Lt(KeyAt(base, a, t0), KeyAt(base, b, t0))
  {
    hide Power;
    if b.u > 0.0 {
      Shares(Power(base, a.t - t0), a.u, Power(base, b.t - t0), b.u);
    }
  }

  /** The factor that carries keys over from landmark `t0` to `t1`. */
  function Factor(base: real, t0: int, t1: int): real
    requires base > 0.0
  {
    Power(base, -(t1 - t0))
  }

  /** Scaling gives each submission the key it would have had with the new landmark all along. */
  lemma LandmarkMoves(base: real, s: Submission, t0: int, t1: int)
    requires base > 0.0
    ensures Scale(KeyAt(base, s, t0), Factor(base, t0, t1)) == KeyAt(base, s, t1)
  {
    hide Power;
    if s.u != 0.0 {
      PowerSum(base, s.t - t0, -(t1 - t0));
      Quotient(Power(base, s.t - t0), Power(base, -(t1 - t0)), s.u);
    }
  }

  lemma Quotient(x: real, y: real, u: real)
    requires u != 0.0
    ensures x / u * y == x * y / u
  {
  }

  function SampleAt(base: real, s: Submission, t0: int): Sample
    requires base > 0.0
  {
    Sample(KeyAt(base, s, t0), s.v)
  }

  /** The samples of submissions for landmark `t0`. */
  ghost function Image(base: real, subs: seq<Submission>, t0: int): (r: seq<Sample>)
    requires base > 0.0
    ensures |r| == |subs| && forall i :: 0 <= i < |subs| ==> r[i] == SampleAt(base, subs[i], t0)
  {
    seq(|subs|, i requires 0 <= i < |subs| => SampleAt(base, subs[i], t0))
  }

  lemma ImageMoves(base: real, subs: seq<Submission>, t0: int, t1: int)
    requires base > 0.0
    ensures Scaled(Image(base, subs, t0), Factor(base, t0, t1)) == Image(base, subs, t1)
  {
    hide SampleAt, Times, Factor, Scaled, Image;
    var f := Factor(base, t0, t1);
    forall i | 0 <= i < |subs| ensures Times(SampleAt(base, subs[i], t0), f) == SampleAt(base, subs[i], t1) {
      SampleMoves(base, subs[i], t0, t1);
    }
  }

  lemma SampleMoves(base: real, s: Submission, t0: int, t1: int)
    requires base > 0.0
    ensures Times(SampleAt(base, s, t0), Factor(base, t0, t1)) == SampleAt(base, s, t1)
  {
    hide KeyAt, Factor;
    LandmarkMoves(base, s, t0, t1);
  }

  /** No dropped submission outweighs a kept one; `n` kept ones are compared. */
  ghost predicate Dominates(base: real, kept: seq<Submission>, dropped: seq<Submission>, t0: int, n: nat)
    requires base > 0.0 && n <= |kept|
  {
    forall d, i :: 0 <= d < |dropped| && 0 <= i < n ==>
      Le(KeyAt(base, dropped[d], t0), KeyAt(base, kept[i], t0))
  }

  /** Which submission outweighs which does not depend on the landmark. */
  lemma DominatesMoves(base: real, kept: seq<Submission>, dropped: seq<Submission>, t0: int, t1: int, n: nat)
    requires base > 0.0 && n <= |kept| && Dominates(base, kept, dropped, t0, n)
    ensures Dominates(base, kept, dropped, t1, n)
  {
    hide KeyAt, Factor;
    var f := Factor(base, t0, t1);
    assert f > 0.0 by { FactorPositive(base, t0, t1); }
    forall d, i | 0 <= d < |dropped| && 0 <= i < n
      ensures Le(KeyAt(base, dropped[d], t1), KeyAt(base, kept[i], t1))
    {
      LandmarkMoves(base, dropped[d], t0, t1);
      LandmarkMoves(base, kept[i], t0, t1);
      ScaleMonotone(KeyAt(base, dropped[d], t0), KeyAt(base, kept[i], t0), f);
    }
  }

  lemma FactorPositive(base: real, t0: int, t1: int)
    requires base > 0.0
    ensures Factor(base, t0, t1) > 0.0
  {
  }

  /**
   * What a reservoir of `size` places keeps of a history: the latest submission, and of the earlier ones the heaviest.
   */
  ghost predicate Reservoir(base: real, history: seq<Submission>,
                            kept: seq<Submission>, dropped: seq<Submission>, size: nat, t0: int)
    requires base > 0.0
  {
    && multiset(kept) + multiset(dropped) == multiset(history)
    && |kept| == (if |history| < size then |history| else size)
    && (history != [] && kept != [] ==> kept[|kept| - 1] == history[|history| - 1])
    && Dominates(base, kept, dropped, t0, if kept == [] then 0 else |kept| - 1)
  }

  lemma ReservoirMoves(base: real, history: seq<Submission>,
                       kept: seq<Submission>, dropped: seq<Submission>, size: nat, t0: int, t1: int)
    requires base > 0.0 && Reservoir(base, history, kept, dropped, size, t0)
    ensures Reservoir(base, history, kept, dropped, size, t1)
  {
    hide Dominates;
    DominatesMoves(base, kept, dropped, t0, t1, if kept == [] then 0 else |kept| - 1);
  }

  /** A free place: the new submission joins. */
  lemma ReservoirGrows(base: real, history: seq<Submission>,
                       kept: seq<Submission>, dropped: seq<Submission>, size: nat, t0: int, s: Submission)
    requires base > 0.0 && Reservoir(base, history, kept, dropped, size, t0) && |kept| < size
    ensures dropped == [] && Reservoir(base, history + [s], kept + [s], dropped, size, t0)
  {
    hide KeyAt;
    assert |multiset(kept) + multiset(dropped)| == |history|;
  }

  /** A full reservoir: a lightest submission goes, the new one joins. */
  lemma ReservoirTurns(base: real, history: seq<Submission>,
                       kept: seq<Submission>, dropped: seq<Submission>, size: nat, t0: int, s: Submission, i: nat)
    requires base > 0.0 && Reservoir(base, history, kept, dropped, size, t0) && |kept| == size && i < |kept|
    requires forall j :: 0 <= j < |kept| ==> Le(KeyAt(base, kept[i], t0), KeyAt(base, kept[j], t0))
    ensures Reservoir(base, history + [s], Removed(kept, i) + [s], dropped + [kept[i]], size, t0)
  {
    hide KeyAt, Dominates, Removed;
    RemovedOne(kept, i);
    assert multiset(kept) == multiset(kept) - multiset{kept[i]} + multiset{kept[i]} by { OneOf(kept, i); }
    assert multiset(history + [s]) == multiset(history) + multiset{s};
    TurnsDominate(base, kept, dropped, t0, s, i);
  }

  lemma OneOf<T>(s: seq<T>, i: nat)
    requires i < |s|
    ensures multiset(s) == multiset(s) - multiset{s[i]} + multiset{s[i]}
  {
    assert s[i] in multiset(s);
  }

  lemma TurnsDominate(base: real, kept: seq<Submission>, dropped: seq<Submission>, t0: int, s: Submission, i: nat)
    requires base > 0.0 && i < |kept| && Dominates(base, kept, dropped, t0, |kept| - 1)
    requires forall j :: 0 <= j < |kept| ==> Le(KeyAt(base, kept[i], t0), KeyAt(base, kept[j], t0))
    ensures Dominates(base, Removed(kept, i) + [s], dropped + [kept[i]], t0, |kept| - 1)
  {
    hide KeyAt;
    var kept', dropped' := Removed(kept, i) + [s], dropped + [kept[i]];
    forall d, j | 0 <= d < |dropped'| && 0 <= j < |kept| - 1
      ensures Le(KeyAt(base, dropped'[d], t0), KeyAt(base, kept'[j], t0))
    {
      var j' := if j < i then j else j + 1;
      assert kept'[j] == kept[j'];
      if d < |dropped| {
        assert dropped'[d] == dropped[d];
        if j' < |kept| - 1 {
          assert Le(KeyAt(base, dropped[d], t0), KeyAt(base, kept[j'], t0));
        } else {
          assert Le(KeyAt(base, dropped[d], t0), KeyAt(base, kept[i], t0));
        }
      }
    }
  }

  /** The samples `h` are those of the submissions `kept`, in some order. */
  ghost predicate Held(base: real, h: seq<Sample>, kept: seq<Submission>, t0: int)
    requires base > 0.0
  {
    multiset(h) == multiset(Image(base, kept, t0))
  }

  lemma HeldSize(base: real, h: seq<Sample>, kept: seq<Submission>, t0: int)
    requires base > 0.0 && Held(base, h, kept, t0)
    ensures |h| == |kept|
  {
    assert |multiset(h)| == |h|;
  }

  lemma KeptSize(base: real, history: seq<Submission>, kept: seq<Submission>, dropped: seq<Submission>, size: nat,
                 t0: int)
    requires base > 0.0 && Reservoir(base, history, kept, dropped, size, t0)
    ensures |kept| <= size
  {
  }

  /** The root of the heap is the sample of a lightest kept submission. */
  lemma HeldRoot(base: real, h: seq<Sample>, kept: seq<Submission>, t0: int) returns (i: nat)
    requires base > 0.0 && Held(base, h, kept, t0) && Ordered(h) && h != []
    ensures i < |kept|
    ensures forall j :: 0 <= j < |kept| ==> Le(KeyAt(base, kept[i], t0), KeyAt(base, kept[j], t0))
    ensures multiset(Image(base, Removed(kept, i), t0)) == multiset(h) - multiset{h[0]}
  {
    hide KeyAt, OrderedBut, Image;
    var im := Image(base, kept, t0);
    assert h[0] in multiset(h);
    assert h[0] in multiset(im);
    i :| 0 <= i < |im| && im[i] == h[0];
    forall j | 0 <= j < |kept| ensures Le(KeyAt(base, kept[i], t0), KeyAt(base, kept[j], t0)) {
      assert im[j] in multiset(im);
      assert im[j] in multiset(h);
      var c :| 0 <= c < |h| && h[c] == im[j];
      RootIsLeast(h, c);
    }
    assert Image(base, Removed(kept, i), t0) == Removed(im, i);
    RemovedOne(im, i);
  }

  lemma HeldPopped(base: real, h: seq<Sample>, kept: seq<Submission>, t0: int, i: nat, rest: seq<Sample>)
    requires base > 0.0 && h != [] && i < |kept| && multiset(rest) == multiset(h) - multiset{h[0]}
    requires multiset(Image(base, Removed(kept, i), t0)) == multiset(h) - multiset{h[0]}
    ensures Held(base, rest, Removed(kept, i), t0)
  {
  }

  /** The place of a submission that may leave a full reservoir: the one at the root of the heap. */
  lemma LightestLeaves(base: real, history: seq<Submission>, kept: seq<Submission>, dropped: seq<Submission>,
                       size: nat, t0: int, s: Submission, h: seq<Sample>) returns (i: nat)
    requires base > 0.0 && Reservoir(base, history, kept, dropped, size, t0) && |kept| == size
    requires Held(base, h, kept, t0) && Ordered(h) && h != []
    ensures i < |kept| && multiset(Image(base, Removed(kept, i), t0)) == multiset(h) - multiset{h[0]}
    ensures Reservoir(base, history + [s], Removed(kept, i) + [s], dropped + [kept[i]], size, t0)
  {
    hide Reservoir, Held, Image, KeyAt, OrderedBut, Removed;
    i := HeldRoot(base, h, kept, t0);
    ReservoirTurns(base, history, kept, dropped, size, t0, s, i);
  }

  lemma HeldPush(base: real, h: seq<Sample>, kept: seq<Submission>, t0: int, s: Submission)
    requires base > 0.0 && Held(base, h, kept, t0)
    ensures multiset(Image(base, kept + [s], t0)) == multiset(h) + multiset{SampleAt(base, s, t0)}
  {
    hide SampleAt, Image;
    assert Image(base, kept + [s], t0) == Image(base, kept, t0) + [SampleAt(base, s, t0)];
  }

  lemma HeldScaled(base: real, h: seq<Sample>, kept: seq<Submission>, t0: int, t1: int)
    requires base > 0.0 && Held(base, h, kept, t0)
    ensures Held(base, Scaled(h, Factor(base, t0, t1)), kept, t1)
  {
    hide SampleAt, Image, Scaled, Factor;
    ScaledTogether(h, Image(base, kept, t0), Factor(base, t0, t1));
    ImageMoves(base, kept, t0, t1);
  }

  lemma ScaledSnoc(h: seq<Sample>, f: real, i: nat)
    requires i <= |h|
    ensures Scaled(h[..0], f) == []
    ensures i < |h| ==> Scaled(h[..i + 1], f) == Scaled(h[..i], f) + [Times(h[i], f)]
  {
    hide Scaled, Times;
  }
}
