/** Round-robin choice among the slots of a pool, with failure marks that expire. */
module RoundRobin {
  import opened Options
  import opened PoolModel

  /** The place `k` steps after `start` on a ring of `n` places, for at most one turn. */
  function Ring(start: nat, k: nat, n: nat): (r: nat)
    requires start < n && k <= n
    ensures r < n
  {
    if start + k < n then start + k else start + k - n
  }

  /** Every place is met exactly once within one turn. */
  lemma RingReaches(start: nat, n: nat, c: nat)
    requires start < n && c < n
    ensures Distance(start, n, c) < n && Ring(start, Distance(start, n, c), n) == c
    ensures forall k :: 0 <= k < n && Ring(start, k, n) == c ==> k == Distance(start, n, c)
  {
  }

  function Distance(start: nat, n: nat, c: nat): nat
    requires start < n && c < n
  {
    if c >= start then c - start else c - start + n
  }

  /** Unmarked, or marked longer ago than the failure window. */
  predicate Available(slot: Slot, now: int, window: int) {
    slot.failedAt == None || now - slot.failedAt.value > window
  }

  /** How many unavailable slots lie ahead of the first available one; `|slots|` when there is none. */
  function Skipped(slots: seq<Slot>, start: nat, now: int, window: int, k: nat := 0): (r: nat)
    requires start < |slots| && k <= |slots|
    ensures k <= r <= |slots|
    ensures r < |slots| ==> Available(slots[Ring(start, r, |slots|)], now, window)
    ensures forall j :: k <= j < r ==> !Available(slots[Ring(start, j, |slots|)], now, window)
    decreases |slots| - k
  {
    if k == |slots| || Available(slots[Ring(start, k, |slots|)], now, window) then k
    else Skipped(slots, start, now, window, k + 1)
  }

  function ClearMarks(slots: seq<Slot>): (r: seq<Slot>)
    ensures |r| == |slots|
    ensures forall i :: 0 <= i < |slots| ==> r[i] == slots[i].(failedAt := None)
  {
    seq(|slots|, i requires 0 <= i < |slots| => slots[i].(failedAt := None))
  }

  /** The place chosen from `start`. */
  function Choice(slots: seq<Slot>, start: nat, now: int, window: int): (c: nat)
    requires start < |slots|
    ensures c < |slots|
  {
    var k := Skipped(slots, start, now, window);
    if k == |slots| then start else Ring(start, k, |slots|)
  }

  /** The marks after the choice: the chosen slot is cleared, and all of them when none was available. */
  function AfterChoice(slots: seq<Slot>, start: nat, now: int, window: int): (r: seq<Slot>)
    requires start < |slots|
    ensures |r| == |slots|
  {
    if Skipped(slots, start, now, window) == |slots| then ClearMarks(slots)
    else var c := Choice(slots, start, now, window); slots[c := slots[c].(failedAt := None)]
  }

  /** A choice changes nothing but marks. */
  lemma AfterChoiceMarks(slots: seq<Slot>, start: nat, now: int, window: int)
    requires start < |slots|
    ensures var r := AfterChoice(slots, start, now, window);
            forall i :: 0 <= i < |slots| ==> r[i].(failedAt := slots[i].failedAt) == slots[i]
  {
    hide Choice, Skipped;
  }

  /** A choice falls on an unavailable slot exactly when all slots are unavailable. */
  lemma ChoiceAvailable(slots: seq<Slot>, start: nat, now: int, window: int)
    requires start < |slots|
    ensures Available(slots[Choice(slots, start, now, window)], now, window)
            <==> exists i :: 0 <= i < |slots| && Available(slots[i], now, window)
    ensures !Available(slots[Choice(slots, start, now, window)], now, window) ==>
              Choice(slots, start, now, window) == start &&
              forall i :: 0 <= i < |slots| ==> AfterChoice(slots, start, now, window)[i].failedAt == None
  {
    forall i | 0 <= i < |slots| && Available(slots[i], now, window)
      ensures Skipped(slots, start, now, window) < |slots|
    {
      RingReaches(start, |slots|, i);
    }
  }

  /** The choice is the nearest available slot on the ring. */
  lemma ChoiceNearest(slots: seq<Slot>, start: nat, now: int, window: int, i: nat)
    requires start < |slots| && i < |slots| && Available(slots[i], now, window)
    ensures Distance(start, |slots|, Choice(slots, start, now, window)) <= Distance(start, |slots|, i)
  {
    RingReaches(start, |slots|, i);
    var k := Skipped(slots, start, now, window);
    if k < |slots| {
      RingReaches(start, |slots|, Ring(start, k, |slots|));
    }
  }

  /** Marked no longer ago than the window. */
  predicate Resting(slot: Slot, now: int, window: int) {
    slot.failedAt.Some? && slot.failedAt.value + window >= now
  }

  /** Spelled out by the marks: the choice rests only if all do, and all slots passed over on the way rest. */
  lemma ChoiceByMarks(slots: seq<Slot>, start: nat, now: int, window: int)
    requires start < |slots|
    ensures var c := Choice(slots, start, now, window);
            if forall i :: 0 <= i < |slots| ==> Resting(slots[i], now, window) then c == start
            else
              && !Resting(slots[c], now, window)
              && forall i :: 0 <= i < |slots| && Distance(start, |slots|, i) < Distance(start, |slots|, c) ==>
                Resting(slots[i], now, window)
  {
    forall i | 0 <= i < |slots| ensures Resting(slots[i], now, window) <==> !Available(slots[i], now, window) {
    }
    ChoiceAvailable(slots, start, now, window);
    var c := Choice(slots, start, now, window);
    forall i | 0 <= i < |slots| && Distance(start, |slots|, i) < Distance(start, |slots|, c)
      ensures !Available(slots[i], now, window)
    {
      if Available(slots[i], now, window) {
        ChoiceNearest(slots, start, now, window, i);
      }
    }
  }

  /** The chosen slot loses its mark; the others keep theirs, unless all of them rest. */
  lemma MarksLeft(slots: seq<Slot>, start: nat, now: int, window: int, i: nat)
    requires start < |slots| && i < |slots|
    ensures var c, r := Choice(slots, start, now, window), AfterChoice(slots, start, now, window);
            r[i].failedAt == if i == c || forall j :: 0 <= j < |slots| ==> Resting(slots[j], now, window)
                             then None else slots[i].failedAt
  {
    forall j | 0 <= j < |slots| ensures Resting(slots[j], now, window) <==> !Available(slots[j], now, window) {
    }
    ChoiceAvailable(slots, start, now, window);
    var k := Skipped(slots, start, now, window);
    if k < |slots| {
      assert Available(slots[Ring(start, k, |slots|)], now, window);
    }
  }

  // ---------- Fairness ----------

  /** The places chosen by `m` successive calls. */
  ghost function Turns(slots: seq<Slot>, start: nat, now: int, window: int, m: nat): (r: seq<nat>)
    requires start < |slots|
    ensures |r| == m && forall i :: 0 <= i < m ==> r[i] < |slots|
    decreases m
  {
    if m == 0 then []
    else
      var c := Choice(slots, start, now, window);
      [c] + Turns(AfterChoice(slots, start, now, window), Ring(c, 1, |slots|), now, window, m - 1)
  }

  ghost function Count(s: seq<nat>, c: nat): nat {
    if s == [] then 0 else (if s[0] == c then 1 else 0) + Count(s[1..], c)
  }

  lemma NoMarksNoSkips(slots: seq<Slot>, start: nat, now: int, window: int)
    requires start < |slots| && forall i :: 0 <= i < |slots| ==> slots[i].failedAt == None
    ensures Choice(slots, start, now, window) == start
    ensures AfterChoice(slots, start, now, window) == slots
  {
  }

  /** How often place `c` comes up in `m` turns from `start`, up to less than one turn. */
  lemma {:induction false} TurnsCount(slots: seq<Slot>, start: nat, now: int, window: int, m: nat, c: nat)
    requires start < |slots| && c < |slots|
    requires forall i :: 0 <= i < |slots| ==> slots[i].failedAt == None
    ensures var left := m - Distance(start, |slots|, c);
            left <= Count(Turns(slots, start, now, window, m), c) * |slots| < left + |slots|
    decreases m
  {
    hide Turns, Count, Distance, Ring;
    var n := |slots|;
    var d := Distance(start, n, c);
    assert d < n by { RingReaches(start, n, c); }
    if m == 0 {
      assert Count(Turns(slots, start, now, window, 0), c) == 0 by { NoTurns(slots, start, now, window, c); }
    } else {
      TurnsStep(slots, start, now, window, m, c);
      DistanceStep(start, n, c);
      TurnsCount(slots, Ring(start, 1, n), now, window, m - 1, c);
      var k := Count(Turns(slots, Ring(start, 1, n), now, window, m - 1), c);
      assert (1 + k) * n == n + k * n;
    }
  }

  lemma NoTurns(slots: seq<Slot>, start: nat, now: int, window: int, c: nat)
    requires start < |slots|
    ensures Count(Turns(slots, start, now, window, 0), c) == 0
  {
  }

  lemma TurnsStep(slots: seq<Slot>, start: nat, now: int, window: int, m: nat, c: nat)
    requires start < |slots| && m > 0
    requires forall i :: 0 <= i < |slots| ==> slots[i].failedAt == None
    ensures Count(Turns(slots, start, now, window, m), c)
         == (if start == c then 1 else 0) + Count(Turns(slots, Ring(start, 1, |slots|), now, window, m - 1), c)
  {
    NoMarksNoSkips(slots, start, now, window);
    assert Turns(slots, start, now, window, m)[1..] == Turns(slots, Ring(start, 1, |slots|), now, window, m - 1);
  }

  lemma DistanceStep(start: nat, n: nat, c: nat)
    requires start < n && c < n
    ensures Distance(start, n, c) == 0 <==> start == c
    ensures Distance(Ring(start, 1, n), n, c) == if start == c then n - 1 else Distance(start, n, c) - 1
  {
  }

  /** With fixed members and no marks, any `m` calls choose each place floor(m/n) or ceil(m/n) times. */
  lemma TurnsAreFair(slots: seq<Slot>, start: nat, now: int, window: int, m: nat, c: nat)
    requires start < |slots| && c < |slots|
    requires forall i :: 0 <= i < |slots| ==> slots[i].failedAt == None
    ensures m / |slots| <= Count(Turns(slots, start, now, window, m), c) <= (m + |slots| - 1) / |slots|
  {
    TurnsCount(slots, start, now, window, m, c);
    QuotientBounds(Count(Turns(slots, start, now, window, m), c), |slots|, m);
  }

  lemma QuotientBounds(q: int, n: int, m: int)
    requires n > 0 && m - n < q * n < m + n
    ensures m / n <= q <= (m + n - 1) / n
  {
    AtLeastQuotient(q, n, m);
    AtMostQuotient(q, n, m + n - 1);
  }

  lemma MulLe(a: int, b: int, n: int)
    requires a <= b && n > 0
    ensures a * n <= b * n
  {
  }

  lemma AtLeastQuotient(q: int, n: int, m: int)
    requires n > 0 && m - n < q * n
    ensures m / n <= q
  {
    var p := m / n;
    assert p * n <= m;
    if q + 1 <= p {
      MulLe(q + 1, p, n);
    }
  }

  lemma AtMostQuotient(q: int, n: int, m: int)
    requires n > 0 && q * n <= m
    ensures q <= m / n
  {
    var p := m / n;
    assert m < (p + 1) * n;
    if p + 1 <= q {
      MulLe(p + 1, q, n);
    }
  }
}
