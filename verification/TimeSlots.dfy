/** Requests of one application, counted per second. */
module TimeSlots {

  datatype TimeSlot = TimeSlot(t: int, n: int)

  function Sum(s: seq<TimeSlot>): int {
    if s == [] then 0 else s[0].n + Sum(s[1..])
  }

  /** Times go up and every slot has a request. */
  ghost predicate Steady(s: seq<TimeSlot>) {
    && (forall i, j :: 0 <= i < j < |s| ==> s[i].t < s[j].t)
    && (forall i :: 0 <= i < |s| ==> s[i].n > 0)
  }

  function Marked(s: seq<TimeSlot>, t: int): seq<TimeSlot> {
    if s == [] || s[|s| - 1].t < t then s + [TimeSlot(t, 1)]
    else s[|s| - 1 := TimeSlot(s[|s| - 1].t, s[|s| - 1].n + 1)]
  }

  /** The slots from the first one later than `t` on. */
  function Later(s: seq<TimeSlot>, t: int): seq<TimeSlot> {
    if s == [] || s[0].t > t then s else Later(s[1..], t)
  }

  lemma {:induction false} SumConcat(a: seq<TimeSlot>, b: seq<TimeSlot>)
    ensures Sum(a + b) == Sum(a) + Sum(b)
    decreases |a|
  {
    if a == [] {
      assert a + b == b;
    } else {
      assert (a + b)[1..] == a[1..] + b;
      SumConcat(a[1..], b);
    }
  }

  /** A mark adds one request and keeps the times rising, even for a time that lies back. */
  lemma MarkedIsSteady(s: seq<TimeSlot>, t: int)
    requires Steady(s)
    ensures Steady(Marked(s, t)) && Sum(Marked(s, t)) == Sum(s) + 1 && Marked(s, t) != []
  {
    hide Sum;
    MarkedSum(s, t);
  }

  lemma MarkedSum(s: seq<TimeSlot>, t: int)
    ensures Sum(Marked(s, t)) == Sum(s) + 1
  {
    if s == [] || s[|s| - 1].t < t {
      SumConcat(s, [TimeSlot(t, 1)]);
    } else {
      var front, last := s[..|s| - 1], s[|s| - 1];
      assert s == front + [last] && Marked(s, t) == front + [TimeSlot(last.t, last.n + 1)];
      SumConcat(front, [last]);
      SumConcat(front, [TimeSlot(last.t, last.n + 1)]);
    }
  }

  /** Requests held in slots of time `x`. */
  function HeldAt(s: seq<TimeSlot>, x: int): int {
    if s == [] then 0 else (if s[0].t == x then s[0].n else 0) + HeldAt(s[1..], x)
  }

  /** Requests held in slots later than `u`. */
  function HeldAfter(s: seq<TimeSlot>, u: int): int {
    if s == [] then 0 else (if s[0].t > u then s[0].n else 0) + HeldAfter(s[1..], u)
  }

  /** The time a request at `t` is counted under: the later of `t` and the latest slot. */
  function Landed(s: seq<TimeSlot>, t: int): (r: int)
    ensures r >= t && forall i :: 0 <= i < |s| && Steady(s) ==> r >= s[i].t
    ensures r == t || exists i :: 0 <= i < |s| && s[i].t == r
  {
    if s == [] || s[|s| - 1].t < t then t else s[|s| - 1].t
  }

  lemma {:induction false} HeldSnoc(s: seq<TimeSlot>, last: TimeSlot, x: int)
    ensures HeldAt(s + [last], x) == HeldAt(s, x) + if last.t == x then last.n else 0
    ensures HeldAfter(s + [last], x) == HeldAfter(s, x) + if last.t > x then last.n else 0
    decreases |s|
  {
    if s == [] {
      assert s + [last] == [last] && [last][1..] == [];
    } else {
      assert (s + [last])[1..] == s[1..] + [last];
      HeldSnoc(s[1..], last, x);
    }
  }

  /** A mark adds one request at the time it lands on, and changes nothing at any other time. */
  lemma MarkedAt(s: seq<TimeSlot>, t: int, x: int)
    ensures HeldAt(Marked(s, t), x) == HeldAt(s, x) + if x == Landed(s, t) then 1 else 0
    ensures HeldAfter(Marked(s, t), x) == HeldAfter(s, x) + if Landed(s, t) > x then 1 else 0
    ensures Marked(s, t) != [] && Marked(s, t)[|Marked(s, t)| - 1].t == Landed(s, t)
  {
    hide HeldAt, HeldAfter;
    if s == [] || s[|s| - 1].t < t {
      HeldSnoc(s, TimeSlot(t, 1), x);
    } else {
      var front, last := s[..|s| - 1], s[|s| - 1];
      assert s == front + [last] && Marked(s, t) == front + [TimeSlot(last.t, last.n + 1)];
      HeldSnoc(front, last, x);
      HeldSnoc(front, TimeSlot(last.t, last.n + 1), x);
    }
  }

  /** Trimming up to `t` leaves what is held at later times, and nothing else. */
  lemma {:induction false} LaterHolds(s: seq<TimeSlot>, t: int, x: int)
    requires Steady(s)
    ensures x >= t ==> HeldAfter(Later(s, t), x) == HeldAfter(s, x)
    ensures Sum(Later(s, t)) == HeldAfter(s, t)
    decreases |s|
  {
    if s != [] {
      LaterHolds(s[1..], t, x);
      if s[0].t > t {
        assert s[1..] == [] || s[1..][0].t > t;
      }
    }
  }

  /** Something is held after `u` exactly when the latest slot is later than `u`. */
  lemma {:induction false} HeldIff(s: seq<TimeSlot>, u: int)
    requires Steady(s)
    ensures HeldAfter(s, u) >= 0
    ensures HeldAfter(s, u) > 0 <==> s != [] && s[|s| - 1].t > u
    decreases |s|
  {
    if s != [] {
      HeldIff(s[1..], u);
    }
  }

  /** Trimming keeps exactly the slots later than `t`. */
  lemma {:induction false} LaterIsExact(s: seq<TimeSlot>, t: int)
    requires Steady(s)
    ensures Steady(Later(s, t))
    ensures forall x :: x in Later(s, t) <==> x in s && x.t > t
    ensures Later(s, t) != [] ==> Later(s, t)[0].t > t
    ensures Later(s, t) == s <==> s == [] || s[0].t > t
    decreases |s|
  {
    if s != [] && s[0].t <= t {
      LaterIsExact(s[1..], t);
      LaterIsShort(s[1..], t);
    }
  }

  lemma {:induction false} LaterIsShort(s: seq<TimeSlot>, t: int)
    ensures |Later(s, t)| <= |s|
    decreases |s|
  {
    if s != [] && s[0].t <= t {
      LaterIsShort(s[1..], t);
    }
  }
}
