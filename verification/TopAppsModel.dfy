/** Requests per application over a sliding window, and the busiest applications. */
module TopAppsModel {
  import opened Collections
  import opened HeapModel
  import opened TimeSlots
  import opened Heaps
  import opened AppTables

  type Counts = map<string, seq<TimeSlot>>

  function MarkedCounts(v: Counts, app: string, t: int): Counts {
    v[app := Marked(if app in v then v[app] else [], t)]
  }

  lemma MarkedAnew(v: Counts, app: string, t: int)
    ensures MarkedCounts(v[app := if app in v then v[app] else []], app, t) == MarkedCounts(v, app, t)
  {
  }

  /** Every application keeps its slots later than `t`; one with none left is dropped. */
  function LaterCounts(v: Counts, t: int): Counts {
    map a | a in v && Later(v[a], t) != [] :: Later(v[a], t)
  }

  ghost predicate SteadyCounts(v: Counts) {
    forall a :: a in v ==> v[a] != [] && Steady(v[a])
  }

  /** Trimming one application ahead of the others changes nothing in the end. */
  lemma LaterOnce(v: Counts, app: string, t: int)
    requires app in v && SteadyCounts(v)
    ensures Later(v[app], t) == [] ==> LaterCounts(v - {app}, t) == LaterCounts(v, t)
    ensures Later(v[app], t) != [] ==>
              && SteadyCounts(v[app := Later(v[app], t)])
              && LaterCounts(v[app := Later(v[app], t)], t) == LaterCounts(v, t)
  {
    LaterIsExact(v[app], t);
    LaterIsExact(Later(v[app], t), t);
  }

  lemma NothingToTrim(v: Counts, t: int)
    requires SteadyCounts(v) && forall a :: a in v ==> v[a][0].t > t
    ensures LaterCounts(v, t) == v
  {
  }

  // ---------- Runs and the requests they account for ----------

  datatype Op = MarkOp(app: string, now: int) | TrimOp(until: int)

  function Applied(v: Counts, op: Op): Counts {
    match op
    case MarkOp(app, now) => MarkedCounts(v, app, now)
    case TrimOp(until) => LaterCounts(v, until)
  }

  function Replay(v: Counts, ops: seq<Op>): Counts
    decreases |ops|
  {
    if ops == [] then v else Replay(Applied(v, ops[0]), ops[1..])
  }

  ghost function Fold(f: map<string, int>): int
    decreases |f|
  {
    if f.Keys == {} then 0
    else
      var a :| a in f.Keys;
      assert (f - {a}).Keys == f.Keys - {a};
      f[a] + Fold(f - {a})
  }

  /** The fold may start with any key. */
  lemma {:induction false} FoldAt(f: map<string, int>, a: string)
    requires a in f
    ensures Fold(f) == f[a] + Fold(f - {a})
    decreases |f|
  {
    var b :| b in f.Keys && Fold(f) == f[b] + Fold(f - {b});
    if a != b {
      assert (f - {b}).Keys == f.Keys - {b} && (f - {a}).Keys == f.Keys - {a};
      FoldAt(f - {b}, a);
      FoldAt(f - {a}, b);
      assert f - {b} - {a} == f - {a} - {b};
    }
  }

  /** Splitting every summand splits the fold; a missing key counts as 0. */
  lemma {:induction false} FoldSplit(f: map<string, int>, g: map<string, int>, h: map<string, int>)
    requires g.Keys <= f.Keys == h.Keys
    requires forall a :: a in f ==> f[a] == (if a in g then g[a] else 0) + h[a]
    ensures Fold(f) == Fold(g) + Fold(h)
    decreases |f|
  {
    if a :| a in f.Keys {
      assert (f - {a}).Keys == f.Keys - {a};
      FoldSplit(f - {a}, g - {a}, h - {a});
      FoldAt(f, a);
      FoldAt(h, a);
      if a in g {
        FoldAt(g, a);
      } else {
        assert g - {a} == g;
      }
    }
  }

  /** Requests in slots at `t` or before. */
  function UpTo(s: seq<TimeSlot>, t: int): int {
    if s == [] then 0 else (if s[0].t <= t then s[0].n else 0) + UpTo(s[1..], t)
  }

  lemma {:induction false} LaterLeaves(s: seq<TimeSlot>, t: int)
    requires Steady(s)
    ensures Sum(s) == Sum(Later(s, t)) + UpTo(s, t)
    decreases |s|
  {
    if s != [] {
      LaterLeaves(s[1..], t);
      if s[0].t > t {
        assert s[1..] == [] || s[1..][0].t > t;
      }
    }
  }

  ghost function Total(v: Counts): int {
    Fold(Totals(v))
  }

  function Expiring(v: Counts, t: int): map<string, int> {
    map a | a in v :: UpTo(v[a], t)
  }

  lemma NoSlots()
    ensures Steady([]) && Sum([]) == 0
  {
  }

  lemma MarkAddsOne(v: Counts, app: string, now: int)
    requires SteadyCounts(v)
    ensures SteadyCounts(MarkedCounts(v, app, now)) && Total(MarkedCounts(v, app, now)) == Total(v) + 1
  {
    hide Sum, Steady, Marked, Fold;
    NoSlots();
    var r := MarkedCounts(v, app, now);
    MarkedIsSteady(if app in v then v[app] else [], now);
    FoldAt(Totals(r), app);
    assert Totals(r) - {app} == Totals(v) - {app};
    if app in v {
      FoldAt(Totals(v), app);
    } else {
      assert Totals(v) - {app} == Totals(v);
    }
  }

  lemma TrimTakesExpired(v: Counts, t: int)
    requires SteadyCounts(v)
    ensures SteadyCounts(LaterCounts(v, t)) && Total(LaterCounts(v, t)) == Total(v) - Fold(Expiring(v, t))
  {
    forall a | a in v ensures Sum(v[a]) == Sum(Later(v[a], t)) + UpTo(v[a], t) && Steady(Later(v[a], t)) {
      LaterLeaves(v[a], t);
      LaterIsExact(v[a], t);
    }
    FoldSplit(Totals(v), Totals(LaterCounts(v, t)), Expiring(v, t));
  }

  /** Marks of a run less the requests its trims let expire. */
  ghost function Balance(v: Counts, ops: seq<Op>): int
    decreases |ops|
  {
    if ops == [] then 0
    else (match ops[0] case MarkOp(_, _) => 1 case TrimOp(until) => -Fold(Expiring(v, until)))
         + Balance(Applied(v, ops[0]), ops[1..])
  }

  /** Requests are neither lost nor invented: what a run ends with is what it marked and did not let expire. */
  lemma {:induction false} RequestsConserved(v: Counts, ops: seq<Op>)
    requires SteadyCounts(v)
    ensures SteadyCounts(Replay(v, ops)) && Total(Replay(v, ops)) == Total(v) + Balance(v, ops)
    decreases |ops|
  {
    hide MarkedCounts, LaterCounts, Total, Fold, SteadyCounts;
    if ops != [] {
      match ops[0] {
        case MarkOp(app, now) => MarkAddsOne(v, app, now);
        case TrimOp(until) => TrimTakesExpired(v, until);
      }
      RequestsConserved(Applied(v, ops[0]), ops[1..]);
    }
  }

  // ---------- What a run holds for an application, from its marks alone ----------

  function SlotsOf(v: Counts, app: string): seq<TimeSlot> {
    if app in v then v[app] else []
  }

  /**
   * Marks of an application from the first one later than `u` on. A mark that lies back is counted
   * under a later time already reached, so all of these count after `u`, and the ones before do not.
   */
  function LateMarks(ops: seq<Op>, app: string, u: int, late: bool): nat
    decreases |ops|
  {
    if ops == [] then 0
    else if ops[0].MarkOp? && ops[0].app == app then
      var now := late || ops[0].now > u;
      (if now then 1 else 0) + LateMarks(ops[1..], app, u, now)
    else LateMarks(ops[1..], app, u, late)
  }

  ghost predicate TrimsUpTo(ops: seq<Op>, u: int) {
    forall i :: 0 <= i < |ops| && ops[i].TrimOp? ==> ops[i].until <= u
  }

  lemma AppliedSteady(v: Counts, op: Op)
    requires SteadyCounts(v)
    ensures SteadyCounts(Applied(v, op))
  {
    hide Steady, Marked, Later;
    NoSlots();
    match op {
      case MarkOp(app, now) => MarkedIsSteady(SlotsOf(v, app), now);
      case TrimOp(until) =>
        forall a | a in v ensures Steady(Later(v[a], until)) {
          LaterIsExact(v[a], until);
        }
    }
  }

  /** One operation: a late mark of the application adds one, everything else leaves its count alone. */
  lemma AppliedHeld(v: Counts, op: Op, app: string, u: int)
    requires SteadyCounts(v) && (op.TrimOp? ==> op.until <= u)
    ensures var held := HeldAfter(SlotsOf(v, app), u);
            HeldAfter(SlotsOf(Applied(v, op), app), u) ==
            held + if op.MarkOp? && op.app == app && (held > 0 || op.now > u) then 1 else 0
  {
    hide HeldAfter, Marked, Later;
    NoSlots();
    match op {
      case MarkOp(a, now) =>
        HeldIff(SlotsOf(v, app), u);
        MarkedAt(SlotsOf(v, app), now, u);
      case TrimOp(until) => LaterHolds(SlotsOf(v, app), until, u);
    }
  }

  /** What is held after `u` is what was held and the late marks of the run, whatever else it does up to `u`. */
  lemma {:induction false} HeldByMarks(v: Counts, ops: seq<Op>, app: string, u: int)
    requires SteadyCounts(v) && TrimsUpTo(ops, u)
    ensures SteadyCounts(Replay(v, ops))
    ensures var held := HeldAfter(SlotsOf(v, app), u);
            HeldAfter(SlotsOf(Replay(v, ops), app), u) == held + LateMarks(ops, app, u, held > 0)
    decreases |ops|
  {
    hide SteadyCounts, HeldAfter, Applied, SlotsOf;
    HeldNatural(v, app, u);
    if ops != [] {
      AppliedSteady(v, ops[0]);
      AppliedHeld(v, ops[0], app, u);
      HeldByMarks(Applied(v, ops[0]), ops[1..], app, u);
    }
  }

  lemma HeldNatural(v: Counts, app: string, u: int)
    requires SteadyCounts(v)
    ensures HeldAfter(SlotsOf(v, app), u) >= 0
  {
    NoSlots();
    HeldIff(SlotsOf(v, app), u);
  }

  /** After a run, trimming at `u` leaves each application with its late marks, and drops it if it has none. */
  lemma TotalsByMarks(ops: seq<Op>, app: string, u: int)
    requires TrimsUpTo(ops, u)
    ensures var totals := Totals(LaterCounts(Replay(map[], ops), u));
            && (app in totals <==> LateMarks(ops, app, u, false) > 0)
            && (app in totals ==> totals[app] == LateMarks(ops, app, u, false))
  {
    hide SteadyCounts, HeldAfter, Replay, Sum, Later;
    var v := Replay(map[], ops);
    assert SteadyCounts(map[]) by { NoCounts(); }
    HeldByMarks(map[], ops, app, u);
    TrimmedTotal(v, app, u);
    assert HeldAfter([], u) == 0 by { NothingHeld(u); }
  }

  lemma NoCounts()
    ensures SteadyCounts(map[])
  {
  }

  lemma NothingHeld(u: int)
    ensures HeldAfter([], u) == 0
  {
  }

  lemma TrimmedTotal(v: Counts, app: string, u: int)
    requires SteadyCounts(v)
    ensures app in LaterCounts(v, u) <==> HeldAfter(SlotsOf(v, app), u) > 0
    ensures app in LaterCounts(v, u) ==> Sum(LaterCounts(v, u)[app]) == HeldAfter(SlotsOf(v, app), u)
  {
    hide Later, HeldAfter, Sum;
    NoSlots();
    var s := SlotsOf(v, app);
    HeldIff(s, u);
    LaterHolds(s, u, u);
    LaterIsExact(s, u);
    if Later(s, u) != [] {
      assert Later(s, u)[0] in s;
    } else if s != [] {
      assert s[|s| - 1] in s;
    }
  }

  // ---------- The busiest ----------

  datatype TopEntry = TopEntry(applicationId: string, requests: int)

  function Totals(v: Counts): map<string, int> {
    map a | a in v :: Sum(v[a])
  }

  predicate Names(s: seq<TopEntry>, app: string) {
    exists q :: 0 <= q < |s| && s[q].applicationId == app
  }

  /** `s` lists the `limit` busiest applications, or all of them, the busiest first. */
  ghost predicate IsTop(s: seq<TopEntry>, limit: nat, totals: map<string, int>) {
    && |s| == (if limit < |totals| then limit else |totals|)
    && (forall p :: 0 <= p < |s| ==> s[p].applicationId in totals && s[p].requests == totals[s[p].applicationId])
    && (forall p, q :: 0 <= p < q < |s| ==>
      s[p].applicationId != s[q].applicationId && s[p].requests >= s[q].requests)
    && (forall a, p :: a in totals && !Names(s, a) && 0 <= p < |s| ==> totals[a] <= s[p].requests)
  }

  /** What every entry in the table satisfies. */
  ghost predicate Good(e: Entry)
    reads e
  {
    e.slots != [] && Steady(e.slots) && e.n == Sum(e.slots)
  }

  method Count(y: Entry, now: int)
    requires Steady(y.slots) && y.n == Sum(y.slots)
    modifies y`slots, y`n
    ensures Good(y) && y.slots == Marked(old(y.slots), now)
  {
    MarkedIsSteady(y.slots, now);
    y.MarkRequest(now);
  }

  /** Trimming an entry in order leaves it without slots, or in order and past `until`. */
  method Shed(y: Entry, until: int)
    requires Good(y)
    modifies y`slots, y`n
    ensures y.slots == Later(old(y.slots), until)
    ensures y.slots != [] ==> Good(y) && y.slots[0].t > until
  {
    LaterIsExact(y.slots, until);
    y.TrimSlots(until);
  }

  class TopApps {
    var m: map<string, Entry>
    const t: Heap
    const n: Heap

    ghost predicate Named()
      reads this
    {
      && t.order == ByFirstMark && n.order == ByRequests
      && forall a :: a in m ==> m[a].applicationId == a
    }

    ghost predicate AllGood(s: set<Entry>)
      reads s
    {
      forall e :: e in s ==> Good(e)
    }

    ghost predicate Valid()
      reads this, t, t.h, n, n.h, m.Values
    {
      Named() && AllGood(m.Values) && Twins(t, n, m.Values, m.Values)
    }

    ghost function View(): Counts
      reads this`m, m.Values`slots
    {
      map a | a in m :: m[a].slots
    }

    ghost function Footprint(): set<object>
      reads this
    {
      {this, t, n} + m.Values
    }

    constructor ()
      ensures Valid() && View() == map[] && fresh(t) && fresh(n)
    {
      m := map[];
      t := new Heap(ByFirstMark, false, []);
      n := new Heap(ByRequests, false, []);
    }

    method Mark(app: string, now: int)
      requires Valid()
      modifies Footprint()
      ensures Valid() && fresh(m.Values - old(m.Values))
      ensures View() == MarkedCounts(old(View()), app, now)
    {
      hide Twins, View, MarkedCounts, Good, AllGood, Steady, Sum;
      MarkedAnew(View(), app, now);
      var y := TakeOut(app);
      CountOut(app, y, now);
      PutBack(y);
    }

    /** Counts a request in an entry that is in neither heap. */
    method CountOut(app: string, y: Entry, now: int)
      requires Named() && app in m && y == m[app] && y !in t.h && y !in n.h && Steady(y.slots) && y.n == Sum(y.slots)
      requires Twins(t, n, m.Values - {y}, m.Values - {y}) && AllGood(m.Values - {y})
      modifies y`slots, y`n
      ensures Named() && Twins(t, n, m.Values - {y}, m.Values - {y}) && Good(y) && AllGood(m.Values - {y})
      ensures View() == MarkedCounts(old(View()), app, now)
    {
      hide Twins, Good, Marked;
      Count(y, now);
    }

    /** The entry of `app`, old or new, in the map but in neither heap. */
    method TakeOut(app: string) returns (y: Entry)
      requires Valid()
      modifies Footprint()
      ensures Named() && app in m && y == m[app] && y in m.Values && fresh(m.Values - old(m.Values))
      ensures AllGood(m.Values - {y}) && Steady(y.slots) && y.n == Sum(y.slots)
      ensures Twins(t, n, m.Values - {y}, m.Values - {y}) && y !in t.h && y !in n.h
      ensures View() == old(View())[app := if app in old(View()) then old(View())[app] else []]
    {
      hide Twins, Steady, Sum;
      if app in m {
        y := m[app];
        var z1, z2 := Detach(t, n, y, m.Values);
        assert z1 == y && z2 == y;
      } else {
        y := AddEntry(app);
      }
    }

    method AddEntry(app: string) returns (y: Entry)
      requires Valid() && app !in m
      modifies this`m
      ensures Named() && fresh(y) && m == old(m)[app := y] && m.Values == old(m.Values) + {y}
      ensures AllGood(m.Values - {y}) && y.slots == [] && Steady(y.slots) && y.n == Sum(y.slots)
      ensures Twins(t, n, m.Values - {y}, m.Values - {y}) && y !in t.h && y !in n.h
    {
      hide Twins, Good;
      ghost var s := m.Values;
      y := new Entry(app);
      ValuesInserted(m, app, y);
      m := m[app := y];
      assert m.Values - {y} == s;
    }

    method PutBack(y: Entry)
      requires Named() && y in m.Values && Good(y) && AllGood(m.Values - {y})
      requires Twins(t, n, m.Values - {y}, m.Values - {y})
      modifies t`h, n`h, m.Values`first, m.Values`second
      ensures Valid() && View() == old(View())
    {
      hide Twins, Steady, Sum;
      assert m.Values - {y} + {y} == m.Values;
      Attach(t, n, y, m.Values - {y});
    }

    /** Entries that still have a slot at `until` or before. */
    ghost function Stale(until: int): set<Entry>
      requires AllGood(m.Values)
      reads this, m.Values
    {
      set e | e in m.Values && e.slots[0].t <= until
    }

    /** The body of the trimming loop. */
    method TrimFirst(until: int) returns (done: bool)
      requires Valid() && |t.h| > 0
      modifies Footprint()
      ensures Valid() && m.Values <= old(m.Values)
      ensures done ==> View() == old(View()) && Stale(until) == {}
      ensures !done ==> LaterCounts(View(), until) == LaterCounts(old(View()), until)
      ensures !done ==> Stale(until) < old(Stale(until))
    {
      hide Twins, Steady, Sum;
      var u := PopFirst();
      done := u.slots[0].t > until;
      if done {
        PutBack(u);
      } else {
        assert Stale(until) == old(Stale(until)) && u in Stale(until);
        ShedAndSettle(u, until);
      }
    }

    /** The entry taken out gives up its old slots, then goes back or is forgotten. */
    method ShedAndSettle(u: Entry, until: int)
      requires Named() && AllGood(m.Values) && u in m.Values && u.slots[0].t <= until
      requires Twins(t, n, m.Values - {u}, m.Values - {u}) && u !in t.h && u !in n.h
      modifies Footprint()
      ensures Valid() && m.Values <= old(m.Values)
      ensures LaterCounts(View(), until) == LaterCounts(old(View()), until)
      ensures Stale(until) == old(Stale(until)) - {u}
    {
      hide Twins, LaterCounts, Later, Steady, Sum, View;
      ghost var v, stale := View(), Stale(until);
      ViewSteady();
      ShedOut(u, until);
      LaterOnce(v, u.applicationId, until);
      ghost var shed := View();
      Settle(u);
      assert u.slots == [] ==> shed - {u.applicationId} == v - {u.applicationId};
    }

    /** An entry without slots is forgotten, any other goes back. */
    method Settle(u: Entry)
      requires Named() && u in m.Values && AllGood(m.Values - {u}) && (u.slots != [] ==> Good(u))
      requires Twins(t, n, m.Values - {u}, m.Values - {u}) && u !in t.h && u !in n.h
      modifies this`m, t`h, n`h, m.Values`first, m.Values`second
      ensures Valid() && m.Values == if u.slots == [] then old(m.Values) - {u} else old(m.Values)
      ensures View() == if u.slots == [] then old(View()) - {u.applicationId} else old(View())
    {
      hide Twins, Good;
      if |u.slots| == 0 {
        Forget(u);
      } else {
        PutBack(u);
      }
    }

    /** Trims an entry that is in neither heap. */
    method ShedOut(u: Entry, until: int)
      requires Named() && AllGood(m.Values) && u in m.Values
      requires Twins(t, n, m.Values - {u}, m.Values - {u}) && u !in t.h && u !in n.h
      modifies u`slots, u`n
      ensures Named() && AllGood(m.Values - {u}) && Twins(t, n, m.Values - {u}, m.Values - {u})
      ensures u.applicationId in m && m[u.applicationId] == u && u.slots == Later(old(u.slots), until)
      ensures u.slots != [] ==> Good(u) && u.slots[0].t > until
      ensures u.applicationId in old(View()) && old(View())[u.applicationId] == old(u.slots)
      ensures View() == old(View())[u.applicationId := u.slots]
    {
      hide Twins, Later, Steady, Sum;
      assert exists a :: a in m && m[a] == u;
      Shed(u, until);
    }

    lemma ViewSteady()
      requires AllGood(m.Values)
      ensures SteadyCounts(View())
    {
      assert forall a :: a in m ==> m[a] in m.Values;
    }

    /** Pops the entry with the earliest first slot and takes it out of the other heap too. */
    method PopFirst() returns (u: Entry)
      requires Valid() && |t.h| > 0
      modifies Footprint()
      ensures m == old(m) && View() == old(View()) && AllGood(m.Values) && u in m.Values
      ensures forall e :: e in m.Values ==> e.slots == old(e.slots)
      ensures forall e :: e in m.Values ==> u.slots[0].t <= e.slots[0].t
      ensures Twins(t, n, m.Values - {u}, m.Values - {u}) && u !in t.h && u !in n.h
    {
      hide Holds, View, Steady, Sum;
      ghost var s := m.Values;
      u := PopFrom(t, n, s, s);
      var v := RemoveFrom(n, t, u, s, s - {u});
      assert v == u;
      HeldOnly(t, s - {u}, u);
      HeldOnly(n, s - {u}, u);
    }

    method Forget(u: Entry)
      requires Named() && u in m.Values && AllGood(m.Values - {u}) && Twins(t, n, m.Values - {u}, m.Values - {u})
      modifies this`m
      ensures Valid() && m == old(m) - {u.applicationId} && m.Values == old(m.Values) - {u}
    {
      hide Twins, Good;
      assert exists a :: a in m && m[a] == u;
      ValuesRemoved(m, u.applicationId);
      m := m - {u.applicationId};
    }

    /** `trim`: slots up to and including `until` are dropped everywhere. */
    method Trim(until: int)
      requires Valid()
      modifies Footprint()
      ensures Valid() && m.Values <= old(m.Values)
      ensures View() == LaterCounts(old(View()), until)
    {
      hide Twins, LaterCounts, Good;
      ghost var v := View();
      while |t.h| > 0
        invariant Valid() && m.Values <= old(m.Values)
        invariant LaterCounts(View(), until) == LaterCounts(v, until)
        decreases Stale(until)
      {
        var done := TrimFirst(until);
        if done {
          FreshView(until);
          return;
        }
      }
      assert Stale(until) == {} by { EmptyHeap(); }
      FreshView(until);
    }

    lemma EmptyHeap()
      requires Valid() && |t.h| == 0
      ensures m.Values == {}
    {
      EmptyHeld(t, m.Values);
    }

    lemma FreshView(until: int)
      requires Named() && AllGood(m.Values) && Stale(until) == {}
      ensures LaterCounts(View(), until) == View()
    {
      ViewSteady();
      forall a | a in m ensures View()[a][0].t > until {
        assert m[a] in m.Values && m[a] !in Stale(until);
      }
      NothingToTrim(View(), until);
    }

    /** The `limit` busiest applications since `y`. */
    method TopSince(y: int, limit: nat) returns (s: seq<TopEntry>)
      requires Valid()
      modifies Footprint()
      ensures Valid() && m.Values <= old(m.Values)
      ensures View() == LaterCounts(old(View()), y - 1)
      ensures IsTop(s, limit, Totals(View()))
    {
      hide Twins, LaterCounts, IsTop, Good, Totals;
      Trim(y - 1);
      s := PopTop(limit);
    }

    /** Pops a snapshot of the requests heap; the table itself, recorded places included, is only read. */
    method PopTop(limit: nat) returns (s: seq<TopEntry>)
      requires Valid()
      ensures IsTop(s, limit, Totals(View()))
    {
      hide Twins, Popped, NoDup, Heap.Valid, RankMap, IsTop, Good;
      ghost var k := RankMap(ByRequests, m.Values);
      BusiestFirst(k);
      var a := new Heap(ByRequests, true, n.h);
      SnapshotValid(n, a, k);
      NothingPopped(m.Values, k);
      ghost var out: seq<Entry> := [];
      s := [];
      while |a.h| > 0 && |s| < limit
        invariant a.Valid(k) && fresh(a) && a.snapshot
        invariant Popped(out, Elems(a.h), m.Values, k) && Listed(out, s) && |s| <= limit
        decreases |a.h|
      {
        var z := PopSnapshot(a, k, out, m.Values);
        out := out + [z];
        s := s + [TopEntry(z.applicationId, z.n)];
      }
      assert |s| < limit ==> Elems(a.h) == {};
      Collected(out, Elems(a.h), s, limit, k);
    }

    ghost predicate Listed(out: seq<Entry>, s: seq<TopEntry>)
      reads out
    {
      |s| == |out| && forall p :: 0 <= p < |s| ==> s[p] == TopEntry(out[p].applicationId, out[p].n)
    }

    lemma BusiestFirst(k: map<Entry, int>)
      requires Valid() && k == RankMap(ByRequests, m.Values)
      ensures n.Valid(k) && Elems(n.h) == m.Values && k.Keys == m.Values
    {
    }

    lemma Collected(out: seq<Entry>, rest: set<Entry>, s: seq<TopEntry>, limit: nat, k: map<Entry, int>)
      requires Named() && AllGood(m.Values) && k == RankMap(ByRequests, m.Values) && Popped(out, rest, m.Values, k)
      requires Listed(out, s) && |s| <= limit && (|s| < limit ==> rest == {})
      ensures IsTop(s, limit, Totals(View()))
    {
      hide Good, RankMap, Popped, Totals;
      RequestTotals();
      ListedNames(out, rest, s, k);
      ListedOrder(out, rest, s, k);
      OmittedBelow(out, rest, s, k);
      SizeOfOut(out, rest, k);
    }

    lemma ListedNames(out: seq<Entry>, rest: set<Entry>, s: seq<TopEntry>, k: map<Entry, int>)
      requires Named() && Popped(out, rest, m.Values, k) && Listed(out, s)
      ensures forall p :: 0 <= p < |s| ==> s[p].applicationId in m && m[s[p].applicationId] == out[p]
    {
      forall p | 0 <= p < |out| ensures s[p].applicationId in m && m[s[p].applicationId] == out[p] {
        assert out[p] in Elems(out);
        var a :| a in m && m[a] == out[p];
      }
    }

    lemma ListedOrder(out: seq<Entry>, rest: set<Entry>, s: seq<TopEntry>, k: map<Entry, int>)
      requires Named() && k == RankMap(ByRequests, m.Values) && Popped(out, rest, m.Values, k) && Listed(out, s)
      ensures forall p, q :: 0 <= p < q < |s| ==>
                s[p].applicationId != s[q].applicationId && s[p].requests >= s[q].requests
    {
      ListedNames(out, rest, s, k);
      forall p, q | 0 <= p < q < |s|
        ensures s[p].applicationId != s[q].applicationId && s[p].requests >= s[q].requests
      {
        assert out[p] != out[q] && k[out[p]] <= k[out[q]];
        assert out[p] in Elems(out) && out[q] in Elems(out);
      }
    }

    lemma OmittedBelow(out: seq<Entry>, rest: set<Entry>, s: seq<TopEntry>, k: map<Entry, int>)
      requires Named() && k == RankMap(ByRequests, m.Values) && Popped(out, rest, m.Values, k) && Listed(out, s)
      ensures forall a, p :: a in m && !Names(s, a) && 0 <= p < |s| ==> m[a].n <= s[p].requests
    {
      forall a, p | a in m && !Names(s, a) && 0 <= p < |s| ensures m[a].n <= s[p].requests {
        assert m[a] in m.Values;
        assert m[a] !in Elems(out);
        assert out[p] in Elems(out);
      }
    }

    lemma RequestTotals()
      requires AllGood(m.Values)
      ensures Totals(View()).Keys == m.Keys && |Totals(View())| == |m|
      ensures forall a :: a in m ==> Totals(View())[a] == m[a].n
    {
      assert Totals(View()).Keys == m.Keys;
      assert forall a :: a in m ==> m[a] in m.Values;
    }

    /** As many entries come out as there are applications, or as many as were asked for. */
    lemma SizeOfOut(out: seq<Entry>, rest: set<Entry>, k: map<Entry, int>)
      requires Named() && Popped(out, rest, m.Values, k)
      ensures |out| <= |m| && (rest == {} ==> |out| == |m|)
    {
      NoDupSize(out);
      ValuesSize(m);
      SubsetSize(Elems(out), m.Values);
    }

    /** Any run of marks and trims. */
    method Play(ops: seq<Op>)
      requires Valid()
      modifies Footprint()
      ensures Valid() && fresh(m.Values - old(m.Values))
      ensures View() == Replay(old(View()), ops)
    {
      hide Twins, Good, MarkedCounts, LaterCounts;
      ghost var v := View();
      var i := 0;
      while i < |ops|
        invariant i <= |ops| && Valid() && fresh(m.Values - old(m.Values))
        invariant Replay(View(), ops[i..]) == Replay(v, ops)
      {
        assert ops[i..][0] == ops[i] && ops[i..][1..] == ops[i + 1..];
        match ops[i] {
          case MarkOp(app, now) => Mark(app, now);
          case TrimOp(until) => Trim(until);
        }
        i := i + 1;
      }
    }
  }
}
