/** When each application was last active. */
module ActiveAppsModel {
  import opened Collections
  import opened HeapModel
  import opened Heaps
  import opened AppTables

  type Times = map<string, int>

  /** A mark never sets a time back; an unknown application starts from time 0. */
  function Marked(v: Times, app: string, t: int): Times {
    var was := if app in v then v[app] else 0;
    v[app := if was < t then t else was]
  }

  lemma MarkedAnew(v: Times, app: string, t: int)
    ensures Marked(v[app := if app in v then v[app] else 0], app, t) == Marked(v, app, t)
  {
  }

  /** Applications last active at `t` or before are forgotten. */
  function Trimmed(v: Times, t: int): Times {
    map a | a in v && v[a] > t :: v[a]
  }

  lemma TrimmedDrop(v: Times, app: string, t: int)
    requires app in v && v[app] <= t
    ensures Trimmed(v - {app}, t) == Trimmed(v, t)
  {
  }

  datatype Op = MarkOp(app: string, t: int) | TrimOp(t: int)

  function Next(v: Times, op: Op): Times {
    match op
    case MarkOp(app, t) => Marked(v, app, t)
    case TrimOp(t) => Trimmed(v, t)
  }

  function Replay(v: Times, ops: seq<Op>): Times
    decreases |ops|
  {
    if ops == [] then v else Replay(Next(v, ops[0]), ops[1..])
  }

  // ---------- Runs: which time is remembered ----------

  ghost predicate MarkedIn(ops: seq<Op>, app: string, t: int) {
    exists i :: 0 <= i < |ops| && ops[i] == MarkOp(app, t)
  }

  /** Some mark of the application, at whatever time. */
  ghost predicate Mentions(ops: seq<Op>, app: string) {
    exists i :: 0 <= i < |ops| && ops[i].MarkOp? && ops[i].app == app
  }

  /** A trim that forgets time `t`. */
  ghost predicate TrimmedIn(ops: seq<Op>, t: int) {
    exists i :: 0 <= i < |ops| && ops[i].TrimOp? && ops[i].t >= t
  }

  lemma Ahead(op: Op, ops: seq<Op>, app: string, t: int)
    ensures MarkedIn([op] + ops, app, t) <==> op == MarkOp(app, t) || MarkedIn(ops, app, t)
    ensures Mentions([op] + ops, app) <==> (op.MarkOp? && op.app == app) || Mentions(ops, app)
    ensures TrimmedIn([op] + ops, t) <==> (op.TrimOp? && op.t >= t) || TrimmedIn(ops, t)
  {
    var all := [op] + ops;
    assert all[0] == op;
    forall i | 0 <= i < |ops| ensures all[i + 1] == ops[i] {
    }
    forall i | 1 <= i < |all| ensures all[i] == ops[i - 1] {
    }
  }

  /** A remembered time is the time of a mark, the time it started from, or 0. */
  lemma {:induction false} TimeIsAMark(v: Times, ops: seq<Op>, app: string)
    requires app in Replay(v, ops)
    ensures var t := Replay(v, ops)[app]; t == 0 || (app in v && v[app] == t) || MarkedIn(ops, app, t)
    decreases |ops|
  {
    hide MarkedIn;
    if ops != [] {
      assert ops == [ops[0]] + ops[1..];
      TimeIsAMark(Next(v, ops[0]), ops[1..], app);
      Ahead(ops[0], ops[1..], app, Replay(v, ops)[app]);
    }
  }

  /** A time, once reached, is only lost to a trim that reaches it. */
  lemma {:induction false} TimeKept(v: Times, ops: seq<Op>, app: string, t: int)
    requires app in v && v[app] >= t
    ensures (app in Replay(v, ops) && Replay(v, ops)[app] >= t) || TrimmedIn(ops, t)
    decreases |ops|
  {
    hide TrimmedIn;
    if ops != [] {
      assert ops == [ops[0]] + ops[1..];
      Ahead(ops[0], ops[1..], app, t);
      if app in Next(v, ops[0]) {
        TimeKept(Next(v, ops[0]), ops[1..], app, t);
      }
    }
  }

  /** Every mark is remembered, by its own time or a later one, until a trim reaches it. */
  lemma {:induction false} MarkKept(v: Times, ops: seq<Op>, i: nat)
    requires i < |ops| && ops[i].MarkOp?
    ensures var now := Replay(v, ops);
            (ops[i].app in now && now[ops[i].app] >= ops[i].t) || TrimmedIn(ops[i + 1..], ops[i].t)
    decreases |ops|
  {
    hide TrimmedIn;
    if i == 0 {
      TimeKept(Next(v, ops[0]), ops[1..], ops[0].app, ops[0].t);
    } else {
      MarkKept(Next(v, ops[0]), ops[1..], i - 1);
      assert ops[1..][i..] == ops[i + 1..];
    }
  }

  /** Without a new mark a forgotten application stays forgotten, and a later time stays later. */
  lemma {:induction false} StaysAbove(v: Times, ops: seq<Op>, app: string, u: int)
    requires app in v ==> v[app] > u
    ensures app !in Replay(v, ops) || Replay(v, ops)[app] > u || Mentions(ops, app)
    decreases |ops|
  {
    hide Mentions;
    if ops != [] {
      assert ops == [ops[0]] + ops[1..];
      Ahead(ops[0], ops[1..], app, u);
      if app in Next(v, ops[0]) ==> Next(v, ops[0])[app] > u {
        StaysAbove(Next(v, ops[0]), ops[1..], app, u);
      }
    }
  }

  /** After a trim only later times are left, until the application is marked again. */
  lemma {:induction false} TrimLasts(v: Times, ops: seq<Op>, i: nat, app: string)
    requires i < |ops| && ops[i].TrimOp?
    ensures app !in Replay(v, ops) || Replay(v, ops)[app] > ops[i].t || Mentions(ops[i + 1..], app)
    decreases |ops|
  {
    hide Mentions;
    if i == 0 {
      StaysAbove(Next(v, ops[0]), ops[1..], app, ops[0].t);
    } else {
      TrimLasts(Next(v, ops[0]), ops[1..], i - 1, app);
      assert ops[1..][i..] == ops[i + 1..];
    }
  }

  class ActiveApps {
    var m: map<string, Entry>
    const i: Heap
    const j: Heap

    ghost predicate Valid()
      reads this, i, i.h, j, j.h, m.Values
    {
      Named() && Twins(i, j, m.Values, m.Values)
    }

    ghost function View(): Times
      reads this`m, m.Values`t
    {
      map a | a in m :: m[a].t
    }

    constructor ()
      ensures Valid() && View() == map[] && fresh(i) && fresh(j)
    {
      m := map[];
      i := new Heap(ByTimeMin, false, []);
      j := new Heap(ByTimeMax, false, []);
    }

    ghost function Footprint(): set<object>
      reads this
    {
      {this, i, j} + m.Values
    }

    ghost predicate Named()
      reads this
    {
      && i.order == ByTimeMin && j.order == ByTimeMax
      && forall a :: a in m ==> m[a].applicationId == a
    }

    method Mark(app: string, t: int)
      requires Valid()
      modifies Footprint()
      ensures Valid() && fresh(m.Values - old(m.Values))
      ensures View() == Marked(old(View()), app, t)
    {
      hide Twins, View, Marked;
      MarkedAnew(View(), app, t);
      var y := TakeOut(app);
      SetTime(app, y, t);
      PutBack(y);
    }

    /** Marks an entry that is in neither heap. */
    method SetTime(app: string, y: Entry, t: int)
      requires Named() && app in m && y == m[app] && y !in i.h && y !in j.h
      requires Twins(i, j, m.Values - {y}, m.Values - {y})
      modifies y`t
      ensures Named() && Twins(i, j, m.Values - {y}, m.Values - {y})
      ensures View() == Marked(old(View()), app, t)
    {
      hide Twins;
      y.MarkActive(t);
    }

    method PutBack(y: Entry)
      requires Named() && y in m.Values && Twins(i, j, m.Values - {y}, m.Values - {y})
      modifies i`h, j`h, m.Values`first, m.Values`second
      ensures Valid() && View() == old(View())
    {
      hide Twins;
      assert m.Values - {y} + {y} == m.Values;
      Attach(i, j, y, m.Values - {y});
    }

    /** The entry of `app`, old or new, in the map but in neither heap. */
    method TakeOut(app: string) returns (y: Entry)
      requires Valid()
      modifies Footprint()
      ensures Named() && app in m && y == m[app] && y in m.Values && fresh(m.Values - old(m.Values))
      ensures Twins(i, j, m.Values - {y}, m.Values - {y}) && y !in i.h && y !in j.h
      ensures View() == old(View())[app := if app in old(View()) then old(View())[app] else 0]
    {
      hide Twins;
      ghost var s := m.Values;
      if app in m {
        y := m[app];
        var _, _ := Detach(i, j, y, s);
      } else {
        y := new Entry(app);
        ValuesInserted(m, app, y);
        m := m[app := y];
        assert m.Values - {y} == s;
      }
    }

    /** The body of the trimming loop: the oldest entry goes, or is put back and trimming is over. */
    method TrimOldest(t: int) returns (done: bool)
      requires Valid() && |i.h| > 0
      modifies Footprint()
      ensures Valid() && m.Values <= old(m.Values)
      ensures done ==> View() == old(View()) && forall a :: a in View() ==> View()[a] > t
      ensures !done ==> |i.h| < old(|i.h|) && Trimmed(View(), t) == Trimmed(old(View()), t)
    {
      hide Twins, Trimmed;
      ghost var s := m.Values;
      var z := PopFrom(i, j, s, s);
      done := z.t > t;
      if done {
        assert forall a :: a in m ==> m[a] in s;
        PutFirst(z);
      } else {
        ghost var v := View();
        TrimmedDrop(v, z.applicationId, t);
        Forget(z);
        assert View() == v - {z.applicationId};
      }
    }

    method PutFirst(z: Entry)
      requires Named() && z in m.Values && Twins(i, j, m.Values - {z}, m.Values)
      modifies i`h, m.Values`first, m.Values`second
      ensures Valid()
    {
      hide Twins;
      assert m.Values - {z} + {z} == m.Values;
      PushTo(i, j, z, m.Values - {z}, m.Values);
    }

    method Forget(z: Entry)
      requires Named() && z in m.Values && Twins(i, j, m.Values - {z}, m.Values)
      modifies this`m, j`h, m.Values`first, m.Values`second
      ensures Valid() && m == old(m) - {z.applicationId} && m.Values == old(m.Values) - {z}
    {
      hide Holds;
      var _ := RemoveFrom(j, i, z, m.Values, m.Values - {z});
      assert exists a :: a in m && m[a] == z;
      ValuesRemoved(m, z.applicationId);
      m := m - {z.applicationId};
    }

    method Trim(t: int)
      requires Valid()
      modifies Footprint()
      ensures Valid() && m.Values <= old(m.Values)
      ensures View() == Trimmed(old(View()), t)
    {
      hide Twins;
      ghost var v := View();
      EmptyApps();
      while |i.h| > 0
        invariant Valid() && m.Values <= old(m.Values)
        invariant Trimmed(View(), t) == Trimmed(v, t)
        invariant |i.h| == 0 ==> View() == map[]
        decreases |i.h|
      {
        var done := TrimOldest(t);
        if done {
          assert Trimmed(View(), t) == View();
          return;
        }
        EmptyApps();
      }
    }

    lemma EmptyApps()
      requires Valid()
      ensures |i.h| == 0 <==> View() == map[]
    {
      EmptyHeld(i, m.Values);
      if m != map[] {
        var a :| a in m;
        assert m[a] in m.Values && a in View();
      }
    }

    /** Applications active at `t` or later, the latest first; the live heaps are not touched. */
    method ActiveSince(t: int) returns (b: seq<string>)
      requires Valid()
      ensures NoDup(b)
      ensures forall a :: a in b <==> a in View() && View()[a] >= t
      ensures forall p, q :: 0 <= p < q < |b| ==> b[p] in View() && b[q] in View() && View()[b[p]] >= View()[b[q]]
    {
      hide Twins, Popped, NoDup, Heap.Valid, RankMap;
      ghost var k := RankMap(ByTimeMax, m.Values);
      LatestFirst(k);
      var a := new Heap(ByTimeMax, true, j.h);
      SnapshotValid(j, a, k);
      NothingPopped(m.Values, k);
      ghost var out: seq<Entry> := [];
      b := [];
      while |a.h| > 0
        invariant a.Valid(k) && fresh(a) && a.snapshot && a.order == ByTimeMax
        invariant Popped(out, Elems(a.h), m.Values, k) && Listed(out, b, t)
        decreases |a.h|
      {
        ghost var rest := Elems(a.h);
        var z := PopSnapshot(a, k, out, m.Values);
        if z.t < t {
          TooOld(rest, z, t, k);
          Collected(out, rest, b, t, k);
          return;
        }
        out := out + [z];
        b := b + [z.applicationId];
      }
      assert Elems(a.h) == {};
      Collected(out, {}, b, t, k);
    }

    /** `b` names the entries in `out`, all active at `t` or later. */
    ghost predicate Listed(out: seq<Entry>, b: seq<string>, t: int)
      reads out
    {
      |b| == |out| && forall p :: 0 <= p < |b| ==> b[p] == out[p].applicationId && out[p].t >= t
    }

    lemma LatestFirst(k: map<Entry, int>)
      requires Valid() && k == RankMap(ByTimeMax, m.Values)
      ensures j.Valid(k) && Elems(j.h) == m.Values && k.Keys == m.Values
    {
    }

    lemma TooOld(rest: set<Entry>, z: Entry, t: int, k: map<Entry, int>)
      requires k == RankMap(ByTimeMax, m.Values) && z in k && z.t < t
      requires forall e :: e in rest ==> e in k && k[z] <= k[e]
      ensures forall e :: e in rest ==> e.t < t
    {
    }

    /** The names popped so far are the answer once the rest is too old. */
    lemma Collected(out: seq<Entry>, rest: set<Entry>, b: seq<string>, t: int, k: map<Entry, int>)
      requires Valid() && k == RankMap(ByTimeMax, m.Values) && Popped(out, rest, m.Values, k)
      requires Listed(out, b, t) && forall e :: e in rest ==> e.t < t
      ensures NoDup(b)
      ensures forall a :: a in b <==> a in View() && View()[a] >= t
      ensures forall p, q :: 0 <= p < q < |b| ==> b[p] in View() && b[q] in View() && View()[b[p]] >= View()[b[q]]
    {
      forall p | 0 <= p < |out| ensures b[p] in m && m[b[p]] == out[p] {
        assert out[p] in Elems(out);
        var a :| a in m && m[a] == out[p];
      }
      forall a | a in m && m[a].t >= t ensures a in b {
        assert m[a] in m.Values;
        assert m[a] in Elems(out);
        var p :| 0 <= p < |out| && out[p] == m[a];
        assert b[p] == a;
      }
    }

    /** Any run of marks and trims. */
    method Play(ops: seq<Op>)
      requires Valid()
      modifies Footprint()
      ensures Valid() && fresh(m.Values - old(m.Values))
      ensures View() == Replay(old(View()), ops)
    {
      hide Twins, Marked, Trimmed;
      ghost var v := View();
      var p := 0;
      while p < |ops|
        invariant p <= |ops| && Valid() && fresh(m.Values - old(m.Values))
        invariant Replay(View(), ops[p..]) == Replay(v, ops)
      {
        assert ops[p..][0] == ops[p] && ops[p..][1..] == ops[p + 1..];
        match ops[p] {
          case MarkOp(app, t) => Mark(app, t);
          case TrimOp(t) => Trim(t);
        }
        p := p + 1;
      }
    }
  }
}
