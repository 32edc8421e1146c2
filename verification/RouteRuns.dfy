/** Whole histories of the registry: registrations, removals and prunings in any order. */
module RouteRuns {
  import opened Options
  import opened Text
  import opened Uris
  import opened TrieShape
  import opened PoolModel
  import opened Herds
  import opened Registry
  import opened Pruning
  import opened Listing

  datatype Op =
    | RegisterOp(uri: string, endpoint: Endpoint, now: int)
    | UnregisterOp(uri: string, endpoint: Endpoint)
    | PruneOp(now: int)

  /** The table after one operation; `limit` is the registry's age limit. */
  ghost function Applied(r: Routes, op: Op, limit: int): Routes {
    match op
    case RegisterOp(uri, e, now) => Registered(r, Key(uri), e, now)
    case UnregisterOp(uri, e) => Unregistered(r, Key(uri), e)
    case PruneOp(now) => Pruned(r, Cutoff(now, limit))
  }

  ghost function Replay(r: Routes, ops: seq<Op>, limit: int): Routes
    decreases |ops|
  {
    if ops == [] then r else Applied(Replay(r, ops[..|ops| - 1], limit), ops[|ops| - 1], limit)
  }

  /** What callers owe: in the pool concerned, private ids and addresses are told apart. */
  ghost predicate Admissible(r: Routes, op: Op) {
    match op
    case RegisterOp(uri, e, _) => TableAdmits(TableAt(r, Key(uri)), e)
    case UnregisterOp(uri, e) => TableReleases(TableAt(r, Key(uri)), e)
    case PruneOp(_) => true
  }

  ghost predicate AdmissibleRun(r: Routes, ops: seq<Op>, limit: int) {
    forall i :: 0 <= i < |ops| ==> Admissible(Replay(r, ops[..i], limit), ops[i])
  }

  lemma ReplaySnoc(r: Routes, ops: seq<Op>, i: nat, limit: int)
    requires i < |ops|
    ensures Replay(r, ops[..i + 1], limit) == Applied(Replay(r, ops[..i], limit), ops[i], limit)
  {
    assert ops[..i + 1][..i] == ops[..i];
  }

  method Do(reg: RouteRegistry, op: Op)
    requires reg.Valid() && Admissible(reg.View(), op)
    modifies reg, reg.byUri, reg.byUri.nodes.Values, reg.ps, reg.es
    ensures reg.Valid() && reg.View() == Applied(old(reg.View()), op, reg.dropletStaleThreshold)
    ensures fresh(reg.byUri.nodes.Values - old(reg.byUri.nodes.Values))
    ensures fresh(reg.ps - old(reg.ps)) && fresh(reg.es - old(reg.es))
  {
    hide RouteRegistry.Valid, RouteRegistry.View, Registered, Unregistered, Pruned, LeavesLive;
    match op
    case RegisterOp(uri, endpoint, now) => reg.Register(uri, endpoint, now);
    case UnregisterOp(uri, endpoint) => reg.Unregister(uri, endpoint);
    case PruneOp(now) => PruneStaleDroplets(reg, now);
  }

  /** Any history: the trie denotes the table that the history gives on a plain map. */
  method Play(reg: RouteRegistry, ops: seq<Op>)
    requires reg.Valid() && AdmissibleRun(reg.View(), ops, reg.dropletStaleThreshold)
    modifies reg, reg.byUri, reg.byUri.nodes.Values, reg.ps, reg.es
    ensures reg.Valid() && reg.View() == Replay(old(reg.View()), ops, reg.dropletStaleThreshold)
  {
    hide RouteRegistry.Valid, RouteRegistry.View, Applied, Admissible;
    ghost var v, limit := reg.View(), reg.dropletStaleThreshold;
    var i := 0;
    while i < |ops|
      invariant i <= |ops| && reg.Valid() && reg.View() == Replay(v, ops[..i], limit)
      invariant fresh(reg.byUri.nodes.Values - old(reg.byUri.nodes.Values))
      invariant fresh(reg.ps - old(reg.ps)) && fresh(reg.es - old(reg.es))
    {
      ReplaySnoc(v, ops, i, limit);
      Do(reg, ops[i]);
      i := i + 1;
    }
    assert ops[..i] == ops;
  }

  // ---------- One address under one path ----------

  /** Within the registry's age limit, and within the endpoint's own if it has a positive one. */
  predicate InTime(rec: Record, now: int, limit: int) {
    var age, own := now - rec.updated, rec.endpoint.staleThreshold;
    age <= limit && (own <= 0 || age <= own)
  }

  /**
   * What an operation does to one address under one path: a registration enters the endpoint with its time unless
   * that very endpoint is there, a removal takes it away, a pruning takes it away when it is out of time.
   */
  ghost function PairAfter(rec: Option<Record>, op: Op, limit: int, q: Pair): Option<Record> {
    match op
    case RegisterOp(uri, e, now) =>
      if (Key(uri), e.addr) != q || (rec.Some? && rec.value.endpoint == e) then rec else Some(Record(e, now))
    case UnregisterOp(uri, e) => if (Key(uri), e.addr) == q then None else rec
    case PruneOp(now) => if rec.Some? && InTime(rec.value, now, limit) then rec else None
  }

  ghost function PairReplay(rec: Option<Record>, ops: seq<Op>, limit: int, q: Pair): Option<Record>
    decreases |ops|
  {
    if ops == [] then rec else PairAfter(PairReplay(rec, ops[..|ops| - 1], limit, q), ops[|ops| - 1], limit, q)
  }

  lemma StepAt(r: Routes, op: Op, limit: int, q: Pair)
    ensures RecordAt(Applied(r, op, limit), q) == PairAfter(RecordAt(r, q), op, limit, q)
  {
    hide Key, Registered, Unregistered, Pruned, Fresh, RecordAt;
    match op
    case RegisterOp(uri, e, now) => RegisteredAt(r, Key(uri), e, now, q);
    case UnregisterOp(uri, e) => UnregisteredAt(r, Key(uri), e, q);
    case PruneOp(now) =>
      PrunedAt(r, Cutoff(now, limit), q);
      if RecordAt(r, q).Some? {
        FreshIff(RecordAt(r, q).value, now, limit);
      }
  }

  /** Over any history every pair of path and address lives its own life: no other pair plays a part in it. */
  lemma {:induction false} PairsLiveApart(r: Routes, ops: seq<Op>, limit: int, q: Pair)
    ensures RecordAt(Replay(r, ops, limit), q) == PairReplay(RecordAt(r, q), ops, limit, q)
    decreases |ops|
  {
    hide RecordAt, Applied, PairAfter;
    if ops != [] {
      var n := |ops| - 1;
      PairsLiveApart(r, ops[..n], limit, q);
      StepAt(Replay(r, ops[..n], limit), ops[n], limit, q);
    }
  }

  // ---------- Paths without addresses ----------

  ghost predicate Hollow(r: Routes, p: Path) {
    p in r && r[p] == map[]
  }

  predicate Names(op: Op, p: Path) {
    !op.PruneOp? && Key(op.uri) == p
  }

  /** A pruning finds nothing fresh at `p`, but something below it. */
  ghost predicate Empties(r: Routes, p: Path, c: Cutoff) {
    p in r && Kept(r[p], c) == map[] && exists q :: q in r && p < q && Kept(r[q], c) != map[]
  }

  /** The operation leaves `p` without an address, or leaves it as it was. */
  ghost predicate Leaves(r: Routes, op: Op, limit: int, p: Path) {
    if op.PruneOp? then Empties(r, p, Cutoff(op.now, limit)) else !Names(op, p)
  }

  lemma StepHollowIff(r: Routes, op: Op, limit: int, p: Path)
    ensures Hollow(Applied(r, op, limit), p) <==> Leaves(r, op, limit, p) && (op.PruneOp? || Hollow(r, p))
  {
    hide Key, Kept, Alive;
    match op
    case PruneOp(now) =>
      if p in r {
        EmptiedIff(r, p, Cutoff(now, limit));
      }
    case RegisterOp(uri, e, now) =>
      assert e.addr in Applied(r, op, limit)[Key(uri)];
    case UnregisterOp(_, _) =>
  }

  ghost predicate LeavesAt(r: Routes, ops: seq<Op>, limit: int, p: Path, j: nat)
    requires j < |ops|
  {
    Leaves(Replay(r, ops[..j], limit), ops[j], limit, p)
  }

  /** Pruning `i` empties `p`, and nothing after it registers, removes or drops `p`. */
  ghost predicate EmptiedAt(r: Routes, ops: seq<Op>, limit: int, p: Path, i: nat) {
    i < |ops| && ops[i].PruneOp? && forall j :: i <= j < |ops| ==> LeavesAt(r, ops, limit, p, j)
  }

  ghost predicate Emptied(r: Routes, ops: seq<Op>, limit: int, p: Path) {
    exists i: nat :: EmptiedAt(r, ops, limit, p, i)
  }

  /** A path is without addresses exactly when a pruning emptied it and nothing has touched it since. */
  lemma {:induction false} HollowIff(r: Routes, ops: seq<Op>, limit: int, p: Path)
    requires !Hollow(r, p)
    ensures Hollow(Replay(r, ops, limit), p) <==> Emptied(r, ops, limit, p)
    decreases |ops|
  {
    hide Hollow, Leaves, Applied;
    if ops != [] {
      var n := |ops| - 1;
      StepHollowIff(Replay(r, ops[..n], limit), ops[n], limit, p);
      HollowIff(r, ops[..n], limit, p);
      EmptiedSnoc(r, ops, limit, p);
    }
  }

  lemma EmptiedSnoc(r: Routes, ops: seq<Op>, limit: int, p: Path)
    requires ops != []
    ensures var n := |ops| - 1;
            Emptied(r, ops, limit, p) <==>
            LeavesAt(r, ops, limit, p, n) && (ops[n].PruneOp? || Emptied(r, ops[..n], limit, p))
  {
    hide LeavesAt;
    var n := |ops| - 1;
    var front := ops[..n];
    forall j | 0 <= j < n ensures LeavesAt(r, front, limit, p, j) <==> LeavesAt(r, ops, limit, p, j) {
      LeavesInFront(r, ops, limit, p, j, n);
    }
    if Emptied(r, ops, limit, p) {
      var i: nat :| EmptiedAt(r, ops, limit, p, i);
      if i < n {
        assert EmptiedAt(r, front, limit, p, i);
      }
    }
    if LeavesAt(r, ops, limit, p, n) && ops[n].PruneOp? {
      assert EmptiedAt(r, ops, limit, p, n);
    }
    if LeavesAt(r, ops, limit, p, n) && Emptied(r, front, limit, p) {
      var i: nat :| EmptiedAt(r, front, limit, p, i);
      assert EmptiedAt(r, ops, limit, p, i);
    }
  }

  lemma LeavesInFront(r: Routes, ops: seq<Op>, limit: int, p: Path, j: nat, n: nat)
    requires j < n <= |ops|
    ensures LeavesAt(r, ops[..n], limit, p, j) <==> LeavesAt(r, ops, limit, p, j)
  {
    hide Leaves;
    assert ops[..n][..j] == ops[..j];
  }

  ghost predicate NoneEmpty(r: Routes) {
    forall p :: p in r ==> r[p] != map[]
  }

  /** Registrations and removals alone leave no path without an address. */
  lemma RunsLeaveNoneEmpty(r: Routes, ops: seq<Op>, limit: int)
    requires NoneEmpty(r) && forall i :: 0 <= i < |ops| ==> !ops[i].PruneOp?
    ensures NoneEmpty(Replay(r, ops, limit))
  {
    hide Replay;
    forall p | p in Replay(r, ops, limit) ensures Replay(r, ops, limit)[p] != map[] {
      HollowIff(r, ops, limit, p);
    }
  }

  /** A lookup serves a pool without endpoints exactly when the path it chooses was emptied by a pruning. */
  lemma ServesEmptyIff(r: Routes, ops: seq<Op>, limit: int, key: string)
    requires NoneEmpty(r)
    ensures var now := Replay(r, ops, limit);
            Chosen(now, key) == Some(map[]) <==>
            ChosenPath(now, key).Some? && Emptied(r, ops, limit, ChosenPath(now, key).value)
  {
    hide Replay, Chosen, ChosenPath, Emptied;
    ChosenHasPath(Replay(r, ops, limit), key);
    var path := ChosenPath(Replay(r, ops, limit), key);
    if path.Some? {
      HollowIff(r, ops, limit, path.value);
    }
  }

  /** Such a history: the shorter route goes stale, a pruning empties it, and then the longer one is removed. */
  ghost function Outlived(short: string, long: string, e1: Endpoint, e2: Endpoint, t1: int, t2: int, now: int): seq<Op>
  {
    [RegisterOp(short, e1, t1), RegisterOp(long, e2, t2), Op.PruneOp(now), UnregisterOp(long, e2)]
  }

  /** What it leaves is a path without addresses, and that is what a lookup of the shorter route serves. */
  lemma EmptyPoolServed(short: string, long: string, e1: Endpoint, e2: Endpoint, t1: int, t2: int, now: int, limit: int)
    requires Key(short) < Key(long) && e1.addr != e1.privateInstanceId && e2.addr != e2.privateInstanceId
    requires !Fresh(Record(e1, t1), now, limit) && Fresh(Record(e2, t2), now, limit)
    ensures var ops := Outlived(short, long, e1, e2, t1, t2, now);
            && AdmissibleRun(map[], ops, limit)
            && Replay(map[], ops, limit) == map[Key(short) := map[]]
            && Chosen(Replay(map[], ops, limit), RouteKey(short)) == Some(map[])
  {
    hide Key, Pruned, RouteKey, PathOf, NextWildcard;
    var ops, p, q := Outlived(short, long, e1, e2, t1, t2, now), Key(short), Key(long);
    var r1: Routes := map[p := map[e1.addr := Record(e1, t1)]];
    var r2 := map[p := map[e1.addr := Record(e1, t1)], q := map[e2.addr := Record(e2, t2)]];
    LeftBehind(p, q, e1, e2, t1, t2, Cutoff(now, limit));
    assert ops[..0] == [] && ops[..4] == ops;
    ReplaySnoc(map[], ops, 0, limit);
    assert Replay(map[], ops[..1], limit) == r1;
    ReplaySnoc(map[], ops, 1, limit);
    assert Replay(map[], ops[..2], limit) == r2;
    ReplaySnoc(map[], ops, 2, limit);
    ReplaySnoc(map[], ops, 3, limit);
    ServedAt(short);
  }

  lemma ServedAt(uri: string)
    ensures var left: Routes := map[Key(uri) := map[]];
            Chosen(left, RouteKey(uri)) == Some(map[])
  {
    hide RouteKey, NextWildcard, PathOf, Match;
    var left: Routes := map[Key(uri) := map[]];
    MatchWhole(left, Key(uri));
  }

  /** The routes "a" and "a/b" are such a pair. */
  lemma ShortAndLong()
    ensures Key("a") == ["a"] && Key("a/b") == ["a", "b"] && Key("a") < Key("a/b")
  {
    hide Key, Segments, Parts, IndexOf;
    SegmentsSlash("", "a");
    SegmentsSlash("a", "b");
    PlainKey("a");
    PlainKey("a/b");
    assert "a" + "/" + "b" == "a/b";
  }

  /** A route in lower case, without a query string and without slashes at its ends, is its own key. */
  lemma PlainKey(uri: string)
    requires uri != "" && uri[0] != '/' && uri[|uri| - 1] != '/'
    requires forall i :: 0 <= i < |uri| ==> uri[i] != '?' && LowerChar(uri[i]) == uri[i]
    ensures Key(uri) == Segments(uri)
  {
    hide Segments, IndexOf, LowerChar, ToLower;
    assert StringOf(uri) == uri by {
      assert uri[|uri| - 1..] == [uri[|uri| - 1]];
    }
    assert ToLower(uri) == uri;
    assert IndexOf(uri, '?') == -1;
    assert TrieKey(uri) == uri;
  }

  /** Registered paths have segments without slashes. */
  lemma {:induction false} RunsKeepSlashFree(r: Routes, ops: seq<Op>, limit: int)
    requires AllSlashFree(r.Keys)
    ensures AllSlashFree(Replay(r, ops, limit).Keys)
    decreases |ops|
  {
    hide SlashFree, Key;
    if ops != [] {
      RunsKeepSlashFree(r, ops[..|ops| - 1], limit);
      var op := ops[|ops| - 1];
      if !op.PruneOp? {
        KeySlashFree(op.uri);
      }
    }
  }

  lemma KeySlashFree(uri: string)
    ensures SlashFree(Key(uri))
  {
    SegmentsSlashFree(TrieKey(RouteKey(uri)));
  }
}
