/** Pruning stale endpoints: a walk over the trie that deletes nodes while it goes. */
module Pruning {
  import opened Options
  import opened Uris
  import opened TrieShape
  import opened PoolModel
  import opened Pools
  import opened Tries
  import opened Herds
  import opened Registry

  /** When pruning happens and what age it allows. */
  datatype Cutoff = Cutoff(now: int, threshold: int)

  ghost function Kept(t: map<string, Record>, c: Cutoff): map<string, Record> {
    FreshOnly(t, c.now, c.threshold)
  }

  /** Some route at or below `p` still has a fresh endpoint. */
  ghost predicate Alive(r: Routes, p: Path, c: Cutoff) {
    exists q :: q in r && p <= q && Kept(r[q], c) != map[]
  }

  /** What pruning leaves: fresh endpoints only, and no route with nothing fresh at or below it. */
  ghost function Pruned(r: Routes, c: Cutoff): Routes {
    map p | p in r && Alive(r, p, c) :: Kept(r[p], c)
  }

  /** A route is left with an empty pool exactly when it has nothing fresh itself but a longer route has. */
  lemma EmptiedIff(r: Routes, p: Path, c: Cutoff)
    requires p in r
    ensures p in Pruned(r, c) && Pruned(r, c)[p] == map[] <==>
            Kept(r[p], c) == map[] && exists q :: q in r && p < q && Kept(r[q], c) != map[]
  {
    if p in Pruned(r, c) && Pruned(r, c)[p] == map[] {
      var q :| q in r && p <= q && Kept(r[q], c) != map[];
      assert q != p && p < q;
    }
    if q :| q in r && p < q && Kept(r[q], c) != map[] {
      assert p <= q && Alive(r, p, c);
    }
  }

  /** Such a table: the shorter route is stale, the longer one fresh. Once the longer one goes too, nothing is left. */
  lemma LeftBehind(p: Path, q: Path, e1: Endpoint, e2: Endpoint, t1: int, t2: int, c: Cutoff)
    requires p < q && !Fresh(Record(e1, t1), c.now, c.threshold) && Fresh(Record(e2, t2), c.now, c.threshold)
    ensures var r := map[p := map[e1.addr := Record(e1, t1)], q := map[e2.addr := Record(e2, t2)]];
            && Pruned(r, c) == map[p := map[], q := map[e2.addr := Record(e2, t2)]]
            && Unregistered(Pruned(r, c), q, e2) == map[p := map[]]
  {
    hide Kept, Pruned;
    var a, b := map[e1.addr := Record(e1, t1)], map[e2.addr := Record(e2, t2)];
    KeptOne(e1.addr, Record(e1, t1), c);
    KeptOne(e2.addr, Record(e2, t2), c);
    assert e2.addr in b && b - {e2.addr} == map[];
    PrunedPair(p, q, a, b, c);
    assert map[p := map[], q := b] - {q} == map[p := map[]];
  }

  lemma KeptOne(a: string, rec: Record, c: Cutoff)
    ensures Kept(map[a := rec], c) == if Fresh(rec, c.now, c.threshold) then map[a := rec] else map[]
  {
  }

  lemma PrunedPair(p: Path, q: Path, a: map<string, Record>, b: map<string, Record>, c: Cutoff)
    requires p < q && Kept(a, c) == map[] && Kept(b, c) == b != map[]
    ensures Pruned(map[p := a, q := b], c) == map[p := map[], q := b]
  {
    hide Kept;
    var r := map[p := a, q := b];
    assert p != q && r[p] == a && r[q] == b;
    assert p <= q && Alive(r, p, c) && Alive(r, q, c);
  }

  /** Pruned routes are those with something fresh in them or below; nothing fresh is lost. */
  lemma FreshSurvives(r: Routes, p: Path, addr: string, c: Cutoff)
    requires p in r && addr in r[p]
    ensures Fresh(r[p][addr], c.now, c.threshold) <==> p in Pruned(r, c) && addr in Pruned(r, c)[p]
  {
    if Fresh(r[p][addr], c.now, c.threshold) {
      assert addr in Kept(r[p], c);
      assert p <= p && Alive(r, p, c);
    }
  }

  /** Pruning decides on every address by itself. */
  lemma PrunedAt(r: Routes, c: Cutoff, q: Pair)
    ensures var rec := RecordAt(r, q);
            RecordAt(Pruned(r, c), q) == if rec.Some? && Fresh(rec.value, c.now, c.threshold) then rec else None
  {
    hide Alive, Fresh;
    if RecordAt(r, q).Some? {
      FreshSurvives(r, q.0, q.1, c);
    }
  }

  /** The walk as it began. */
  datatype Origin = Origin(nodes: map<Path, Trie>, pools: map<Path, Pool>, routes: Routes, c: Cutoff)

  /** Pools already pruned that came out empty. */
  ghost function Bare(o: Origin, done: set<Path>): set<Path> {
    set p | p in o.routes && p in done && Kept(o.routes[p], o.c) == map[]
  }

  /** Half-way through: pools in `done` are pruned, and no route with a fresh endpoint has gone. */
  ghost predicate Midway(o: Origin, nodes: map<Path, Trie>, pools: map<Path, Pool>, routes: Routes, done: set<Path>) {
    && (forall p, q :: p in o.nodes && q in o.nodes && p != q ==> o.nodes[p] != o.nodes[q])
    && o.routes.Keys == o.pools.Keys && routes.Keys == pools.Keys
    && (forall q :: q in nodes ==> q in o.nodes && nodes[q] == o.nodes[q])
    && (forall q :: q in pools ==> q in o.pools && pools[q] == o.pools[q])
    && (forall q :: q in o.pools && q in nodes ==> q in pools)
    && (forall q :: q in o.routes && Kept(o.routes[q], o.c) != map[] ==> q in pools)
    && (forall q :: q in pools ==> routes[q] == if q in done then Kept(o.routes[q], o.c) else o.routes[q])
  }

  /** Pruning a pool twice is pruning it once. */
  lemma KeptTwice(t: map<string, Record>, c: Cutoff)
    ensures Kept(Kept(t, c), c) == Kept(t, c)
  {
  }

  lemma MidwayPruned(o: Origin, nodes: map<Path, Trie>, pools: map<Path, Pool>, routes: Routes,
                     done: set<Path>, p: Path)
    requires Midway(o, nodes, pools, routes, done) && p in pools
    ensures Midway(o, nodes, pools, routes[p := Kept(routes[p], o.c)], done + {p})
  {
    KeptTwice(o.routes[p], o.c);
  }

  lemma MidwaySkipped(o: Origin, nodes: map<Path, Trie>, pools: map<Path, Pool>, routes: Routes,
                      done: set<Path>, p: Path)
    requires Midway(o, nodes, pools, routes, done) && p in nodes && p !in pools
    ensures Midway(o, nodes, pools, routes, done + {p}) && Bare(o, done + {p}) == Bare(o, done)
  {
  }

  lemma MidwayShrunk(o: Origin, nodes: map<Path, Trie>, pools: map<Path, Pool>, routes: Routes, done: set<Path>,
                     nodes': map<Path, Trie>, pools': map<Path, Pool>, routes': Routes)
    requires Midway(o, nodes, pools, routes, done) && Shrunk(nodes, nodes', pools, pools', Bare(o, done))
    requires routes'.Keys == pools'.Keys && forall q :: q in routes' ==> q in routes && routes'[q] == routes[q]
    ensures Midway(o, nodes', pools', routes', done)
  {
  }

  lemma HerdShrunk(pools: map<Path, Pool>, pools': map<Path, Pool>, ps: set<Pool>, es: set<EndpointElem>)
    requires Herd(pools, ps, es) && forall q :: q in pools' ==> q in pools && pools'[q] == pools[q]
    ensures Herd(pools', ps, es) && RoutesOf(pools', ps).Keys == pools'.Keys
    ensures forall q :: q in pools' ==> q in RoutesOf(pools, ps) && RoutesOf(pools', ps)[q] == RoutesOf(pools, ps)[q]
  {
  }

  lemma BareGrows(o: Origin, nodes: map<Path, Trie>, pools: map<Path, Pool>, done: set<Path>, p: Path)
    requires LeavesBear(nodes.Keys, pools, Bare(o, done), [])
    ensures LeavesBear(nodes.Keys, pools, Bare(o, done + {p}), p)
  {
  }

  /** All but the end of `p` has been visited. */
  ghost predicate Reached(done: set<Path>, p: Path) {
    forall k :: 0 <= k < |p| ==> p[..k] in done
  }

  /** The registry, half-way through, except that the leaf at `p` may be bare and then is to be snipped. */
  ghost predicate StageBut(reg: RouteRegistry, o: Origin, done: set<Path>, p: Path)
    reads reg`ps, reg`es, reg.byUri, reg.byUri.nodes.Values, reg.ps, reg.es, o.nodes.Values
  {
    && reg.byUri.Tree() && Herd(reg.byUri.pools, reg.ps, reg.es)
    && Midway(o, reg.byUri.nodes, reg.byUri.pools, reg.View(), done)
    && LeavesBear(reg.byUri.nodes.Keys, reg.byUri.pools, Bare(o, done), p)
    && forall q :: q in o.nodes && q !in reg.byUri.nodes ==> o.nodes[q].children == map[]
  }

  ghost predicate Stage(reg: RouteRegistry, o: Origin, done: set<Path>)
    reads reg`ps, reg`es, reg.byUri, reg.byUri.nodes.Values, reg.ps, reg.es, o.nodes.Values
  {
    StageBut(reg, o, done, [])
  }

  method PruneStep(reg: RouteRegistry, pool: Pool, now: int, ghost p: Path, ghost o: Origin, ghost done: set<Path>)
    requires Stage(reg, o, done) && p in reg.byUri.pools && pool == reg.byUri.pools[p]
    requires o.c == Cutoff(now, reg.dropletStaleThreshold)
    modifies reg.ps, reg.es
    ensures StageBut(reg, o, done + {p}, p)
  {
    hide Trie.Tree, Herd, Midway, LeavesBear, Bare, RoutesOf;
    ghost var pools := reg.byUri.pools;
    HerdKeys(pools, reg.ps, reg.es);
    HerdMember(pools, reg.ps, reg.es, p);
    BareGrows(o, reg.byUri.nodes, pools, done, p);
    MidwayPruned(o, reg.byUri.nodes, pools, reg.View(), done, p);
    PruneIn(pools, reg.ps, reg.es, p, pool, reg.dropletStaleThreshold, now);
  }

  /** On a path that has been visited, the bare pools are the empty ones. */
  lemma BareIsEmpty(reg: RouteRegistry, o: Origin, done: set<Path>, p: Path)
    requires StageBut(reg, o, done, p) && Reached(done, p) && p in done
    ensures reg.byUri.BareAlong(p, Bare(o, done))
  {
    hide Trie.Tree, Herd, LeavesBear;
    var pools := reg.byUri.pools;
    forall k | 0 <= k <= |p| && p[..k] in pools
      ensures p[..k] in Bare(o, done) <==> pools[p[..k]].IsEmpty()
    {
      if k == |p| {
        assert p[..k] == p;
      }
      EmptyPool(pools, reg.ps, reg.es, p[..k]);
    }
  }

  method SnipStep(reg: RouteRegistry, node: Trie, ghost p: Path, ghost o: Origin, ghost done: set<Path>)
    requires StageBut(reg, o, done, p) && Reached(done, p) && p in done
    requires p in reg.byUri.nodes && node == reg.byUri.nodes[p]
    modifies reg.byUri`nodes, reg.byUri`pools, reg.byUri.nodes.Values`children
    ensures Stage(reg, o, done)
    ensures forall q :: q in reg.byUri.nodes ==> q in old(reg.byUri.nodes)
  {
    hide Trie.Tree, Herd, Midway, LeavesBear, Bare, RoutesOf;
    ghost var nodes, pools, routes := reg.byUri.nodes, reg.byUri.pools, reg.View();
    BareIsEmpty(reg, o, done, p);
    NodesWithin(o, nodes, pools, routes, done);
    reg.byUri.Snip(node, p, Bare(o, done));
    HerdShrunk(pools, reg.byUri.pools, reg.ps, reg.es);
    MidwayShrunk(o, nodes, pools, routes, done, reg.byUri.nodes, reg.byUri.pools, reg.View());
  }

  lemma NodesWithin(o: Origin, nodes: map<Path, Trie>, pools: map<Path, Pool>, routes: Routes, done: set<Path>)
    requires Midway(o, nodes, pools, routes, done)
    ensures forall q :: q in nodes ==> q in o.nodes && nodes[q] == o.nodes[q]
    ensures forall q :: q in o.nodes && q !in nodes ==> o.nodes[q] !in nodes.Values
  {
  }

  /** The callback of the walk at one node: prune its pool, if it has one, and snip it if it is dead. */
  method VisitNode(reg: RouteRegistry, node: Trie, now: int, ghost p: Path, ghost o: Origin, ghost done: set<Path>)
    requires Stage(reg, o, done) && Reached(done, p) && p in reg.byUri.nodes && node == reg.byUri.nodes[p]
    requires o.c == Cutoff(now, reg.dropletStaleThreshold)
    modifies reg.byUri`nodes, reg.byUri`pools, reg.byUri.nodes.Values`children, reg.ps, reg.es
    ensures Stage(reg, o, done + {p})
    ensures forall q :: q in reg.byUri.nodes ==> q in old(reg.byUri.nodes)
  {
    hide Trie.Tree, Herd, Midway, LeavesBear, Bare, RoutesOf;
    reg.byUri.FitsAt(p);
    if node.pool != null {
      PruneStep(reg, node.pool, now, p, o, done);
      SnipStep(reg, node, p, o, done + {p});
    } else {
      MidwaySkipped(o, reg.byUri.nodes, reg.byUri.pools, reg.View(), done, p);
    }
  }

  /** `EachNodeWithPool` with that callback, over the part of the trie at and below `p`, children in any order. */
  method Visit(reg: RouteRegistry, node: Trie, now: int, ghost p: Path, ghost o: Origin, ghost done0: set<Path>)
    returns (ghost done: set<Path>)
    requires Stage(reg, o, done0) && Reached(done0, p) && p in reg.byUri.nodes && node == reg.byUri.nodes[p]
    requires o.c == Cutoff(now, reg.dropletStaleThreshold)
    modifies reg.byUri`nodes, reg.byUri`pools, o.nodes.Values`children, reg.ps, reg.es
    ensures Stage(reg, o, done) && done0 <= done
    ensures forall q :: q in reg.byUri.nodes ==> q in old(reg.byUri.nodes)
    ensures forall q :: q in reg.byUri.nodes && p <= q ==> q in done
    decreases Extending(o.nodes.Keys, p)
  {
    hide Stage, Child, Extending, Reached;
    InOrigin(reg, o, done0);
    VisitNode(reg, node, now, p, o, done0);
    done := done0 + {p};
    ReachedMore(done0, done, p);
    var todo := node.children.Keys;
    CoverStarts(reg, o, done, p, node, todo);
    while todo != {}
      invariant Stage(reg, o, done) && done0 + {p} <= done && Reached(done, p)
      invariant forall q :: q in reg.byUri.nodes ==> q in old(reg.byUri.nodes)
      invariant Covered(reg.byUri.nodes.Keys, p, done, todo)
      decreases todo
    {
      var s :| s in todo;
      todo := todo - {s};
      if s in node.children {
        ChildThere(reg, o, done, p, node, s);
        ExtendingChild(o.nodes.Keys, p, s);
        ReachedChild(done, p, s);
        ghost var dom, d := reg.byUri.nodes.Keys, done;
        done := Visit(reg, node.children[s], now, Child(p, s), o, done);
        CoverStep(dom, reg.byUri.nodes.Keys, p, d, done, todo, s);
        ReachedMore(d, done, p);
      } else {
        ChildGone(reg, o, done, p, node, s);
        CoverStep(reg.byUri.nodes.Keys, reg.byUri.nodes.Keys, p, done, done, todo, s);
      }
    }
    CoverEnds(reg.byUri.nodes.Keys, p, done);
  }

  /** Whatever is left below `p` has been visited or hangs under a child still to be visited. */
  ghost predicate Covered(dom: set<Path>, p: Path, done: set<Path>, todo: set<string>) {
    forall q :: q in dom && p <= q && q != p ==> q in done || q[|p|] in todo
  }

  lemma CoverEnds(dom: set<Path>, p: Path, done: set<Path>)
    requires Covered(dom, p, done, {}) && p in done
    ensures forall q :: q in dom && p <= q ==> q in done
  {
  }

  lemma CoverStep(dom: set<Path>, dom': set<Path>, p: Path, done: set<Path>, done': set<Path>,
                  todo: set<string>, s: string)
    requires Covered(dom, p, done, todo + {s}) && dom' <= dom && done <= done'
    requires forall q :: q in dom' && Child(p, s) <= q ==> q in done'
    ensures Covered(dom', p, done', todo)
  {
    forall q | q in dom' && p <= q && q != p && q !in done' ensures q[|p|] in todo {
      assert q[|p|] == s ==> Child(p, s) <= q;
    }
  }

  lemma CoverStarts(reg: RouteRegistry, o: Origin, done: set<Path>, p: Path, node: Trie, todo: set<string>)
    requires Stage(reg, o, done) && p in o.nodes && node == o.nodes[p] && todo == node.children.Keys
    ensures Covered(reg.byUri.nodes.Keys, p, done, todo)
  {
    hide Stage, Child, Trie.Tree;
    var nodes := reg.byUri.nodes;
    InOrigin(reg, o, done);
    StageTree(reg, o, done);
    forall q | q in nodes && p <= q && q != p ensures q[|p|] in todo {
      BranchOf(nodes.Keys, p, q);
      reg.byUri.StepDown(p, q[|p|]);
    }
  }

  lemma StageTree(reg: RouteRegistry, o: Origin, done: set<Path>)
    requires Stage(reg, o, done)
    ensures reg.byUri.Tree() && Closed(reg.byUri.nodes.Keys)
  {
  }

  lemma InOrigin(reg: RouteRegistry, o: Origin, done: set<Path>)
    requires Stage(reg, o, done)
    ensures forall q :: q in reg.byUri.nodes ==> q in o.nodes && reg.byUri.nodes[q] == o.nodes[q]
    ensures reg.byUri.nodes.Values <= o.nodes.Values
  {
    NodesWithin(o, reg.byUri.nodes, reg.byUri.pools, reg.View(), done);
  }

  lemma ChildThere(reg: RouteRegistry, o: Origin, done: set<Path>, p: Path, node: Trie, s: string)
    requires Stage(reg, o, done) && p in o.nodes && node == o.nodes[p] && s in node.children
    ensures Child(p, s) in reg.byUri.nodes && node.children[s] == reg.byUri.nodes[Child(p, s)]
  {
    hide Herd, LeavesBear, Child;
    InOrigin(reg, o, done);
    assert p in reg.byUri.nodes;
    reg.byUri.StepDown(p, s);
  }

  lemma ChildGone(reg: RouteRegistry, o: Origin, done: set<Path>, p: Path, node: Trie, s: string)
    requires Stage(reg, o, done) && p in o.nodes && node == o.nodes[p] && s !in node.children
    ensures forall q :: q in reg.byUri.nodes.Keys && Child(p, s) <= q ==> q in done
  {
    hide Herd, LeavesBear, Child;
    InOrigin(reg, o, done);
    ChildParts(p, s);
    if p in reg.byUri.nodes {
      reg.byUri.StepDown(p, s);
    }
    AbsentBelow(reg.byUri.nodes.Keys, Child(p, s));
  }

  lemma ReachedMore(done: set<Path>, done': set<Path>, p: Path)
    requires Reached(done, p) && done <= done'
    ensures Reached(done', p)
  {
  }

  lemma ReachedChild(done: set<Path>, p: Path, s: string)
    requires Reached(done, p) && p in done
    ensures Reached(done, Child(p, s))
  {
    forall k | 0 <= k < |Child(p, s)| ensures Child(p, s)[..k] in done {
      if k < |p| {
        assert Child(p, s)[..k] == p[..k];
      } else {
        assert Child(p, s)[..k] == p;
      }
    }
  }

  lemma WalkBegins(reg: RouteRegistry, o: Origin)
    requires reg.Valid() && o == Origin(reg.byUri.nodes, reg.byUri.pools, reg.View(), o.c)
    ensures Stage(reg, o, {}) && [] in reg.byUri.nodes && reg.byUri.nodes[[]] == reg.byUri
  {
    HerdKeys(o.pools, reg.ps, reg.es);
    assert Bare(o, {}) == {};
  }

  /** Every leaf but the root holds a pool with endpoints. */
  ghost predicate LeavesLive(reg: RouteRegistry)
    reads reg.byUri, reg.byUri.pools.Values
  {
    forall p :: p in reg.byUri.nodes && p != [] && Leaf(reg.byUri.nodes.Keys, p) ==>
      p in reg.byUri.pools && !reg.byUri.pools[p].IsEmpty()
  }

  lemma WalkEnds(reg: RouteRegistry, o: Origin, done: set<Path>)
    requires Stage(reg, o, done) && forall q :: q in reg.byUri.nodes ==> q in done
    requires Furnished(o.pools, reg.dropletStaleThreshold)
    ensures reg.Valid() && LeavesLive(reg) && reg.View() == Pruned(o.routes, o.c)
  {
    hide Herd, Trie.Tree, RoutesOf, Midway, Bare, Pruned, Furnished;
    FurnishedLeft(o, reg.byUri.nodes, reg.byUri.pools, reg.View(), done, reg.dropletStaleThreshold);
    reg.byUri.TreeDomain();
    LeavesLeft(reg, o, done);
    RoutesLeft(o, reg.byUri.nodes, reg.byUri.pools, reg.View(), done);
  }

  lemma FurnishedLeft(o: Origin, nodes: map<Path, Trie>, pools: map<Path, Pool>, routes: Routes,
                      done: set<Path>, threshold: int)
    requires Midway(o, nodes, pools, routes, done) && Furnished(o.pools, threshold)
    ensures Furnished(pools, threshold)
  {
  }

  lemma LeavesLeft(reg: RouteRegistry, o: Origin, done: set<Path>)
    requires Stage(reg, o, done) && forall q :: q in reg.byUri.nodes ==> q in done
    ensures LeavesLive(reg)
  {
    hide Herd, Trie.Tree, RoutesOf;
    var nodes, pools := reg.byUri.nodes, reg.byUri.pools;
    forall p | p in nodes && p != [] && Leaf(nodes.Keys, p) ensures p in pools && !pools[p].IsEmpty() {
      EmptyPool(pools, reg.ps, reg.es, p);
    }
  }

  lemma RoutesLeft(o: Origin, nodes: map<Path, Trie>, pools: map<Path, Pool>, routes: Routes, done: set<Path>)
    requires Midway(o, nodes, pools, routes, done) && LeavesBear(nodes.Keys, pools, Bare(o, done), [])
    requires Closed(nodes.Keys) && pools.Keys <= nodes.Keys && [] !in pools && forall q :: q in nodes ==> q in done
    ensures routes == Pruned(o.routes, o.c)
  {
    hide Alive, Kept, LeavesBear, Bare, Closed;
    forall p | p in o.routes ensures p in routes <==> Alive(o.routes, p, o.c) {
      if p in routes {
        SurvivorAlive(o, nodes, pools, routes, done, p);
      } else if Alive(o.routes, p, o.c) {
        AliveSurvives(o, nodes, pools, routes, done, p);
      }
    }
  }

  lemma SurvivorAlive(o: Origin, nodes: map<Path, Trie>, pools: map<Path, Pool>, routes: Routes,
                      done: set<Path>, p: Path)
    requires Midway(o, nodes, pools, routes, done) && LeavesBear(nodes.Keys, pools, Bare(o, done), [])
    requires Closed(nodes.Keys) && pools.Keys <= nodes.Keys && [] !in pools && p in routes
    requires forall q :: q in nodes ==> q in done
    ensures Alive(o.routes, p, o.c)
  {
    var leaf := LeafBelow(nodes.Keys, p);
    assert leaf in pools && leaf !in Bare(o, done);
    assert Kept(o.routes[leaf], o.c) != map[];
  }

  lemma AliveSurvives(o: Origin, nodes: map<Path, Trie>, pools: map<Path, Pool>, routes: Routes,
                      done: set<Path>, p: Path)
    requires Midway(o, nodes, pools, routes, done) && Closed(nodes.Keys) && pools.Keys <= nodes.Keys
    requires p in o.routes && Alive(o.routes, p, o.c)
    ensures p in routes
  {
    var q :| q in o.routes && p <= q && Kept(o.routes[q], o.c) != map[];
    TakeOfPrefix(p, q);
    PrefixClosed(nodes.Keys, q, |p|);
  }

  /** `pruneStaleDroplets`: whatever the order of the walk, what is left is exactly `Pruned`. */
  method PruneStaleDroplets(reg: RouteRegistry, now: int)
    requires reg.Valid()
    modifies reg.byUri`nodes, reg.byUri`pools, reg.byUri.nodes.Values`children, reg.ps, reg.es
    ensures reg.Valid() && LeavesLive(reg) && reg.byUri.nodes.Values <= old(reg.byUri.nodes.Values)
    ensures reg.View() == Pruned(old(reg.View()), Cutoff(now, reg.dropletStaleThreshold))
  {
    hide Stage, Pruned, LeavesLive, Furnished;
    ghost var o := Origin(reg.byUri.nodes, reg.byUri.pools, reg.View(), Cutoff(now, reg.dropletStaleThreshold));
    WalkBegins(reg, o);
    ghost var done := Visit(reg, reg.byUri, now, [], o, {});
    InOrigin(reg, o, done);
    WalkEnds(reg, o, done);
  }
}
