/** The pools of a route table: separate objects, each in order, changed one at a time. */
module Herds {
  import opened Options
  import opened Uris
  import opened PoolModel
  import opened Pools

  /** Route table contents: what each path's pool remembers about each address. */
  type Routes = map<Path, map<string, Record>>

  /** What a pool's table must be like for `e` to be stored: ids and addresses are told apart. */
  ghost predicate TableAdmits(t: map<string, Record>, e: Endpoint) {
    && e.addr != e.privateInstanceId && e.privateInstanceId !in t
    && forall a :: a in t ==> t[a].endpoint.privateInstanceId != e.addr
  }

  /** What it must be like for `e` to be removed: its address is no private id there. */
  ghost predicate TableReleases(t: map<string, Record>, e: Endpoint) {
    forall a :: a in t ==> t[a].endpoint.privateInstanceId != e.addr
  }

  ghost predicate OwnPools(pools: map<Path, Pool>) {
    forall p, q :: p in pools && q in pools && p != q ==> pools[p] != pools[q]
  }

  /** All pools are among `ps` and their elements among `es`. */
  ghost predicate Within(pools: map<Path, Pool>, ps: set<Pool>, es: set<EndpointElem>)
    reads ps
  {
    forall p :: p in pools ==> pools[p] in ps && pools[p].Elems() <= es
  }

  ghost predicate Herd(pools: map<Path, Pool>, ps: set<Pool>, es: set<EndpointElem>)
    reads ps, es
  {
    OwnPools(pools) && Within(pools, ps, es) && forall p :: p in pools ==> pools[p].Valid()
  }

  /** The contents of a state, defined on all states. */
  ghost function Contents(s: State): map<string, Record> {
    if KeysLead(s) then Table(s) else map[]
  }

  ghost function RoutesOf(pools: map<Path, Pool>, ps: set<Pool>): (r: Routes)
    reads ps
    ensures (forall p :: p in pools ==> pools[p] in ps) ==> r.Keys == pools.Keys
  {
    map p | p in pools && pools[p] in ps :: Contents(pools[p].state)
  }

  /** Pools share no elements. */
  lemma ApartElements(pools: map<Path, Pool>, ps: set<Pool>, es: set<EndpointElem>, p: Path, q: Path)
    requires Herd(pools, ps, es) && p in pools && q in pools && p != q
    ensures pools[p].Elems() !! pools[q].Elems()
  {
    assert forall i :: 0 <= i < |pools[p].endpoints| ==> pools[p].endpoints[i].owner == pools[p];
    assert forall i :: 0 <= i < |pools[q].endpoints| ==> pools[q].endpoints[i].owner == pools[q];
  }

  /** The endpoint of a record is that of an element. */
  lemma RecordHeld(pools: map<Path, Pool>, ps: set<Pool>, es: set<EndpointElem>, p: Path, a: string)
    requires Herd(pools, ps, es) && p in RoutesOf(pools, ps) && a in RoutesOf(pools, ps)[p]
    ensures exists x :: x in es && x.endpoint == RoutesOf(pools, ps)[p][a].endpoint
  {
    var pool := pools[p];
    var i := pool.state.keys[a];
    var x := pool.endpoints[i];
    assert x in pool.Elems();
    assert x.AsSlot() == pool.state.slots[i];
  }

  /** A slot's record stands in the table under the slot's address. */
  lemma SlotRecord(s: State, i: nat)
    requires PoolModel.Valid(s) && i < |s.slots|
    ensures s.slots[i].endpoint.addr in Contents(s) && Contents(s)[s.slots[i].endpoint.addr] == RecordOf(s.slots[i])
  {
  }

  /** The table says whether the pool admits an endpoint, and whether it releases one. */
  lemma TableTells(s: State, e: Endpoint)
    requires PoolModel.Valid(s)
    ensures TableAdmits(Contents(s), e) <==> Admits(s, e)
    ensures TableReleases(Contents(s), e) <==> Admissible(s, RemoveOp(e))
  {
    hide Contents;
    forall i | 0 <= i < |s.slots|
      ensures s.slots[i].endpoint.addr in Contents(s) && Contents(s)[s.slots[i].endpoint.addr] == RecordOf(s.slots[i])
    {
      SlotRecord(s, i);
    }
    RecordSlots(s);
  }

  lemma RecordSlots(s: State)
    requires PoolModel.Valid(s)
    ensures forall a :: a in Contents(s) ==>
      exists i :: 0 <= i < |s.slots| && s.slots[i].endpoint.addr == a && Contents(s)[a] == RecordOf(s.slots[i])
  {
    forall a | a in Contents(s)
      ensures exists i :: 0 <= i < |s.slots| && s.slots[i].endpoint.addr == a && Contents(s)[a] == RecordOf(s.slots[i])
    {
      assert s.slots[s.keys[a]].endpoint.addr == a;
    }
  }

  lemma PutContents(s: State, e: Endpoint, now: int)
    requires PoolModel.Valid(s) && TableAdmits(Contents(s), e)
    ensures Admits(s, e) && PoolModel.Valid(Put(s, e, now))
    ensures Contents(Put(s, e, now)) == TableAfterPut(Contents(s), e, now)
  {
    hide TableAdmits, Admits;
    TableTells(s, e);
    PutKeepsValid(s, e, now);
  }

  lemma RemoveContents(s: State, e: Endpoint)
    requires PoolModel.Valid(s) && TableReleases(Contents(s), e)
    ensures PoolModel.Valid(Remove(s, e)) && Contents(Remove(s, e)) == Contents(s) - {e.addr}
  {
    hide TableReleases;
    TableTells(s, e);
    ApplyKeepsValid(s, RemoveOp(e));
  }

  method PutIn(ghost pools: map<Path, Pool>, ghost ps: set<Pool>, ghost es: set<EndpointElem>, ghost p: Path,
               pool: Pool, endpoint: Endpoint, now: int)
    requires Herd(pools, ps, es) && p in pools && pool == pools[p] && TableAdmits(RoutesOf(pools, ps)[p], endpoint)
    modifies pool, pool.Elems()
    ensures Herd(pools, ps, es + pool.Elems()) && fresh(pool.Elems() - old(pool.Elems()))
    ensures RoutesOf(pools, ps) ==
            old(RoutesOf(pools, ps))[p := TableAfterPut(old(RoutesOf(pools, ps)[p]), endpoint, now)]
  {
    hide RoutesOf, Pool.Valid, Contents, Put, TableAfterPut, PoolModel.Valid, Admits, TableAdmits;
    ghost var before := RoutesOf(pools, ps);
    RoutesAt(pools, ps, es);
    MemberState(pools, ps, es, p);
    PutContents(pool.state, endpoint, now);
    OthersApart(pools, ps, es, p);
    PutValid(pool, endpoint, now);
    assert forall q :: q in pools && q != p ==> pools[q].Valid();
    RoutesAre(pools, ps, before[p := TableAfterPut(before[p], endpoint, now)]);
  }

  method PutValid(pool: Pool, endpoint: Endpoint, now: int)
    requires pool.Valid() && Admits(pool.state, endpoint)
    modifies pool, pool.Elems()
    ensures pool.Valid() && pool.state == Put(old(pool.state), endpoint, now)
    ensures fresh(pool.Elems() - old(pool.Elems()))
  {
    assert pool.index.Values <= pool.Elems();
    var _ := pool.Put(endpoint, now);
  }

  lemma MemberState(pools: map<Path, Pool>, ps: set<Pool>, es: set<EndpointElem>, p: Path)
    requires Herd(pools, ps, es) && p in pools
    ensures pools[p].Valid() && PoolModel.Valid(pools[p].state) && RoutesOf(pools, ps)[p] == Contents(pools[p].state)
  {
  }

  /** The table is fixed by the contents of the pools. */
  lemma RoutesAre(pools: map<Path, Pool>, ps: set<Pool>, r: Routes)
    requires r.Keys == pools.Keys
    requires forall q :: q in pools ==> pools[q] in ps && r[q] == Contents(pools[q].state)
    ensures RoutesOf(pools, ps) == r
  {
    hide Contents;
  }

  lemma RoutesAt(pools: map<Path, Pool>, ps: set<Pool>, es: set<EndpointElem>)
    requires Herd(pools, ps, es)
    ensures RoutesOf(pools, ps).Keys == pools.Keys
    ensures forall q :: q in pools ==> pools[q] in ps && RoutesOf(pools, ps)[q] == Contents(pools[q].state)
  {
    hide Contents, Pool.Valid;
  }

  lemma OthersApart(pools: map<Path, Pool>, ps: set<Pool>, es: set<EndpointElem>, p: Path)
    requires Herd(pools, ps, es) && p in pools
    ensures forall q :: q in pools && q != p ==> pools[q].Elems() !! pools[p].Elems()
  {
    forall q | q in pools && q != p ensures pools[q].Elems() !! pools[p].Elems() {
      ApartElements(pools, ps, es, q, p);
    }
  }

  method RemoveIn(ghost pools: map<Path, Pool>, ghost ps: set<Pool>, ghost es: set<EndpointElem>, ghost p: Path,
                  pool: Pool, endpoint: Endpoint)
    requires Herd(pools, ps, es) && p in pools && pool == pools[p] && TableReleases(RoutesOf(pools, ps)[p], endpoint)
    modifies pool, pool.Elems()
    ensures Herd(pools, ps, es)
    ensures RoutesOf(pools, ps) == old(RoutesOf(pools, ps))[p := old(RoutesOf(pools, ps)[p]) - {endpoint.addr}]
  {
    hide RoutesOf, Pool.Valid, Contents, Remove, PoolModel.Valid, TableReleases;
    ghost var before := RoutesOf(pools, ps);
    RoutesAt(pools, ps, es);
    MemberState(pools, ps, es, p);
    RemoveContents(pool.state, endpoint);
    OthersApart(pools, ps, es, p);
    RemoveValid(pool, endpoint);
    assert forall q :: q in pools && q != p ==> pools[q].Valid();
    RoutesAre(pools, ps, before[p := before[p] - {endpoint.addr}]);
  }

  method RemoveValid(pool: Pool, endpoint: Endpoint)
    requires pool.Valid()
    modifies pool, pool.Elems()
    ensures pool.Valid() && pool.state == Remove(old(pool.state), endpoint)
    ensures pool.Elems() <= old(pool.Elems())
  {
    var _ := pool.Remove(endpoint);
  }

  lemma PruneContents(s: State, now: int, threshold: int)
    requires PoolModel.Valid(s)
    ensures PoolModel.Valid(Prune(s, now, threshold))
    ensures Contents(Prune(s, now, threshold)) == FreshOnly(Contents(s), now, threshold)
  {
    PruneFromKeepsFresh(s, 0, now, threshold);
  }

  method PruneIn(ghost pools: map<Path, Pool>, ghost ps: set<Pool>, ghost es: set<EndpointElem>, ghost p: Path,
                 pool: Pool, threshold: int, now: int)
    requires Herd(pools, ps, es) && p in pools && pool == pools[p]
    modifies pool, pool.Elems()
    ensures Herd(pools, ps, es)
    ensures RoutesOf(pools, ps) ==
            old(RoutesOf(pools, ps))[p := FreshOnly(old(RoutesOf(pools, ps)[p]), now, threshold)]
  {
    hide RoutesOf, Pool.Valid, Contents, Prune, FreshOnly, PoolModel.Valid;
    ghost var before := RoutesOf(pools, ps);
    RoutesAt(pools, ps, es);
    MemberState(pools, ps, es, p);
    PruneContents(pool.state, now, threshold);
    OthersApart(pools, ps, es, p);
    PruneValid(pool, threshold, now);
    assert forall q :: q in pools && q != p ==> pools[q].Valid();
    RoutesAre(pools, ps, before[p := FreshOnly(before[p], now, threshold)]);
  }

  method PruneValid(pool: Pool, threshold: int, now: int)
    requires pool.Valid()
    modifies pool, pool.Elems()
    ensures pool.Valid() && pool.state == Prune(old(pool.state), now, threshold)
    ensures pool.Elems() <= old(pool.Elems())
  {
    pool.PruneEndpoints(threshold, now);
  }

  /** A pool is empty exactly when the table has nothing under its path. */
  lemma EmptyPool(pools: map<Path, Pool>, ps: set<Pool>, es: set<EndpointElem>, p: Path)
    requires Herd(pools, ps, es) && p in pools
    ensures pools[p].IsEmpty() <==> RoutesOf(pools, ps)[p] == map[]
  {
    var s := pools[p].state;
    if |s.slots| > 0 {
      assert At(s, s.slots[0].endpoint.addr) == Some(s.slots[0]);
      assert s.slots[0].endpoint.addr in Table(s);
    }
  }
}
