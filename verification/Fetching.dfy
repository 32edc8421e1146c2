/** Reconciling the registry with the routes of the routing API. */
module Fetching {
  import opened Options
  import opened Text
  import opened Uris
  import opened PoolModel
  import opened Herds
  import opened Registry

  datatype Route = Route(route: string, ip: string, port: int, logGuid: string, ttl: int)

  /** `uint16(port)` in the printed address. */
  function Address(r: Route): string {
    r.ip + ":" + Decimal(r.port % 0x1_0000)
  }

  const SECOND := 1_000_000_000

  /** The (route key, address) pairs of a table. */
  ghost function Pairs(r: Routes): set<Pair> {
    set p, a | p in r && a in r[p] :: (p, a)
  }

  ghost function PairOf(r: Route): Pair {
    (Key(r.route), Address(r))
  }

  ghost function PairsOf(rs: seq<Route>): set<Pair> {
    set r | r in rs :: PairOf(r)
  }

  predicate RouteEquals(current: Route, desired: Route) {
    current.route == desired.route && current.ip == desired.ip && current.port == desired.port
  }

  predicate Listed(r: Route, valid: seq<Route>) {
    exists i :: 0 <= i < |valid| && RouteEquals(r, valid[i])
  }

  /** The routes of the last fetch that the new one does not list. */
  function Dropped(cur: seq<Route>, valid: seq<Route>): seq<Route> {
    if cur == [] then []
    else Dropped(cur[..|cur| - 1], valid) + (if Listed(cur[|cur| - 1], valid) then [] else [cur[|cur| - 1]])
  }

  // ---------- Addresses and dropped routes, spelled out ----------

  /** An address is the ip, a colon and the port in decimal, cut to 16 bits. */
  lemma AddressParts(r: Route)
    ensures r.ip + ":" <= Address(r)
    ensures var port := Address(r)[|r.ip| + 1..]; AllDigits(port) && Value(port) == r.port % 0x1_0000
  {
    DecimalValue(r.port % 0x1_0000);
    assert Address(r)[|r.ip| + 1..] == Decimal(r.port % 0x1_0000);
  }

  /** Digits hold no colon, so the last colon ends the ip. */
  lemma IpBeforePort(ip: string, port: string, ip': string, port': string)
    requires ip + ":" + port == ip' + ":" + port' && AllDigits(port) && AllDigits(port')
    ensures |ip| >= |ip'|
  {
    var text := ip + ":" + port;
    assert text[|ip'|] == (ip' + ":" + port')[|ip'|] == ':';
    assert forall i :: |ip| < i < |text| ==> text[i] == port[i - |ip| - 1];
  }

  /** Addresses are the same exactly when the ips are, and the ports modulo 2^16. */
  lemma AddressIff(a: Route, b: Route)
    ensures Address(a) == Address(b) <==> a.ip == b.ip && a.port % 0x1_0000 == b.port % 0x1_0000
  {
    var p, q := Decimal(a.port % 0x1_0000), Decimal(b.port % 0x1_0000);
    if Address(a) == Address(b) {
      assert AllDigits(p) && AllDigits(q);
      IpBeforePort(a.ip, p, b.ip, q);
      IpBeforePort(b.ip, q, a.ip, p);
      assert Address(a)[..|a.ip|] == a.ip && Address(b)[..|b.ip|] == b.ip;
      AddressParts(a);
      AddressParts(b);
    }
  }

  /** A route is dropped when no listed one has its route, ip and port; log id and ttl play no part. */
  lemma DroppedByFields(cur: seq<Route>, valid: seq<Route>, r: Route)
    ensures r in Dropped(cur, valid) <==>
            r in cur && forall v :: v in valid ==> v.route != r.route || v.ip != r.ip || v.port != r.port
  {
    hide Dropped;
    DroppedIs(cur, valid, r);
    if v :| v in valid && v.route == r.route && v.ip == r.ip && v.port == r.port {
      var i :| 0 <= i < |valid| && valid[i] == v;
      assert RouteEquals(r, valid[i]);
    }
  }

  // ---------- What a refresh records ----------

  /** The last route of a fetch that has the pair `q`. */
  ghost function LastWith(rs: seq<Route>, q: Pair): Option<Route> {
    if rs == [] then None
    else if PairOf(rs[|rs| - 1]) == q then Some(rs[|rs| - 1])
    else LastWith(rs[..|rs| - 1], q)
  }

  /** A record that the route `r` has left, fetched at `now`. */
  ghost predicate IsFor(rec: Record, r: Route, now: int) {
    var e := rec.endpoint;
    && rec.updated == now && e.addr == Address(r) && e.staleThreshold == r.ttl * SECOND
    && e.applicationId == r.logGuid && e.privateInstanceId == r.logGuid
  }

  ghost predicate RefreshedAt(v: Routes, w: Routes, gone: set<Pair>, rs: seq<Route>, now: int, q: Pair) {
    var last, rec := LastWith(rs, q), RecordAt(w, q);
    if last.Some? then rec.Some? && IsFor(rec.value, last.value, now)
    else rec == if q in gone then None else RecordAt(v, q)
  }

  /** From table `v` to `w`: every pair in `rs` has the record of its last route, those in `gone` have none. */
  ghost predicate Refreshed(v: Routes, w: Routes, gone: set<Pair>, rs: seq<Route>, now: int) {
    forall q: Pair :: RefreshedAt(v, w, gone, rs, now, q)
  }

  lemma NothingRefreshed(v: Routes, now: int)
    ensures Refreshed(v, v, {}, [], now)
  {
  }

  lemma RemovalRefreshes(v: Routes, w: Routes, gone: set<Pair>, p: Path, e: Endpoint, now: int)
    requires Refreshed(v, w, gone, [], now)
    ensures Refreshed(v, Unregistered(w, p, e), gone + {(p, e.addr)}, [], now)
  {
    hide Unregistered, RecordAt;
    forall q: Pair ensures RefreshedAt(v, Unregistered(w, p, e), gone + {(p, e.addr)}, [], now, q) {
      assert RefreshedAt(v, w, gone, [], now, q);
      UnregisteredAt(w, p, e, q);
    }
  }

  lemma RegistrationRefreshes(v: Routes, w: Routes, rs: seq<Route>, r: Route, e: Endpoint, now: int)
    requires Refreshed(v, w, {}, rs, now) && IsFor(Record(e, now), r, now)
    requires RecordAt(w, PairOf(r)).Some? ==> RecordAt(w, PairOf(r)).value.endpoint != e
    ensures Refreshed(v, Registered(w, Key(r.route), e, now), {}, rs + [r], now)
  {
    hide IsFor, Key, Address, Registered, RecordAt;
    assert e.addr == Address(r) by { ForAddress(Record(e, now), r, now); }
    var w' := Registered(w, Key(r.route), e, now);
    assert (rs + [r])[..|rs|] == rs;
    forall q: Pair ensures RefreshedAt(v, w', {}, rs + [r], now, q) {
      assert RefreshedAt(v, w, {}, rs, now, q);
      RegisteredAt(w, Key(r.route), e, now, q);
    }
  }

  lemma ForAddress(rec: Record, r: Route, now: int)
    requires IsFor(rec, r, now)
    ensures rec.endpoint.addr == Address(r)
  {
  }

  /** The time is that of registrations only. */
  lemma RemovalsAnyTime(v: Routes, w: Routes, gone: set<Pair>, now: int)
    requires Refreshed(v, w, gone, [], 0)
    ensures Refreshed(v, w, gone, [], now)
  {
    forall q: Pair ensures RefreshedAt(v, w, gone, [], now, q) {
      assert RefreshedAt(v, w, gone, [], 0, q);
    }
  }

  lemma RefreshesChain(u: Routes, v: Routes, w: Routes, gone: set<Pair>, rs: seq<Route>, now: int)
    requires Refreshed(u, v, gone, [], now) && Refreshed(v, w, {}, rs, now)
    ensures Refreshed(u, w, gone, rs, now)
  {
    forall q: Pair ensures RefreshedAt(u, w, gone, rs, now, q) {
      assert RefreshedAt(u, v, gone, [], now, q) && RefreshedAt(v, w, {}, rs, now, q);
    }
  }

  /** A set of texts that tells addresses from private ids. */
  ghost predicate WellKeyed(addr: string, id: string, addrs: iset<string>) {
    addr in addrs && id !in addrs
  }

  ghost predicate RoutesKeyed(rs: seq<Route>, addrs: iset<string>) {
    forall i :: 0 <= i < |rs| ==> WellKeyed(Address(rs[i]), rs[i].logGuid, addrs)
  }

  ghost predicate TableKeyed(r: Routes, addrs: iset<string>) {
    forall p, a :: p in r && a in r[p] ==> WellKeyed(a, r[p][a].endpoint.privateInstanceId, addrs)
  }

  /** Under such a set every operation is admissible, and the table stays keyed. */
  lemma KeyedStep(r: Routes, p: Path, e: Endpoint, now: int, addrs: iset<string>)
    requires TableKeyed(r, addrs) && WellKeyed(e.addr, e.privateInstanceId, addrs)
    ensures TableAdmits(TableAt(r, p), e) && TableReleases(TableAt(r, p), e)
    ensures TableKeyed(Registered(r, p, e, now), addrs) && TableKeyed(Unregistered(r, p, e), addrs)
  {
  }

  lemma PairsRegistered(r: Routes, p: Path, e: Endpoint, now: int)
    ensures Pairs(Registered(r, p, e, now)) == Pairs(r) + {(p, e.addr)}
  {
    var r' := Registered(r, p, e, now);
    forall q, a ensures (q, a) in Pairs(r') <==> (q, a) in Pairs(r) + {(p, e.addr)} {
    }
  }

  lemma PairsUnregistered(r: Routes, p: Path, e: Endpoint)
    ensures Pairs(Unregistered(r, p, e)) == Pairs(r) - {(p, e.addr)}
  {
    var r' := Unregistered(r, p, e);
    if p in r {
      assert forall a :: a in r[p] - {e.addr} <==> a in r[p] && a != e.addr;
    }
    forall q, a ensures (q, a) in Pairs(r') <==> (q, a) in Pairs(r) - {(p, e.addr)} {
    }
  }

  lemma PairsOfSnoc(rs: seq<Route>, i: nat)
    requires i < |rs|
    ensures PairsOf(rs[..i + 1]) == PairsOf(rs[..i]) + {PairOf(rs[i])}
  {
    hide PairOf;
    assert rs[..i + 1] == rs[..i] + [rs[i]];
  }

  lemma {:induction false} DroppedIs(cur: seq<Route>, valid: seq<Route>, r: Route)
    ensures r in Dropped(cur, valid) <==> r in cur && !Listed(r, valid)
    decreases |cur|
  {
    if cur != [] {
      DroppedIs(cur[..|cur| - 1], valid, r);
      assert cur == cur[..|cur| - 1] + [cur[|cur| - 1]];
    }
  }

  /** If the table matched the last fetch, it matches the new one after a refresh. */
  lemma RefreshIsExact(before: set<Pair>, cur: seq<Route>, valid: seq<Route>)
    requires before == PairsOf(cur)
    ensures before - PairsOf(Dropped(cur, valid)) + PairsOf(valid) == PairsOf(valid)
  {
    hide PairOf, Dropped;
    var d := Dropped(cur, valid);
    forall r | r in cur ensures PairOf(r) in PairsOf(d) || PairOf(r) in PairsOf(valid) {
      DroppedIs(cur, valid, r);
      if Listed(r, valid) {
        var j :| 0 <= j < |valid| && RouteEquals(r, valid[j]);
        SamePair(r, valid[j]);
      }
    }
  }

  lemma SamePair(a: Route, b: Route)
    requires RouteEquals(a, b)
    ensures PairOf(a) == PairOf(b)
  {
  }

  class RouteFetcher {
    const registry: RouteRegistry
    var endpoints: seq<Route>

    constructor (registry: RouteRegistry)
      ensures this.registry == registry && endpoints == []
    {
      this.registry, endpoints := registry, [];
    }

    method MakeEndpoint(r: Route) returns (e: Endpoint)
      ensures fresh(e) && e.addr == Address(r) && e.staleThreshold == r.ttl * SECOND
      ensures e.applicationId == r.logGuid && e.privateInstanceId == r.logGuid
    {
      e := new Endpoint(r.logGuid, Address(r), r.logGuid, r.ttl * SECOND);
    }

    /** The nested loops of `deleteEndpoints`. */
    method Diff(valid: seq<Route>) returns (diff: seq<Route>)
      ensures diff == Dropped(endpoints, valid)
    {
      diff := [];
      var i := 0;
      while i < |endpoints|
        invariant i <= |endpoints| && diff == Dropped(endpoints[..i], valid)
      {
        var found := IsListed(endpoints[i], valid);
        if !found {
          diff := diff + [endpoints[i]];
        }
        assert endpoints[..i + 1][..i] == endpoints[..i];
        i := i + 1;
      }
      assert endpoints[..i] == endpoints;
    }

    method IsListed(r: Route, valid: seq<Route>) returns (found: bool)
      ensures found == Listed(r, valid)
    {
      var j := 0;
      while j < |valid|
        invariant j <= |valid| && forall k :: 0 <= k < j ==> !RouteEquals(r, valid[k])
      {
        if RouteEquals(r, valid[j]) {
          return true;
        }
        j := j + 1;
      }
      return false;
    }

    method DeleteEndpoints(valid: seq<Route>, ghost addrs: iset<string>)
      requires registry.Valid() && TableKeyed(registry.View(), addrs) && RoutesKeyed(endpoints, addrs)
      modifies registry.byUri, registry.byUri.nodes.Values, registry.ps, registry.es
      ensures registry.Valid() && registry.byUri.nodes.Values <= old(registry.byUri.nodes.Values)
      ensures TableKeyed(registry.View(), addrs)
      ensures Pairs(registry.View()) == old(Pairs(registry.View())) - PairsOf(Dropped(endpoints, valid))
      ensures Refreshed(old(registry.View()), registry.View(), PairsOf(Dropped(endpoints, valid)), [], 0)
    {
      hide RouteRegistry.Valid, RouteRegistry.View, Pairs, PairsOf, PairOf, Unregistered, TableKeyed, Refreshed;
      var diff := Diff(valid);
      DroppedKeyed(endpoints, valid, addrs);
      ghost var before := Pairs(registry.View());
      var i := 0;
      NoPairs();
      NothingRefreshed(registry.View(), 0);
      while i < |diff|
        invariant i <= |diff| && registry.Valid() && registry.byUri.nodes.Values <= old(registry.byUri.nodes.Values)
        invariant TableKeyed(registry.View(), addrs) && Pairs(registry.View()) == before - PairsOf(diff[..i])
        invariant Refreshed(old(registry.View()), registry.View(), PairsOf(diff[..i]), [], 0)
      {
        PairsOfSnoc(diff, i);
        UnregisterRoute(diff[i], addrs, old(registry.View()), PairsOf(diff[..i]));
        i := i + 1;
      }
      assert diff[..i] == diff;
    }

    method UnregisterRoute(r: Route, ghost addrs: iset<string>, ghost v: Routes, ghost gone: set<Pair>)
      requires registry.Valid() && TableKeyed(registry.View(), addrs) && WellKeyed(Address(r), r.logGuid, addrs)
      modifies registry.byUri, registry.byUri.nodes.Values, registry.ps, registry.es
      ensures registry.Valid() && registry.byUri.nodes.Values <= old(registry.byUri.nodes.Values)
      ensures TableKeyed(registry.View(), addrs)
      ensures Pairs(registry.View()) == old(Pairs(registry.View())) - {PairOf(r)}
      ensures old(Refreshed(v, registry.View(), gone, [], 0)) ==>
                Refreshed(v, registry.View(), gone + {PairOf(r)}, [], 0)
    {
      hide RouteRegistry.Valid, RouteRegistry.View, Pairs, Unregistered, Registered, TableKeyed, TableReleases;
      hide Refreshed, Key, Address;
      var e := MakeEndpoint(r);
      if Refreshed(v, registry.View(), gone, [], 0) {
        RemovalRefreshes(v, registry.View(), gone, Key(r.route), e, 0);
      }
      KeyedStep(registry.View(), Key(r.route), e, 0, addrs);
      PairsUnregistered(registry.View(), Key(r.route), e);
      registry.Unregister(r.route, e);
    }

    method RegisterRoute(r: Route, now: int, ghost addrs: iset<string>, ghost v: Routes, ghost rs: seq<Route>)
      requires registry.Valid() && TableKeyed(registry.View(), addrs) && WellKeyed(Address(r), r.logGuid, addrs)
      modifies registry, registry.byUri, registry.byUri.nodes.Values, registry.ps, registry.es
      ensures registry.Valid() && fresh(registry.byUri.nodes.Values - old(registry.byUri.nodes.Values))
      ensures fresh(registry.ps - old(registry.ps)) && fresh(registry.es - old(registry.es))
      ensures TableKeyed(registry.View(), addrs)
      ensures Pairs(registry.View()) == old(Pairs(registry.View())) + {PairOf(r)}
      ensures old(Refreshed(v, registry.View(), {}, rs, now)) ==>
                Refreshed(v, registry.View(), {}, rs + [r], now)
    {
      hide RouteRegistry.Valid, RouteRegistry.View, Pairs, Unregistered, Registered, TableKeyed, TableAdmits;
      hide Refreshed, RecordAt, Key, Address;
      registry.EndpointHeld(PairOf(r));
      var e := MakeEndpoint(r);
      if Refreshed(v, registry.View(), {}, rs, now) {
        RegistrationRefreshes(v, registry.View(), rs, r, e, now);
      }
      KeyedStep(registry.View(), Key(r.route), e, now, addrs);
      PairsRegistered(registry.View(), Key(r.route), e, now);
      registry.Register(r.route, e, now);
    }

    /** The table loses the pairs of dropped routes and gains the pairs of valid ones; all else stays. */
    method RefreshEndpoints(valid: seq<Route>, now: int, ghost addrs: iset<string>)
      requires registry.Valid() && TableKeyed(registry.View(), addrs)
      requires RoutesKeyed(endpoints, addrs) && RoutesKeyed(valid, addrs)
      modifies this, registry, registry.byUri, registry.byUri.nodes.Values, registry.ps, registry.es
      ensures registry.Valid() && endpoints == valid && TableKeyed(registry.View(), addrs)
      ensures Pairs(registry.View()) ==
              old(Pairs(registry.View())) - PairsOf(Dropped(old(endpoints), valid)) + PairsOf(valid)
      ensures old(Pairs(registry.View()) == PairsOf(endpoints)) ==> Pairs(registry.View()) == PairsOf(valid)
      ensures Refreshed(old(registry.View()), registry.View(), PairsOf(Dropped(old(endpoints), valid)), valid, now)
    {
      hide RouteRegistry.Valid, RouteRegistry.View, Pairs, PairsOf, PairOf, Dropped, TableKeyed, Refreshed;
      ghost var before := Pairs(registry.View());
      if before == PairsOf(endpoints) {
        RefreshIsExact(before, endpoints, valid);
      }
      ghost var u, gone := registry.View(), PairsOf(Dropped(endpoints, valid));
      DeleteEndpoints(valid, addrs);
      endpoints := valid;
      ghost var v := registry.View();
      RegisterAll(now, addrs);
      RemovalsAnyTime(u, v, gone, now);
      RefreshesChain(u, v, registry.View(), gone, valid, now);
    }

    method RegisterAll(now: int, ghost addrs: iset<string>)
      requires registry.Valid() && TableKeyed(registry.View(), addrs) && RoutesKeyed(endpoints, addrs)
      modifies registry, registry.byUri, registry.byUri.nodes.Values, registry.ps, registry.es
      ensures registry.Valid() && TableKeyed(registry.View(), addrs)
      ensures Pairs(registry.View()) == old(Pairs(registry.View())) + PairsOf(endpoints)
      ensures Refreshed(old(registry.View()), registry.View(), {}, endpoints, now)
    {
      hide RouteRegistry.Valid, RouteRegistry.View, Pairs, PairsOf, PairOf, TableKeyed, Refreshed;
      ghost var before := Pairs(registry.View());
      var i := 0;
      NoPairs();
      NothingRefreshed(registry.View(), now);
      while i < |endpoints|
        invariant i <= |endpoints| && registry.Valid() && TableKeyed(registry.View(), addrs)
        invariant fresh(registry.byUri.nodes.Values - old(registry.byUri.nodes.Values))
        invariant fresh(registry.ps - old(registry.ps)) && fresh(registry.es - old(registry.es))
        invariant Pairs(registry.View()) == before + PairsOf(endpoints[..i])
        invariant Refreshed(old(registry.View()), registry.View(), {}, endpoints[..i], now)
      {
        PairsOfSnoc(endpoints, i);
        assert endpoints[..i + 1] == endpoints[..i] + [endpoints[i]];
        RegisterRoute(endpoints[i], now, addrs, old(registry.View()), endpoints[..i]);
        i := i + 1;
      }
      assert endpoints[..i] == endpoints;
    }
  }

  lemma NoPairs()
    ensures PairsOf([]) == {}
  {
  }

  lemma {:induction false} DroppedKeyed(cur: seq<Route>, valid: seq<Route>, addrs: iset<string>)
    requires RoutesKeyed(cur, addrs)
    ensures RoutesKeyed(Dropped(cur, valid), addrs)
    decreases |cur|
  {
    if cur != [] {
      DroppedKeyed(cur[..|cur| - 1], valid, addrs);
    }
  }
}
