/** The route registry: registrations, removals and lookups over the trie. */
module Registry {
  import opened Options
  import opened Uris
  import opened TrieShape
  import opened PoolModel
  import opened Pools
  import opened Tries
  import opened Herds

  /** The path under which a route is kept. */
  function Key(uri: string): Path {
    PathOf(RouteKey(uri))
  }

  /** The table of a path; an absent path has nothing in it. */
  ghost function TableAt(r: Routes, p: Path): map<string, Record> {
    if p in r then r[p] else map[]
  }

  ghost function Registered(r: Routes, p: Path, e: Endpoint, now: int): Routes {
    r[p := TableAfterPut(TableAt(r, p), e, now)]
  }

  /** Registering in two steps: an empty pool if there is none, then the endpoint. */
  lemma RegisteredVia(r: Routes, p: Path, e: Endpoint, now: int)
    ensures var r' := if p in r then r else r[p := map[]];
            r'[p := TableAfterPut(r'[p], e, now)] == Registered(r, p, e, now)
  {
  }

  /** The address goes, and the path with its last address. */
  ghost function Unregistered(r: Routes, p: Path, e: Endpoint): Routes {
    if p !in r then r
    else if r[p] - {e.addr} == map[] then r - {p}
    else r[p := r[p] - {e.addr}]
  }

  type Pair = (Path, string)

  /** What the table says about an address under a path. */
  ghost function RecordAt(r: Routes, q: Pair): Option<Record> {
    if q.0 in r && q.1 in r[q.0] then Some(r[q.0][q.1]) else None
  }

  lemma RegisteredAt(r: Routes, p: Path, e: Endpoint, now: int, q: Pair)
    ensures var was := RecordAt(r, q);
            RecordAt(Registered(r, p, e, now), q) ==
            if q != (p, e.addr) || (was.Some? && was.value.endpoint == e) then was else Some(Record(e, now))
  {
  }

  lemma UnregisteredAt(r: Routes, p: Path, e: Endpoint, q: Pair)
    ensures RecordAt(Unregistered(r, p, e), q) == if q == (p, e.addr) then None else RecordAt(r, q)
  {
    if p in r {
      assert forall a :: a in r[p] - {e.addr} <==> a in r[p] && a != e.addr;
    }
  }

  /** `parseContextPath`. */
  function ContextPath(key: string): string {
    var split := Parts(TrieKey(key));
    if |split| > 1 then "/" + split[1] else "/"
  }

  /** Go's division of durations truncates toward zero. */
  function Quarter(d: int): int {
    if d < 0 then -((-d) / 4) else d / 4
  }

  /** A quarter, but for less than one unit, and of the same sign. */
  lemma QuarterOf(d: int)
    ensures var rest := d - 4 * Quarter(d); -4 < rest < 4 && (d >= 0 ==> rest >= 0) && (d <= 0 ==> rest <= 0)
  {
  }

  /** The text of a path. */
  function Unsplit(p: Path): string {
    if p == [] then "" else if |p| == 1 then p[0] else p[0] + "/" + Unsplit(p[1..])
  }

  lemma {:induction false} SegmentsUnsplit(key: string)
    ensures Unsplit(Segments(key)) == key
    decreases |key|
  {
    var split := Parts(key);
    if |split| > 1 {
      SegmentsUnsplit(split[1]);
      assert Segments(key)[1..] == Segments(split[1]);
    }
  }

  /** The context path of every route kept at a path: what follows its first segment. */
  function ContextOf(p: Path): string {
    if |p| > 1 then "/" + Unsplit(p[1..]) else "/"
  }

  lemma ContextPathOf(key: string)
    ensures ContextPath(key) == ContextOf(PathOf(key))
  {
    var split := Parts(TrieKey(key));
    if |split| > 1 {
      SegmentsUnsplit(split[1]);
      assert PathOf(key)[1..] == Segments(split[1]);
    }
  }

  /** Every pool retries after a quarter of the stale threshold and knows the context path of its route. */
  ghost predicate Furnished(pools: map<Path, Pool>, threshold: int) {
    forall p :: p in pools ==>
      pools[p].retryAfterFailure == Quarter(threshold) && pools[p].contextPath == ContextOf(p)
  }

  lemma FurnishedAdded(pools: map<Path, Pool>, threshold: int, p: Path, pool: Pool)
    requires Furnished(pools, threshold)
    requires pool.retryAfterFailure == Quarter(threshold) && pool.contextPath == ContextOf(p)
    ensures Furnished(pools[p := pool], threshold)
  {
    hide ContextOf, Quarter;
  }

  lemma HerdAdded(pools: map<Path, Pool>, ps: set<Pool>, es: set<EndpointElem>, p: Path, pool: Pool)
    requires Herd(pools, ps, es) && pool.Valid() && pool !in ps && pool.Elems() == {} && p !in pools
    ensures Herd(pools[p := pool], ps + {pool}, es)
    ensures RoutesOf(pools[p := pool], ps + {pool}) == RoutesOf(pools, ps)[p := Contents(pool.state)]
  {
    hide RoutesOf, Contents, Pool.Valid;
    RoutesAt(pools, ps, es);
    RoutesAre(pools[p := pool], ps + {pool}, RoutesOf(pools, ps)[p := Contents(pool.state)]);
  }

  lemma HerdRemoved(pools: map<Path, Pool>, ps: set<Pool>, es: set<EndpointElem>, p: Path)
    requires Herd(pools, ps, es)
    ensures Herd(pools - {p}, ps, es) && RoutesOf(pools - {p}, ps) == RoutesOf(pools, ps) - {p}
  {
  }

  // ---------- Lookup ----------

  /** A key and the wildcard keys tried after it, the most specific first. */
  function Candidates(key: string): (c: seq<string>)
    ensures |c| > 0 && c[0] == key
    decreases |WildcardText(key)|
  {
    var next := NextWildcard(key);
    [key] + if next.Some? then Candidates(next.value) else []
  }

  /** The candidates are the key itself and the starred suffixes of its text, the longest first. */
  lemma {:induction false} CandidatesAre(key: string)
    ensures Candidates(key) == [key] + Stars(WildcardText(key))
    decreases |WildcardText(key)|
  {
    hide NextWildcard, WildcardText, Stars;
    NextIsStar(key);
    if NextWildcard(key).Some? {
      CandidatesAre(NextWildcard(key).value);
    }
  }

  /** What a lookup finds: the longest match of the first candidate that has a match. */
  ghost function Chosen<P>(pools: map<Path, P>, key: string): Option<P>
    decreases |WildcardText(key)|
  {
    var m, next := Match(pools, PathOf(key)), NextWildcard(key);
    if m.Some? || next == None then m else Chosen(pools, next.value)
  }

  /** The path of that match. */
  ghost function ChosenPath<P>(pools: map<Path, P>, key: string): Option<Path>
    decreases |WildcardText(key)|
  {
    var path, next := PathOf(key), NextWildcard(key);
    var n := Longest(pools, path, |path|);
    if n > 0 then Some(path[..n]) else if next == None then None else ChosenPath(pools, next.value)
  }

  lemma {:induction false} ChosenHasPath<P>(pools: map<Path, P>, key: string)
    ensures var path := ChosenPath(pools, key);
            if path.Some? then path.value in pools && Chosen(pools, key) == Some(pools[path.value])
            else Chosen(pools, key) == None
    decreases |WildcardText(key)|
  {
    hide PathOf, NextWildcard, Longest;
    if NextWildcard(key).Some? {
      ChosenHasPath(pools, NextWildcard(key).value);
    }
  }

  /** Which path is chosen depends on the registered paths only. */
  lemma {:induction false} ChosenByPaths<P, Q>(pools: map<Path, P>, others: map<Path, Q>, key: string)
    requires pools.Keys == others.Keys
    ensures ChosenPath(pools, key) == ChosenPath(others, key)
    decreases |WildcardText(key)|
  {
    hide PathOf, NextWildcard, Chosen;
    LongestByPaths(pools, others, PathOf(key), |PathOf(key)|);
    if NextWildcard(key).Some? {
      ChosenByPaths(pools, others, NextWildcard(key).value);
    }
  }

  /** Candidate `i` is the first with a match, and `p` is its match. */
  ghost predicate FirstMatch<P>(pools: map<Path, P>, c: seq<string>, i: nat, p: P) {
    && i < |c| && Match(pools, PathOf(c[i])) == Some(p)
    && forall j :: 0 <= j < i ==> Match(pools, PathOf(c[j])) == None
  }

  lemma FirstMatchCons<P>(pools: map<Path, P>, key: string, rest: seq<string>, i: nat, p: P)
    requires FirstMatch(pools, rest, i, p) && Match(pools, PathOf(key)) == None
    ensures FirstMatch(pools, [key] + rest, i + 1, p)
  {
    hide PathOf, Match;
  }

  ghost predicate NoMatch<P>(pools: map<Path, P>, c: seq<string>) {
    forall i :: 0 <= i < |c| ==> Match(pools, PathOf(c[i])) == None
  }

  /** The chosen pool belongs to the first matching candidate; there is none exactly when no candidate matches. */
  lemma {:induction false} ChosenIsFirst<P>(pools: map<Path, P>, key: string)
    ensures Chosen(pools, key) == None <==> NoMatch(pools, Candidates(key))
    ensures Chosen(pools, key).Some? ==>
              exists i: nat :: FirstMatch(pools, Candidates(key), i, Chosen(pools, key).value)
    decreases |WildcardText(key)|
  {
    hide NextWildcard, PathOf, Match;
    var c, m, next := Candidates(key), Match(pools, PathOf(key)), NextWildcard(key);
    if m.Some? {
      assert FirstMatch(pools, c, 0, m.value);
    } else if next == None {
      assert c == [key];
    } else {
      var rest := Candidates(next.value);
      assert c == [key] + rest;
      ChosenIsFirst(pools, next.value);
      assert Chosen(pools, key) == Chosen(pools, next.value);
      if Chosen(pools, key).Some? {
        var i: nat :| FirstMatch(pools, rest, i, Chosen(pools, next.value).value);
        FirstMatchCons(pools, key, rest, i, Chosen(pools, key).value);
        assert FirstMatch(pools, c, i + 1, Chosen(pools, key).value);
      }
    }
  }

  class RouteRegistry {
    const byUri: Trie
    const dropletStaleThreshold: int
    var timeOfLastUpdate: int
    /** Pools and pool elements that belong to the table. */
    ghost var ps: set<Pool>
    ghost var es: set<EndpointElem>

    ghost predicate Valid()
      reads this`ps, this`es, byUri, byUri.nodes.Values, ps, es
    {
      byUri.Valid() && Herd(byUri.pools, ps, es) && Furnished(byUri.pools, dropletStaleThreshold)
    }

    ghost function View(): Routes
      reads this`ps, byUri, ps
    {
      RoutesOf(byUri.pools, ps)
    }

    constructor (dropletStaleThreshold: int)
      ensures Valid() && View() == map[]
      ensures fresh(byUri) && fresh(byUri.nodes.Values) && ps == {} && es == {}
    {
      hide Trie.Tree, LeavesCarryBut;
      this.dropletStaleThreshold, timeOfLastUpdate := dropletStaleThreshold, 0;
      byUri := new Trie();
      ps, es := {}, {};
    }

    method Register(uri: string, endpoint: Endpoint, now: int)
      requires Valid() && TableAdmits(TableAt(View(), Key(uri)), endpoint)
      modifies this, byUri, byUri.nodes.Values, ps, es
      ensures Valid() && fresh(byUri.nodes.Values - old(byUri.nodes.Values))
      ensures fresh(ps - old(ps)) && fresh(es - old(es))
      ensures View() == Registered(old(View()), Key(uri), endpoint, now) && timeOfLastUpdate == now
    {
      hide Valid, PathOf, View, Registered, TableAfterPut, TableAdmits;
      RegisteredVia(View(), Key(uri), endpoint, now);
      var key := RouteKey(uri);
      var pool := FindOrInsert(key);
      PutAt(PathOf(key), pool, endpoint, now);
      timeOfLastUpdate := now;
    }

    method PutAt(ghost p: Path, pool: Pool, endpoint: Endpoint, now: int)
      requires Valid() && p in byUri.pools && pool == byUri.pools[p] && p in View() && TableAdmits(View()[p], endpoint)
      modifies this`es, ps, es
      ensures Valid() && fresh(es - old(es))
      ensures View() == old(View())[p := TableAfterPut(old(View())[p], endpoint, now)]
    {
      hide Herd, Trie.Valid, RoutesOf;
      HerdMember(byUri.pools, ps, es, p);
      PutIn(byUri.pools, ps, es, p, pool, endpoint, now);
      es := es + pool.Elems();
    }

    /** An endpoint in the table is that of some element. */
    lemma EndpointHeld(q: Pair)
      requires Valid()
      ensures RecordAt(View(), q).Some? ==> exists x :: x in es && x.endpoint == RecordAt(View(), q).value.endpoint
    {
      hide Herd, Trie.Valid, RoutesOf;
      if RecordAt(View(), q).Some? {
        RecordHeld(byUri.pools, ps, es, q.0, q.1);
      }
    }

    /** The pool of a key, made and inserted if there is none. */
    method FindOrInsert(key: string) returns (pool: Pool)
      requires Valid()
      modifies this`ps, byUri, byUri.nodes.Values
      ensures Valid() && fresh(byUri.nodes.Values - old(byUri.nodes.Values)) && fresh(ps - old(ps))
      ensures PathOf(key) in byUri.pools && pool == byUri.pools[PathOf(key)] && PathOf(key) in View()
      ensures View() == if PathOf(key) in old(View()) then old(View()) else old(View())[PathOf(key) := map[]]
    {
      hide Herd, Trie.Tree, LeavesCarryBut, PathOf, RoutesOf;
      HerdKeys(byUri.pools, ps, es);
      var found := byUri.Find(key);
      if found != null {
        return found;
      }
      pool := InsertPool(key);
    }

    method InsertPool(key: string) returns (pool: Pool)
      requires Valid() && PathOf(key) !in byUri.pools
      modifies this`ps, byUri, byUri.nodes.Values
      ensures Valid() && fresh(byUri.nodes.Values - old(byUri.nodes.Values)) && fresh(ps - old(ps))
      ensures PathOf(key) in byUri.pools && pool == byUri.pools[PathOf(key)]
      ensures View() == old(View())[PathOf(key) := map[]]
    {
      hide Herd, Trie.Valid, PathOf, RoutesOf, Pool.Valid, Contents, ContextOf, Quarter, Furnished, Pool.Elems;
      pool := NewPool(key);
      FurnishedAdded(byUri.pools, dropletStaleThreshold, PathOf(key), pool);
      HerdAdded(byUri.pools, ps, es, PathOf(key), pool);
      ps := ps + {pool};
      var _ := byUri.Insert(key, pool);
    }

    method Unregister(uri: string, endpoint: Endpoint)
      requires Valid() && TableReleases(TableAt(View(), Key(uri)), endpoint)
      modifies byUri, byUri.nodes.Values, ps, es
      ensures Valid() && byUri.nodes.Values <= old(byUri.nodes.Values)
      ensures View() == Unregistered(old(View()), Key(uri), endpoint)
    {
      hide Valid, PathOf, View, TableReleases;
      var key := RouteKey(uri);
      var pool := FindAt(key);
      if pool != null {
        RemoveFrom(PathOf(key), pool, endpoint);
        if pool.IsEmpty() {
          DropPool(key);
        }
      }
    }

    /** `Find`, in terms of the table. */
    method FindAt(key: string) returns (pool: Pool?)
      requires Valid()
      ensures pool == null <==> PathOf(key) !in View()
      ensures pool != null ==> PathOf(key) in byUri.pools && pool == byUri.pools[PathOf(key)]
    {
      hide Herd, Trie.Tree, LeavesCarryBut, PathOf, RoutesOf;
      HerdKeys(byUri.pools, ps, es);
      pool := byUri.Find(key);
    }

    method RemoveFrom(ghost p: Path, pool: Pool, endpoint: Endpoint)
      requires Valid() && p in byUri.pools && pool == byUri.pools[p]
      requires p in View() && TableReleases(View()[p], endpoint)
      modifies ps, es
      ensures Valid() && View() == old(View())[p := old(View())[p] - {endpoint.addr}]
      ensures pool.IsEmpty() <==> View()[p] == map[]
    {
      hide Herd, Trie.Valid, RoutesOf;
      HerdMember(byUri.pools, ps, es, p);
      RemoveIn(byUri.pools, ps, es, p, pool, endpoint);
      EmptyPool(byUri.pools, ps, es, p);
    }

    /** `Delete` of a key that has a pool. */
    method DropPool(key: string)
      requires Valid() && PathOf(key) in byUri.pools
      modifies byUri, byUri.nodes.Values
      ensures Valid() && byUri.nodes.Values <= old(byUri.nodes.Values) && View() == old(View()) - {PathOf(key)}
    {
      hide Herd, Trie.Valid, PathOf, RoutesOf;
      HerdRemoved(byUri.pools, ps, es, PathOf(key));
      byUri.PoolsAreNodes();
      var _ := byUri.Delete(key);
    }

    /** The pool that serves a request, or null. */
    method Lookup(uri: string) returns (pool: Pool?)
      requires Valid()
      ensures match Chosen(byUri.pools, RouteKey(uri)) case None => pool == null case Some(p) => pool == p
      ensures pool == null <==> Chosen(View(), RouteKey(uri)) == None
      ensures pool != null ==> (pool.IsEmpty() <==> Chosen(View(), RouteKey(uri)) == Some(map[]))
      ensures pool != null ==>
                && ChosenPath(View(), RouteKey(uri)).Some?
                && pool.contextPath == ContextOf(ChosenPath(View(), RouteKey(uri)).value)
                && pool.retryAfterFailure == Quarter(dropletStaleThreshold)
    {
      hide Furnished, Chosen, ChosenPath, ContextOf, Quarter;
      pool := Search(uri);
      ServedTable(RouteKey(uri));
    }

    /** What a lookup serves, by the table: an empty pool exactly when the chosen path has no address. */
    lemma ServedTable(key: string)
      requires Valid()
      ensures Chosen(byUri.pools, key) == None <==> Chosen(View(), key) == None
      ensures Chosen(byUri.pools, key).Some? ==>
        (Chosen(byUri.pools, key).value.IsEmpty() <==> Chosen(View(), key) == Some(map[]))
      ensures Chosen(byUri.pools, key).Some? ==>
                && ChosenPath(View(), key).Some?
                && Chosen(byUri.pools, key).value.contextPath == ContextOf(ChosenPath(View(), key).value)
                && Chosen(byUri.pools, key).value.retryAfterFailure == Quarter(dropletStaleThreshold)
    {
      hide Herd, Trie.Valid, RoutesOf, Chosen, ChosenPath, ContextOf, Quarter;
      HerdKeys(byUri.pools, ps, es);
      ChosenByPaths(byUri.pools, View(), key);
      ChosenHasPath(byUri.pools, key);
      ChosenHasPath(View(), key);
      var path := ChosenPath(byUri.pools, key);
      if path.Some? {
        EmptyPool(byUri.pools, ps, es, path.value);
      }
    }

    /** The loop of `Lookup`. */
    method Search(uri: string) returns (pool: Pool?)
      requires Valid()
      ensures match Chosen(byUri.pools, RouteKey(uri)) case None => pool == null case Some(p) => pool == p
    {
      hide Herd, Trie.Tree, LeavesCarryBut, PathOf, NextWildcard, Match;
      var key := RouteKey(uri);
      var failed := false;
      pool := byUri.MatchUri(key);
      while pool == null && !failed
        invariant Valid()
        invariant match Match(byUri.pools, PathOf(key)) case None => pool == null case Some(p) => pool == p
        invariant if failed then pool == null && Chosen(byUri.pools, RouteKey(uri)) == None
                  else Chosen(byUri.pools, key) == Chosen(byUri.pools, RouteKey(uri))
        decreases !failed, |WildcardText(key)|
      {
        var next := NextWildcard(key);
        if next.Some? {
          key := next.value;
        } else {
          failed := true;
        }
        pool := byUri.MatchUri(key);
      }
    }

    method NewPool(key: string) returns (pool: Pool)
      ensures fresh(pool) && pool.Valid() && pool.Elems() == {} && Contents(pool.state) == map[]
      ensures pool.retryAfterFailure == Quarter(dropletStaleThreshold) && pool.contextPath == ContextOf(PathOf(key))
    {
      ContextPathOf(key);
      pool := new Pool(Quarter(dropletStaleThreshold), ContextPath(key));
    }
  }

  lemma HerdKeys(pools: map<Path, Pool>, ps: set<Pool>, es: set<EndpointElem>)
    requires Herd(pools, ps, es)
    ensures RoutesOf(pools, ps).Keys == pools.Keys
  {
  }

  lemma HerdMember(pools: map<Path, Pool>, ps: set<Pool>, es: set<EndpointElem>, p: Path)
    requires Herd(pools, ps, es) && p in pools
    ensures pools[p] in ps && pools[p].Elems() <= es
  {
  }
}
