/** Walks over the whole trie: counting pools, counting addresses, listing the table. */
module Census {
  import opened Uris
  import opened TrieShape
  import opened Listing
  import opened PoolModel
  import opened Pools
  import opened Tries
  import opened Herds
  import opened Registry

  /** The paths in `dom` at or below `p`, but for those under the children in `todo`. */
  ghost function Seen(dom: set<Path>, p: Path, todo: set<string>): set<Path> {
    set q | q in dom && p <= q && (q == p || q[|p|] !in todo)
  }

  lemma SeenAll(dom: set<Path>, p: Path)
    ensures Seen(dom, p, {}) == Extending(dom, p)
  {
  }

  lemma SeenStep(dom: set<Path>, p: Path, todo: set<string>, s: string)
    requires s in todo
    ensures Seen(dom, p, todo - {s}) == Seen(dom, p, todo) + Extending(dom, Child(p, s))
    ensures Seen(dom, p, todo) !! Extending(dom, Child(p, s))
  {
    forall q | q in dom && p <= q ensures Child(p, s) <= q <==> q != p && q[|p|] == s {
    }
  }

  /** Before its children are visited, a node stands for itself only. */
  lemma SeenNone(t: Trie, p: Path)
    requires t.Tree() && p in t.nodes
    ensures Seen(t.pools.Keys, p, t.nodes[p].children.Keys) == if p in t.pools then {p} else {}
  {
    hide Child;
    var dom := t.nodes.Keys;
    forall q | q in t.pools && p <= q && q != p ensures q[|p|] in t.nodes[p].children {
      BranchOf(dom, p, q);
      t.StepDown(p, q[|p|]);
    }
  }

  lemma SeenChild(t: Trie, p: Path, s: string)
    requires t.Tree() && p in t.nodes && s in t.nodes[p].children
    ensures Child(p, s) in t.nodes && t.nodes[p].children[s] == t.nodes[Child(p, s)]
    ensures Extending(t.nodes.Keys, Child(p, s)) < Extending(t.nodes.Keys, p)
  {
    t.StepDown(p, s);
    ExtendingChild(t.nodes.Keys, p, s);
  }

  /** `EachNodeWithPool` with a counting callback. */
  method CountFrom(ghost t: Trie, node: Trie, ghost p: Path, n: nat) returns (r: nat)
    requires t.Tree() && p in t.nodes && node == t.nodes[p]
    ensures r == n + |Extending(t.pools.Keys, p)|
    decreases Extending(t.nodes.Keys, p)
  {
    hide Trie.Tree, Child, Extending, Seen;
    t.PoolAt(p);
    SeenNone(t, p);
    r := if node.pool != null then n + 1 else n;
    var todo := node.children.Keys;
    while todo != {}
      invariant todo <= node.children.Keys && r == n + |Seen(t.pools.Keys, p, todo)|
      decreases todo
    {
      var s :| s in todo;
      SeenStep(t.pools.Keys, p, todo, s);
      SeenChild(t, p, s);
      r := CountFrom(t, node.children[s], Child(p, s), r);
      todo := todo - {s};
    }
    SeenAll(t.pools.Keys, p);
  }

  /** The number of registered paths. */
  method PoolCount(t: Trie) returns (r: nat)
    requires t.Tree()
    ensures r == |t.pools|
  {
    hide Trie.Tree, Extending;
    WholeTree(t);
    r := CountFrom(t, t, [], 0);
  }

  lemma WholeTree(t: Trie)
    requires t.Tree()
    ensures [] in t.nodes && t.nodes[[]] == t && t.segment == ""
    ensures Extending(t.pools.Keys, []) == t.pools.Keys
  {
    assert t.InPlace([]);
  }

  /** The addresses in the pools at the paths of `s`. */
  ghost function AddressesOf(routes: Routes, s: set<Path>): set<string> {
    set q, a | q in s && q in routes && a in routes[q] :: a
  }

  /** The addresses of one pool, as `Each` delivers them. */
  method PoolAddresses(pool: Pool, m: set<string>) returns (r: set<string>)
    requires pool.Valid()
    ensures r == m + Contents(pool.state).Keys
  {
    r := m;
    var i := 0;
    while i < |pool.endpoints|
      invariant i <= |pool.endpoints|
      invariant r == m + set j | 0 <= j < i :: pool.state.slots[j].endpoint.addr
    {
      r := r + {pool.endpoints[i].endpoint.addr};
      i := i + 1;
    }
    SlotAddresses(pool.state);
  }

  lemma SlotAddresses(s: State)
    requires PoolModel.Valid(s)
    ensures Table(s).Keys == set j | 0 <= j < |s.slots| :: s.slots[j].endpoint.addr
  {
    var all := set j | 0 <= j < |s.slots| :: s.slots[j].endpoint.addr;
    forall a ensures a in Table(s).Keys <==> a in all {
      if a in Table(s).Keys {
        assert s.slots[s.keys[a]].endpoint.addr == a;
      }
    }
  }

  method AddressesFrom(ghost reg: RouteRegistry, node: Trie, ghost p: Path, m: set<string>) returns (r: set<string>)
    requires reg.Valid() && p in reg.byUri.nodes && node == reg.byUri.nodes[p]
    ensures r == m + AddressesOf(reg.View(), Extending(reg.byUri.pools.Keys, p))
    decreases Extending(reg.byUri.nodes.Keys, p)
  {
    hide Trie.Tree, RouteRegistry.Valid, RouteRegistry.View, Child, Extending, Seen, Contents;
    ghost var t := reg.byUri;
    PoolPart(reg, p);
    SeenNone(t, p);
    r := m;
    if node.pool != null {
      r := PoolAddresses(node.pool, m);
    }
    AddressesAt(reg.View(), p);
    var todo := node.children.Keys;
    while todo != {}
      invariant todo <= node.children.Keys && r == m + AddressesOf(reg.View(), Seen(t.pools.Keys, p, todo))
      decreases todo
    {
      var s :| s in todo;
      SeenStep(t.pools.Keys, p, todo, s);
      SeenChild(t, p, s);
      AddressesSum(reg.View(), Seen(t.pools.Keys, p, todo), Extending(t.pools.Keys, Child(p, s)));
      r := AddressesFrom(reg, node.children[s], Child(p, s), r);
      todo := todo - {s};
    }
    SeenAll(t.pools.Keys, p);
  }

  lemma AddressesAt(routes: Routes, p: Path)
    ensures AddressesOf(routes, {}) == {}
    ensures p in routes ==> AddressesOf(routes, {p}) == routes[p].Keys
  {
  }

  lemma AddressesSum(routes: Routes, a: set<Path>, b: set<Path>)
    ensures AddressesOf(routes, a + b) == AddressesOf(routes, a) + AddressesOf(routes, b)
  {
  }

  lemma PoolPart(reg: RouteRegistry, p: Path)
    requires reg.Valid() && p in reg.byUri.nodes
    ensures reg.byUri.Tree() && reg.byUri.nodes[p].pool == if p in reg.byUri.pools then reg.byUri.pools[p] else null
    ensures p in reg.byUri.pools ==>
      p in reg.View() && reg.byUri.pools[p].Valid() && Contents(reg.byUri.pools[p].state) == reg.View()[p]
  {
    hide Trie.Tree, Contents;
    reg.byUri.PoolAt(p);
  }

  /** The number of distinct addresses over all registered paths. */
  method EndpointCount(reg: RouteRegistry) returns (r: nat)
    requires reg.Valid()
    ensures r == |AddressesOf(reg.View(), reg.View().Keys)|
  {
    hide Trie.Tree, Extending, RoutesOf, Herd;
    WholeTree(reg.byUri);
    HerdKeys(reg.byUri.pools, reg.ps, reg.es);
    var m := AddressesFrom(reg, reg.byUri, [], {});
    r := |m|;
  }

  /** `m` lists the pools at the paths of `s`, on top of what `m0` lists; under one key, any of its paths may win. */
  ghost predicate Lists(m0: map<string, Pool>, m: map<string, Pool>, pools: map<Path, Pool>, s: set<Path>) {
    && (forall k :: k in m0 ==> k in m)
    && (forall q :: q in s && q in pools ==> Join(q) in m)
    && (forall k :: k in m ==>
         (k in m0 && m[k] == m0[k]) || exists q :: q in s && q in pools && Join(q) == k && m[k] == pools[q])
  }

  lemma ListsMore(m0: map<string, Pool>, m1: map<string, Pool>, m2: map<string, Pool>, pools: map<Path, Pool>,
                  a: set<Path>, b: set<Path>)
    requires Lists(m0, m1, pools, a) && Lists(m1, m2, pools, b)
    ensures Lists(m0, m2, pools, a + b)
  {
    hide Join;
    forall k | k in m2 && !(k in m0 && m2[k] == m0[k])
      ensures exists q :: q in a + b && q in pools && Join(q) == k && m2[k] == pools[q]
    {
      if k in m1 && m2[k] == m1[k] {
        var q :| q in a && q in pools && Join(q) == k && m1[k] == pools[q];
        assert q in a + b;
      } else {
        var q :| q in b && q in pools && Join(q) == k && m2[k] == pools[q];
        assert q in a + b;
      }
    }
  }

  lemma JoinChild(p: Path, s: string)
    ensures Join(Child(p, s)) == Extend(Join(p), s)
  {
    ChildParts(p, s);
  }

  method ListFrom(ghost t: Trie, node: Trie, ghost p: Path, segment: string, m: map<string, Pool>)
    returns (r: map<string, Pool>)
    requires t.Tree() && p in t.nodes && node == t.nodes[p] && segment == Join(p)
    ensures Lists(m, r, t.pools, Extending(t.pools.Keys, p))
    decreases Extending(t.nodes.Keys, p)
  {
    hide Trie.Tree, Child, Extending, Seen, Join, Extend, Lists;
    t.PoolAt(p);
    SeenNone(t, p);
    r := m;
    if node.pool != null {
      r := r[segment := node.pool];
    }
    ListsOne(m, t.pools, p);
    var todo := node.children.Keys;
    while todo != {}
      invariant todo <= node.children.Keys && Lists(m, r, t.pools, Seen(t.pools.Keys, p, todo))
      decreases todo
    {
      var s :| s in todo;
      SeenStep(t.pools.Keys, p, todo, s);
      SeenChild(t, p, s);
      SegmentOf(t, p, s);
      var child := node.children[s];
      var newseg := if |segment| == 0 then segment + child.segment else segment + "/" + child.segment;
      assert newseg == Join(Child(p, s));
      ghost var before := r;
      r := ListFrom(t, child, Child(p, s), newseg, r);
      ListsMore(m, before, r, t.pools, Seen(t.pools.Keys, p, todo), Extending(t.pools.Keys, Child(p, s)));
      todo := todo - {s};
    }
    SeenAll(t.pools.Keys, p);
  }

  lemma SegmentOf(t: Trie, p: Path, s: string)
    requires t.Tree() && Child(p, s) in t.nodes
    ensures t.nodes[Child(p, s)].segment == s
    ensures Join(Child(p, s)) == if |Join(p)| == 0 then Join(p) + s else Join(p) + "/" + s
  {
    hide Trie.Tree, Join;
    ChildParts(p, s);
    t.SegmentAt(Child(p, s));
    JoinChild(p, s);
  }

  lemma ListsOne(m: map<string, Pool>, pools: map<Path, Pool>, p: Path)
    ensures p in pools ==> Lists(m, m[Join(p) := pools[p]], pools, {p})
    ensures Lists(m, m, pools, {})
  {
  }

  method ToMap(t: Trie) returns (r: map<string, Pool>)
    requires t.Tree()
    ensures Lists(map[], r, t.pools, t.pools.Keys)
  {
    hide Trie.Tree, Extending, Lists;
    WholeTree(t);
    r := ListFrom(t, t, [], t.segment, map[]);
  }

  ghost function Keys(s: set<Path>): set<string> {
    set p | p in s :: Join(p)
  }

  lemma {:induction false} KeysAtMost(s: set<Path>)
    ensures |Keys(s)| <= |s|
  {
    hide Join;
    if p :| p in s {
      KeysAtMost(s - {p});
      assert Keys(s) == Keys(s - {p}) + {Join(p)};
    }
  }

  ghost predicate JoinApart(s: set<Path>) {
    forall p, q :: p in s && q in s && p != q ==> Join(p) != Join(q)
  }

  lemma {:induction false} KeysDistinct(s: set<Path>)
    requires JoinApart(s)
    ensures |Keys(s)| == |s|
  {
    hide Join;
    if p :| p in s {
      KeysDistinct(s - {p});
      assert Keys(s) == Keys(s - {p}) + {Join(p)};
    } else {
      assert Keys(s) == {};
    }
  }

  lemma KeysCollide(s: set<Path>)
    requires !JoinApart(s)
    ensures |Keys(s)| < |s|
  {
    hide Join;
    var p, q :| p in s && q in s && p != q && Join(p) == Join(q);
    KeysAtMost(s - {q});
    assert p in s - {q};
    assert Keys(s) == Keys(s - {q});
  }

  lemma KeysApart(s: set<Path>)
    requires AllSlashFree(s)
    ensures JoinApart(s) <==> StripApart(s)
  {
    hide Join, Strip, SlashFree;
    forall p, q | p in s && q in s ensures Join(p) == Join(q) <==> Strip(p) == Strip(q) {
      JoinedIff(p, q);
    }
  }

  lemma ListedKeys(m: map<string, Pool>, pools: map<Path, Pool>)
    requires Lists(map[], m, pools, pools.Keys)
    ensures m.Keys == Keys(pools.Keys)
  {
    hide Join;
  }

  /** The listing has as many keys as pools exactly when no two paths differ in leading empty segments only. */
  lemma ListingCompleteIff(m: map<string, Pool>, pools: map<Path, Pool>)
    requires Lists(map[], m, pools, pools.Keys) && AllSlashFree(pools.Keys)
    ensures |m| == |pools| <==> StripApart(pools.Keys)
  {
    hide Join, Strip, SlashFree, Lists, Keys, AllSlashFree, StripApart, JoinApart;
    ListedKeys(m, pools);
    KeysApart(pools.Keys);
    if JoinApart(pools.Keys) {
      KeysDistinct(pools.Keys);
    } else {
      KeysCollide(pools.Keys);
    }
  }

  /** What a fresh trie holds after the keys of `m` were inserted, in any order. */
  ghost predicate Reinserted(m: map<string, Pool>, t: map<Path, Pool>) {
    && (forall k :: k in m ==> PathOf(k) in t)
    && (forall p :: p in t ==> exists k :: k in m && PathOf(k) == p && t[p] == m[k])
  }

  /** Inserts a listing into an empty trie, its keys in any order. */
  method Reinsert(m: map<string, Pool>) returns (t: Trie)
    ensures t.Valid() && Reinserted(m, t.pools)
  {
    hide Trie.Valid, PathOf;
    t := new Trie();
    var todo := m.Keys;
    while todo != {}
      invariant todo <= m.Keys && t.Valid() && fresh(t) && fresh(t.nodes.Values)
      invariant Reinserted(m - todo, t.pools)
      decreases todo
    {
      var k :| k in todo;
      ReinsertedNext(m, todo, k, t.pools);
      var _ := t.Insert(k, m[k]);
      todo := todo - {k};
    }
    assert m - {} == m;
  }

  lemma ReinsertedNext(m: map<string, Pool>, todo: set<string>, k: string, t: map<Path, Pool>)
    requires k in todo && todo <= m.Keys && Reinserted(m - todo, t)
    ensures Reinserted(m - (todo - {k}), t[PathOf(k) := m[k]])
  {
    hide PathOf;
    var m', t' := m - (todo - {k}), t[PathOf(k) := m[k]];
    forall p | p in t' ensures exists j :: j in m' && PathOf(j) == p && t'[p] == m'[j] {
      if p == PathOf(k) {
        assert k in m' && t'[p] == m'[k];
      } else {
        var j :| j in m - todo && PathOf(j) == p && t[p] == (m - todo)[j];
        assert j in m' && t'[p] == m'[j];
      }
    }
  }

  /** Listing the table and inserting the list again gives the same table exactly when all its paths are recoverable. */
  lemma ReinsertedIff(m: map<string, Pool>, pools: map<Path, Pool>, t: map<Path, Pool>)
    requires Lists(map[], m, pools, pools.Keys) && OwnPools(pools) && AllSlashFree(pools.Keys) && Reinserted(m, t)
    ensures t == pools <==> AllRecoverable(pools.Keys)
  {
    hide Join, PathOf, Recoverable, Lists, Reinserted, SlashFree;
    forall p | p in pools.Keys ensures PathOf(Join(p)) == p <==> Recoverable(p) {
      RecoveredIff(p);
    }
    if t == pools {
      forall p | p in pools.Keys ensures Recoverable(p) {
        var q := Whence(m, pools, t, p);
        assert q == p;
      }
    }
    if AllRecoverable(pools.Keys) {
      forall p | p in t ensures p in pools && t[p] == pools[p] {
        var q := Whence(m, pools, t, p);
        assert q == p;
      }
      forall p | p in pools ensures p in t {
        Whither(m, pools, t, p);
      }
      assert t.Keys == pools.Keys;
    }
  }

  /** A trie listed and built anew denotes the same table exactly when all its paths are recoverable. */
  method Relist(t: Trie) returns (again: Trie)
    requires t.Tree() && OwnPools(t.pools) && AllSlashFree(t.pools.Keys)
    ensures again.Valid() && (again.pools == t.pools <==> AllRecoverable(t.pools.Keys))
  {
    hide Trie.Valid, Trie.Tree, Lists, Reinserted, OwnPools, AllSlashFree, AllRecoverable;
    var m := ToMap(t);
    again := Reinsert(m);
    ReinsertedIff(m, t.pools, again.pools);
  }

  /** Where an inserted path comes from. */
  lemma Whence(m: map<string, Pool>, pools: map<Path, Pool>, t: map<Path, Pool>, p: Path) returns (q: Path)
    requires Lists(map[], m, pools, pools.Keys) && Reinserted(m, t) && p in t
    ensures q in pools && PathOf(Join(q)) == p && t[p] == pools[q]
  {
    hide Join, PathOf;
    var k :| k in m && PathOf(k) == p && t[p] == m[k];
    q :| q in pools && Join(q) == k && m[k] == pools[q];
  }

  lemma Whither(m: map<string, Pool>, pools: map<Path, Pool>, t: map<Path, Pool>, p: Path)
    requires Lists(map[], m, pools, pools.Keys) && Reinserted(m, t) && p in pools
    ensures PathOf(Join(p)) in t
  {
    hide Join, PathOf;
    assert Join(p) in m;
  }
}
