/** Tries as values: the set of node paths, each with the pool it carries, if any. */
module TrieShape {
  import opened Options
  import opened Uris

  function Child(p: Path, s: string): Path {
    p + [s]
  }

  function Init(p: Path): Path
    requires p != []
  {
    p[..|p| - 1]
  }

  function Last(p: Path): string
    requires p != []
  {
    p[|p| - 1]
  }

  /** A tree: it has a root, and every other node hangs under a node. */
  ghost predicate Closed(dom: set<Path>) {
    [] in dom && forall p :: p in dom && p != [] ==> Init(p) in dom
  }

  ghost predicate Leaf(dom: set<Path>, p: Path) {
    forall s :: Child(p, s) !in dom
  }

  /** What is left when the branch at `c` is cut off. */
  ghost function Without(dom: set<Path>, c: Path): set<Path> {
    set q | q in dom && !(c <= q)
  }

  lemma ChildParts(p: Path, s: string)
    ensures Child(p, s) != [] && Init(Child(p, s)) == p && Last(Child(p, s)) == s
  {
  }

  lemma ChildIsUnique(p: Path, s: string, q: Path, s': string)
    ensures Child(p, s) == Child(q, s') <==> p == q && s == s'
  {
    ChildParts(p, s);
    ChildParts(q, s');
  }

  /** A path that is not in a tree has nothing below it. */
  lemma NothingBelow(dom: set<Path>, c: Path)
    requires Closed(dom) && c !in dom
    ensures Leaf(dom, c)
  {
    forall s ensures Child(c, s) !in dom {
      ChildParts(c, s);
    }
  }

  lemma ClosedAdded(dom: set<Path>, p: Path, s: string)
    requires Closed(dom) && p in dom
    ensures Closed(dom + {Child(p, s)})
  {
    ChildParts(p, s);
  }

  lemma InitLast(p: Path)
    requires p != []
    ensures Child(Init(p), Last(p)) == p
  {
  }

  lemma {:induction false} PrefixClosed(dom: set<Path>, p: Path, k: nat)
    requires Closed(dom) && p in dom && k <= |p|
    ensures p[..k] in dom
    decreases |p| - k
  {
    if k < |p| {
      PrefixClosed(dom, p, k + 1);
      assert Init(p[..k + 1]) == p[..k];
    } else {
      assert p[..k] == p;
    }
  }

  lemma WithoutClosed(dom: set<Path>, c: Path)
    requires Closed(dom) && c != []
    ensures Closed(Without(dom, c))
  {
    forall p | p in Without(dom, c) && p != [] ensures Init(p) in Without(dom, c) {
      assert c <= Init(p) ==> c <= p;
    }
  }

  /** Cutting at a child of `p` takes a child away from `p` and from no other node that stays. */
  lemma WithoutChildren(dom: set<Path>, p: Path, s: string, q: Path, s': string)
    requires q in Without(dom, Child(p, s))
    ensures Child(q, s') in Without(dom, Child(p, s)) <==> Child(q, s') in dom && !(q == p && s' == s)
  {
    var c := Child(p, s);
    ChildParts(q, s');
    ChildParts(p, s);
    assert c <= Child(q, s') ==> c <= q || c == Child(q, s');
  }

  /** The nodes right below `p`, by segment. */
  ghost function Below<T>(nodes: map<Path, T>, p: Path): (r: map<string, T>)
  {
    map s | s in SegmentsBelow(nodes.Keys, p) && Child(p, s) in nodes :: nodes[Child(p, s)]
  }

  ghost function SegmentsBelow(dom: set<Path>, p: Path): set<string> {
    set q | q in dom && q != [] && Init(q) == p :: Last(q)
  }

  lemma BelowAt<T>(nodes: map<Path, T>, p: Path, s: string)
    ensures s in Below(nodes, p) <==> Child(p, s) in nodes
    ensures s in Below(nodes, p) ==> Below(nodes, p)[s] == nodes[Child(p, s)]
  {
    ChildParts(p, s);
  }

  lemma BelowIs<T>(nodes: map<Path, T>, p: Path, r: map<string, T>)
    requires forall s :: s in r <==> Child(p, s) in nodes
    requires forall s :: s in r ==> r[s] == nodes[Child(p, s)]
    ensures Below(nodes, p) == r
  {
    forall s ensures s in Below(nodes, p) <==> s in r {
      BelowAt(nodes, p, s);
    }
    forall s | s in r ensures Below(nodes, p)[s] == r[s] {
      BelowAt(nodes, p, s);
    }
  }

  /** A new node shows up below its parent and nowhere else. */
  lemma BelowAdded<T>(nodes: map<Path, T>, p: Path, seg: string, t: T, q: Path)
    requires Closed(nodes.Keys) && p in nodes && Child(p, seg) !in nodes
    requires q in nodes || q == Child(p, seg)
    ensures Below(nodes[Child(p, seg) := t], q) ==
            if q == p then Below(nodes, p)[seg := t] else if q in nodes then Below(nodes, q) else map[]
  {
    hide Child, Below;
    var c := Child(p, seg);
    NothingBelow(nodes.Keys, c);
    var r := if q == p then Below(nodes, p)[seg := t] else if q in nodes then Below(nodes, q) else map[];
    forall s
      ensures s in r <==> Child(q, s) in nodes[c := t]
      ensures s in r ==> r[s] == nodes[c := t][Child(q, s)]
    {
      BelowAt(nodes, q, s);
      ChildIsUnique(q, s, p, seg);
    }
    BelowIs(nodes[c := t], q, r);
  }

  /** `nodes` restricted to `Without(nodes.Keys, c)`. */
  ghost function CutOff<T>(nodes: map<Path, T>, c: Path): map<Path, T> {
    map q | q in nodes && !(c <= q) :: nodes[q]
  }

  lemma BelowCut<T>(nodes: map<Path, T>, p: Path, seg: string, q: Path)
    requires Closed(nodes.Keys) && q in CutOff(nodes, Child(p, seg))
    ensures Below(CutOff(nodes, Child(p, seg)), q) == if q == p then Below(nodes, p) - {seg} else Below(nodes, q)
  {
    hide Child, Below;
    var c := Child(p, seg);
    var r := if q == p then Below(nodes, p) - {seg} else Below(nodes, q);
    assert CutOff(nodes, c).Keys == Without(nodes.Keys, c);
    forall s
      ensures s in r <==> Child(q, s) in CutOff(nodes, c)
      ensures s in r ==> r[s] == CutOff(nodes, c)[Child(q, s)]
    {
      BelowAt(nodes, q, s);
      WithoutChildren(nodes.Keys, p, seg, q, s);
    }
    BelowIs(CutOff(nodes, c), q, r);
  }

  /** Every leaf but the root and possibly `but` carries a pool. */
  ghost predicate LeavesCarryBut<P>(dom: set<Path>, pools: map<Path, P>, but: Path) {
    forall p :: p in dom && p != [] && p != but && Leaf(dom, p) ==> p in pools
  }

  ghost predicate LeavesCarry<P>(dom: set<Path>, pools: map<Path, P>) {
    LeavesCarryBut(dom, pools, [])
  }

  /** Going on to a child, present or new, the place where a leaf may lack a pool moves along. */
  lemma LeavesStep<P>(dom: set<Path>, pools: map<Path, P>, p: Path, seg: string)
    requires LeavesCarryBut(dom, pools, p)
    ensures LeavesCarryBut(dom + {Child(p, seg)}, pools, Child(p, seg))
  {
    hide Child;
    var dom' := dom + {Child(p, seg)};
    forall q | q in dom' && q != [] && q != Child(p, seg) && Leaf(dom', q) ensures q in pools {
      assert Child(p, seg) in dom';
      assert Leaf(dom, q);
    }
  }

  lemma LeavesButOne<P>(dom: set<Path>, pools: map<Path, P>, p: Path)
    requires LeavesCarry(dom, pools)
    ensures LeavesCarryBut(dom, pools - {p}, p)
  {
  }

  lemma LeavesDone<P>(dom: set<Path>, pools: map<Path, P>, p: Path, pool: P)
    requires LeavesCarryBut(dom, pools, p)
    ensures LeavesCarry(dom, pools[p := pool])
  {
  }

  /** Nodes that do not branch: a path below `k` has no other nodes beside it. */
  ghost predicate Single(dom: set<Path>, path: Path, k: nat)
  {
    forall j, s :: k < j <= |path| && Child(path[..j], s) in dom ==> j < |path| && s == path[j]
  }

  /** Below `k`, an unbranched path that ends in a leaf is all there is. */
  lemma {:induction false} OnlyChain(dom: set<Path>, path: Path, k: nat, q: Path)
    requires Closed(dom) && k < |path| && Single(dom, path, k) && q in dom && path[..k + 1] <= q
    ensures q <= path
    decreases |q|
  {
    if |q| == k + 1 {
      assert q == path[..k + 1];
    } else {
      var p := Init(q);
      assert path[..k + 1] <= p;
      OnlyChain(dom, path, k, p);
      assert p == path[..|p|];
      InitLast(q);
      assert Child(path[..|p|], Last(q)) in dom;
    }
  }

  /** One turn of a walk along `path`: the key splits into the next segment and the rest. */
  lemma Advance(path: Path, i: nat, key: string)
    requires i < |path| && Segments(key) == path[i..]
    ensures |Parts(key)| > 0 && Parts(key)[0] == path[i]
    ensures Child(path[..i], path[i]) == path[..i + 1]
    ensures |Parts(key)| <= 1 <==> i + 1 == |path|
    ensures |Parts(key)| > 1 ==> Segments(Parts(key)[1]) == path[i + 1..]
  {
    assert path[i..][1..] == path[i + 1..];
  }

  /** The length of the longest prefix of `path[..k]` that has a pool; 0 if none has. */
  ghost function Longest<P>(pools: map<Path, P>, path: Path, k: nat): (n: nat)
    requires k <= |path|
    ensures n <= k && (n > 0 ==> path[..n] in pools)
    ensures forall j :: n < j <= k ==> path[..j] !in pools
  {
    if k == 0 then 0 else if path[..k] in pools then k else Longest(pools, path, k - 1)
  }

  /** The pool of the longest registered prefix of `path`. */
  ghost function Match<P>(pools: map<Path, P>, path: Path): (r: Option<P>)
  {
    var n := Longest(pools, path, |path|);
    if n == 0 then None else Some(pools[path[..n]])
  }

  /** There is a match exactly when some prefix is registered, and it is that of the longest one. */
  lemma MatchIs<P>(pools: map<Path, P>, path: Path)
    ensures Match(pools, path) == None <==> forall n :: 0 < n <= |path| ==> path[..n] !in pools
    ensures forall n :: 0 < n <= |path| && path[..n] in pools &&
                        (forall j :: n < j <= |path| ==> path[..j] !in pools) ==>
              Match(pools, path) == Some(pools[path[..n]])
  {
    var m := Longest(pools, path, |path|);
    forall n | 0 < n <= |path| && path[..n] in pools && forall j :: n < j <= |path| ==> path[..j] !in pools
      ensures n == m
    {
    }
  }

  lemma MatchWhole<P>(pools: map<Path, P>, path: Path)
    requires path in pools && path != []
    ensures Match(pools, path) == Some(pools[path])
  {
    assert path[..|path|] == path;
  }

  lemma {:induction false} LongestByPaths<P, Q>(pools: map<Path, P>, others: map<Path, Q>, path: Path, k: nat)
    requires pools.Keys == others.Keys && k <= |path|
    ensures Longest(pools, path, k) == Longest(others, path, k)
    decreases k
  {
    if k > 0 {
      assert path[..k] in pools <==> path[..k] in others.Keys;
      LongestByPaths(pools, others, path, k - 1);
    }
  }

  lemma {:induction false} LongestStops<P>(pools: map<Path, P>, path: Path, i: nat, k: nat)
    requires i <= k <= |path| && forall j :: i < j <= k ==> path[..j] !in pools
    ensures Longest(pools, path, k) == Longest(pools, path, i)
    decreases k
  {
    if i < k {
      LongestStops(pools, path, i, k - 1);
    }
  }

  /** Cutting an unbranched, poolless chain below `path[..k]` leaves every leaf with a pool. */
  lemma CutLeaves<P>(dom: set<Path>, pools: map<Path, P>, path: Path, k: nat, other: string)
    requires Closed(dom) && path in dom && k < |path| && Single(dom, path, k)
    requires LeavesCarryBut(dom, pools, path)
    requires k == 0 || path[..k] in pools || (other != path[k] && Child(path[..k], other) in dom)
    ensures LeavesCarry(Without(dom, path[..k + 1]), pools)
  {
    hide Child;
    var p, c := path[..k], path[..k + 1];
    assert c == Child(p, path[k]) by { ChainChild(path, k); }
    forall q | q in Without(dom, c) && q != [] && Leaf(Without(dom, c), q) ensures q in pools {
      assert c <= path;
      if q == p {
        WithoutChildren(dom, p, path[k], p, other);
      } else {
        forall s ensures Child(q, s) !in dom {
          WithoutChildren(dom, p, path[k], q, s);
        }
      }
    }
  }

  lemma ChainChild(path: Path, k: nat)
    requires k < |path|
    ensures Child(path[..k], path[k]) == path[..k + 1]
  {
  }

  lemma TakeOfPrefix(q: Path, path: Path)
    requires q <= path
    ensures q == path[..|q|]
  {
  }

  /** Nothing below an unbranched chain that carries no pool carries one. */
  lemma ChainCarriesNothing<P>(dom: set<Path>, pools: map<Path, P>, path: Path, k: nat)
    requires Closed(dom) && pools.Keys <= dom && k < |path| && Single(dom, path, k)
    requires forall j :: k < j <= |path| ==> path[..j] !in pools
    ensures forall q :: q in pools ==> !(path[..k + 1] <= q)
  {
    forall q | q in pools ensures !(path[..k + 1] <= q) {
      if path[..k + 1] <= q {
        OnlyChain(dom, path, k, q);
        TakeOfPrefix(q, path);
      }
    }
  }

  /** Every leaf but the root and possibly `but` carries a pool that is not among the bare ones. */
  ghost predicate LeavesBear<P>(dom: set<Path>, pools: map<Path, P>, bare: set<Path>, but: Path) {
    forall p :: p in dom && p != [] && p != but && Leaf(dom, p) ==> p in pools && p !in bare
  }

  /** When a leaf is cut, only its parent may become a leaf without a pool. */
  lemma LeafCut<P>(dom: set<Path>, pools: map<Path, P>, bare: set<Path>, p: Path)
    requires Closed(dom) && p in dom && p != [] && Leaf(dom, p) && LeavesBear(dom, pools, bare, p)
    ensures LeavesBear(Without(dom, p), CutOff(pools, p), bare, Init(p))
    ensures Without(dom, p) == dom - {p}
  {
    hide Child;
    LeafIsLast(dom, p);
    InitLast(p);
    forall q | q in Without(dom, p) && q != [] && q != Init(p) && Leaf(Without(dom, p), q)
      ensures q in CutOff(pools, p) && q !in bare
    {
      forall s ensures Child(q, s) !in dom {
        WithoutChildren(dom, Init(p), Last(p), q, s);
      }
    }
  }

  /** Nothing in a tree lies below a leaf. */
  lemma LeafIsLast(dom: set<Path>, p: Path)
    requires Closed(dom) && Leaf(dom, p)
    ensures forall q :: q in dom && p <= q ==> q == p
  {
    forall q | q in dom && p <= q ensures q == p {
      if |q| > |p| {
        assert q[..|p| + 1] == Child(p, q[|p|]);
        PrefixClosed(dom, q, |p| + 1);
      }
    }
  }

  /** Below every node there is a leaf. */
  lemma {:induction false} LeafBelow(dom: set<Path>, p: Path) returns (leaf: Path)
    requires Closed(dom) && p in dom
    ensures leaf in dom && p <= leaf && Leaf(dom, leaf)
    decreases Extending(dom, p)
  {
    if s :| Child(p, s) in dom {
      ExtendingChild(dom, p, s);
      leaf := LeafBelow(dom, Child(p, s));
    } else {
      leaf := p;
    }
  }

  /** The part of the tree at and below `p`. */
  ghost function Extending(dom: set<Path>, p: Path): set<Path> {
    set q | q in dom && p <= q
  }

  lemma ExtendingChild(dom: set<Path>, p: Path, s: string)
    requires p in dom
    ensures Extending(dom, Child(p, s)) < Extending(dom, p)
  {
    assert p in Extending(dom, p) && p !in Extending(dom, Child(p, s));
  }

  /** A path that is not in a tree is not a prefix of one that is. */
  lemma AbsentBelow(dom: set<Path>, c: Path)
    requires Closed(dom) && c !in dom
    ensures forall q :: q in dom ==> !(c <= q)
  {
    forall q | q in dom ensures !(c <= q) {
      if c <= q {
        TakeOfPrefix(c, q);
        PrefixClosed(dom, q, |c|);
      }
    }
  }

  /** A node below `p` hangs under the child of `p` that its path names. */
  lemma BranchOf(dom: set<Path>, p: Path, q: Path)
    requires Closed(dom) && q in dom && p <= q && q != p
    ensures p in dom && Child(p, q[|p|]) in dom
  {
    PrefixClosed(dom, q, |p|);
    PrefixClosed(dom, q, |p| + 1);
    assert q[..|p|] == p;
    ChainChild(q, |p|);
  }
}
