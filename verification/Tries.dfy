/** The routing trie: nodes linked both ways, created and cut off in place. */
module Tries {
  import opened Collections
  import opened Options
  import opened Uris
  import opened TrieShape
  import opened Pools

  /** A tree as a value: its nodes are distinct objects, and the root carries no pool. */
  ghost predicate Drawing(nodes: map<Path, Trie>, pools: map<Path, Pool>, root: Trie) {
    && Closed(nodes.Keys) && nodes[[]] == root
    && (forall p, q :: p in nodes && q in nodes && p != q ==> nodes[p] != nodes[q])
    && pools.Keys <= nodes.Keys && [] !in pools
  }

  /** What a node at `p` must hold. */
  ghost predicate Fits(nodes: map<Path, Trie>, pools: map<Path, Pool>, p: Path,
                       children: map<string, Trie>, pool: Pool?, parent: Trie?, segment: string)
  {
    && children == Below(nodes, p)
    && pool == (if p in pools then pools[p] else null)
    && if p == [] then parent == null && segment == ""
       else Init(p) in nodes && parent == nodes[Init(p)] && segment == Last(p)
  }

  lemma RootAlone(root: Trie)
    ensures Drawing(map[[] := root], map[], root)
    ensures Fits(map[[] := root], map[], [], map[], null, null, "")
    ensures LeavesCarry<Pool>(map[[] := root].Keys, map[])
  {
    hide Child, Below;
    var nodes: map<Path, Trie> := map[[] := root];
    forall s ensures Child([], s) !in nodes {
      ChildParts([], s);
    }
    BelowIs(nodes, [], map[]);
  }

  lemma DrawingAdded(nodes: map<Path, Trie>, pools: map<Path, Pool>, root: Trie, p: Path, seg: string, child: Trie)
    requires Drawing(nodes, pools, root) && p in nodes && child !in nodes.Values
    ensures Drawing(nodes[Child(p, seg) := child], pools, root)
  {
    hide Child;
    ChildParts(p, seg);
    ClosedAdded(nodes.Keys, p, seg);
    assert nodes[Child(p, seg) := child].Keys == nodes.Keys + {Child(p, seg)};
  }

  /** A new node leaves every other node in place, but for one more child of its parent. */
  lemma FitsAdded(nodes: map<Path, Trie>, pools: map<Path, Pool>, p: Path, seg: string, child: Trie, q: Path,
                  children: map<string, Trie>, pool: Pool?, parent: Trie?, segment: string)
    requires Closed(nodes.Keys) && p in nodes && Child(p, seg) !in nodes && q in nodes
    requires Fits(nodes, pools, q, children, pool, parent, segment)
    ensures Fits(nodes[Child(p, seg) := child], pools, q,
                 if q == p then children[seg := child] else children, pool, parent, segment)
  {
    hide Child, Below;
    BelowAdded(nodes, p, seg, child, q);
  }

  lemma FitsNew(nodes: map<Path, Trie>, pools: map<Path, Pool>, p: Path, seg: string, child: Trie)
    requires Closed(nodes.Keys) && p in nodes && Child(p, seg) !in nodes && pools.Keys <= nodes.Keys
    ensures Fits(nodes[Child(p, seg) := child], pools, Child(p, seg), map[], null, nodes[p], seg)
  {
    hide Child, Below;
    ChildParts(p, seg);
    BelowAdded(nodes, p, seg, child, Child(p, seg));
  }

  lemma DrawingCut(nodes: map<Path, Trie>, pools: map<Path, Pool>, root: Trie, p: Path, seg: string)
    requires Drawing(nodes, pools, root)
    ensures Drawing(CutOff(nodes, Child(p, seg)), CutOff(pools, Child(p, seg)), root)
  {
    ChildParts(p, seg);
    WithoutClosed(nodes.Keys, Child(p, seg));
    assert CutOff(nodes, Child(p, seg)).Keys == Without(nodes.Keys, Child(p, seg));
  }

  lemma FitsCut(nodes: map<Path, Trie>, pools: map<Path, Pool>, p: Path, seg: string, q: Path,
                children: map<string, Trie>, pool: Pool?, parent: Trie?, segment: string)
    requires Closed(nodes.Keys) && q in CutOff(nodes, Child(p, seg))
    requires Fits(nodes, pools, q, children, pool, parent, segment)
    ensures Fits(CutOff(nodes, Child(p, seg)), CutOff(pools, Child(p, seg)), q,
                 if q == p then children - {seg} else children, pool, parent, segment)
  {
    hide Child, Below;
    BelowCut(nodes, p, seg, q);
    if q != [] {
      ChildParts(p, seg);
      WithoutClosed(nodes.Keys, Child(p, seg));
      assert q in Without(nodes.Keys, Child(p, seg));
    }
  }

  lemma FitsPool(nodes: map<Path, Trie>, pools: map<Path, Pool>, p: Path, value: Pool?, q: Path,
                 children: map<string, Trie>, pool: Pool?, parent: Trie?, segment: string)
    requires Fits(nodes, pools, q, children, pool, parent, segment)
    ensures Fits(nodes, if value == null then pools - {p} else pools[p := value], q, children,
                 if q == p then value else pool, parent, segment)
  {
  }

  class Trie {
    var segment: string
    var pool: Pool?
    var children: map<string, Trie>
    var parent: Trie?

    /** Kept at the root: every node of the tree by its path, and the pools they carry. */
    ghost var nodes: map<Path, Trie>
    ghost var pools: map<Path, Pool>

    constructor ()
      ensures segment == "" && pool == null && children == map[] && parent == null
      ensures nodes == map[[] := this] && pools == map[] && Valid()
    {
      hide Drawing, Fits, LeavesCarryBut;
      segment, pool, children, parent := "", null, map[], null;
      new;
      nodes, pools := map[[] := this], map[];
      RootAlone(this);
    }

    predicate IsLeaf()
      reads this
    {
      |children| == 0
    }

    predicate IsRoot()
      reads this
    {
      parent == null
    }

    /** The node at `p` has the children, parent, segment and pool that its place in the tree calls for. */
    ghost predicate InPlace(p: Path)
      requires p in nodes
      reads this, nodes[p]
    {
      Fits(nodes, pools, p, nodes[p].children, nodes[p].pool, nodes[p].parent, nodes[p].segment)
    }

    /** `this` is the root of the tree that `nodes` and `pools` describe. */
    ghost predicate Tree()
      reads this, nodes.Values
    {
      Drawing(nodes, pools, this) && forall p :: p in nodes ==> InPlace(p)
    }

    ghost predicate Valid()
      reads this, nodes.Values
    {
      Tree() && LeavesCarry(nodes.Keys, pools)
    }

    /** One step down the tree. */
    lemma StepDown(p: Path, s: string)
      requires Tree() && p in nodes
      ensures s in nodes[p].children <==> Child(p, s) in nodes
      ensures s in nodes[p].children ==> nodes[p].children[s] == nodes[Child(p, s)]
    {
      BelowAt(nodes, p, s);
    }

    method Find(uri: string) returns (r: Pool?)
      requires Tree()
      ensures r == if PathOf(uri) in pools then pools[PathOf(uri)] else null
    {
      hide Tree, Segments, Parts, Child, PathOf;
      ghost var path, i := PathOf(uri), 0;
      var key := TrieKey(uri);
      var node := this;
      WalkStarts(uri, path, key);
      while true
        invariant i < |path| && Segments(key) == path[i..]
        invariant path[..i] in nodes && node == nodes[path[..i]]
        decreases |path| - i
      {
        Advance(path, i, key);
        var pathParts := Parts(key);
        var seg := pathParts[0];
        StepDown(path[..i], seg);
        if seg !in node.children {
          NoFurther(path, i);
          return null;
        }
        node := node.children[seg];
        i := i + 1;
        if |pathParts| <= 1 {
          break;
        }
        key := pathParts[1];
      }
      assert path[..i] == path;
      PoolAt(path);
      return node.pool;
    }

    lemma WalkStarts(uri: string, path: Path, key: string)
      requires Tree() && path == PathOf(uri) && key == TrieKey(uri)
      ensures |path| > 0 && Segments(key) == path[0..] && path[..0] in nodes && nodes[path[..0]] == this
      ensures pool == null
    {
      assert path[..0] == [] && path[0..] == path;
      assert InPlace([]);
    }

    /** Past a missing node there are no nodes. */
    lemma NoFurther(path: Path, i: nat)
      requires Tree() && i < |path| && path[..i + 1] !in nodes
      ensures forall k :: i < k <= |path| ==> path[..k] !in nodes && path[..k] !in pools
      ensures path !in nodes && path !in pools
    {
      forall k | i < k <= |path| ensures path[..k] !in nodes {
        if path[..k] in nodes {
          assert path[..k][..i + 1] == path[..i + 1];
          PrefixClosed(nodes.Keys, path[..k], i + 1);
        }
      }
      assert path[..|path|] == path;
    }

    lemma PoolAt(p: Path)
      requires Tree() && p in nodes
      ensures nodes[p].pool == if p in pools then pools[p] else null
    {
      assert InPlace(p);
    }

    method MatchUri(uri: string) returns (r: Pool?)
      requires Tree()
      ensures match Match(pools, PathOf(uri)) case None => r == null case Some(found) => r == found
    {
      hide Tree, Segments, Parts, Child, PathOf;
      ghost var path, i := PathOf(uri), 0;
      var key := TrieKey(uri);
      var node := this;
      var lastPool: Pool? := null;
      WalkStarts(uri, path, key);
      while true
        invariant i < |path| && Segments(key) == path[i..]
        invariant path[..i] in nodes && node == nodes[path[..i]]
        invariant IsBest(lastPool, path, i) && (node.pool == null || node.pool == lastPool)
        decreases |path| - i
      {
        Advance(path, i, key);
        var pathParts := Parts(key);
        var seg := pathParts[0];
        StepDown(path[..i], seg);
        if seg !in node.children {
          NoFurther(path, i);
          LongestStops(pools, path, i, |path|);
          break;
        }
        node := node.children[seg];
        i := i + 1;
        PoolAt(path[..i]);
        if node.pool != null {
          lastPool := node.pool;
        }
        if |pathParts| <= 1 {
          break;
        }
        key := pathParts[1];
      }
      if node.pool != null {
        return node.pool;
      }
      return lastPool;
    }

    /** `r` is the pool of the longest registered prefix of `path[..i]`. */
    ghost predicate IsBest(r: Pool?, path: Path, i: nat)
      requires i <= |path|
      reads this, nodes.Values
    {
      var n := Longest(pools, path, i);
      r == if n == 0 then null else pools[path[..n]]
    }

    /** Hangs a new node under the node at `p`. */
    method AddChild(ghost p: Path, node: Trie, seg: string) returns (child: Trie)
      requires Tree() && p in nodes && node == nodes[p] && seg !in node.children
      modifies this`nodes, node`children
      ensures Tree() && fresh(child) && nodes == old(nodes)[Child(p, seg) := child]
    {
      hide Child, Fits, Drawing, Below;
      ghost var c := Child(p, seg);
      StepDown(p, seg);
      child := new Trie();
      AddKeeps(p, node, seg, child);
      child.segment := seg;
      child.parent := node;
      node.children := node.children[seg := child];
      nodes := nodes[c := child];
    }

    /** What stays in place when `child` is hung under `node`. */
    lemma AddKeeps(p: Path, node: Trie, seg: string, child: Trie)
      requires Tree() && p in nodes && node == nodes[p] && Child(p, seg) !in nodes && child !in nodes.Values
      ensures Drawing(nodes[Child(p, seg) := child], pools, this)
      ensures Fits(nodes[Child(p, seg) := child], pools, Child(p, seg), map[], null, node, seg)
      ensures forall q :: q in nodes && q != p ==> nodes[q] != node
      ensures forall q :: q in nodes ==>
        Fits(nodes[Child(p, seg) := child], pools, q, if q == p then node.children[seg := child] else nodes[q].children,
             nodes[q].pool, nodes[q].parent, nodes[q].segment)
    {
      hide Child, Fits, Closed, Below;
      DrawingAdded(nodes, pools, this, p, seg, child);
      FitsNew(nodes, pools, p, seg, child);
      forall q | q in nodes
        ensures Fits(nodes[Child(p, seg) := child], pools, q,
                     if q == p then node.children[seg := child] else nodes[q].children,
                     nodes[q].pool, nodes[q].parent, nodes[q].segment)
      {
        assert InPlace(q);
        FitsAdded(nodes, pools, p, seg, child, q, nodes[q].children, nodes[q].pool, nodes[q].parent, nodes[q].segment);
      }
    }

    /** Gives the node at `p` a pool, or takes its pool away. */
    method SetPool(ghost p: Path, node: Trie, value: Pool?)
      requires Tree() && p in nodes && p != [] && node == nodes[p]
      modifies this`pools, node`pool
      ensures Tree() && pools == if value == null then old(pools) - {p} else old(pools)[p := value]
    {
      hide Fits, Drawing, Below;
      ghost var now := if value == null then pools - {p} else pools[p := value];
      SetKeeps(p, node, value, now);
      node.pool := value;
      pools := now;
    }

    /** What stays in place when the pool of `node` changes. */
    lemma SetKeeps(p: Path, node: Trie, value: Pool?, now: map<Path, Pool>)
      requires Tree() && p in nodes && p != [] && node == nodes[p]
      requires now == if value == null then pools - {p} else pools[p := value]
      ensures Drawing(nodes, now, this) && forall q :: q in nodes && q != p ==> nodes[q] != node
      ensures forall q :: q in nodes ==>
        Fits(nodes, now, q, nodes[q].children, if q == p then value else nodes[q].pool,
             nodes[q].parent, nodes[q].segment)
    {
      hide Fits, Closed, Below;
      forall q | q in nodes
        ensures Fits(nodes, now, q, nodes[q].children, if q == p then value else nodes[q].pool,
                     nodes[q].parent, nodes[q].segment)
      {
        assert InPlace(q);
        FitsPool(nodes, pools, p, value, q, nodes[q].children, nodes[q].pool, nodes[q].parent, nodes[q].segment);
      }
    }

    /** Cuts off the branch at a child of `node`, with the pools in it. */
    method Cut(ghost p: Path, node: Trie, seg: string)
      requires Tree() && p in nodes && node == nodes[p]
      modifies this`nodes, this`pools, node`children
      ensures Tree() && nodes == CutOff(old(nodes), Child(p, seg)) && pools == CutOff(old(pools), Child(p, seg))
      ensures node.children == old(node.children) - {seg}
    {
      hide Child, Fits, Drawing, CutOff, Below;
      ghost var c := Child(p, seg);
      ghost var kept := CutKeeps(p, node, seg);
      node.children := node.children - {seg};
      nodes, pools := CutOff(nodes, c), CutOff(pools, c);
    }

    /** What stays in place when the branch is cut off. */
    lemma CutKeeps(p: Path, node: Trie, seg: string) returns (kept: map<Path, Trie>)
      requires Tree() && p in nodes && node == nodes[p]
      ensures kept == CutOff(nodes, Child(p, seg)) && Drawing(kept, CutOff(pools, Child(p, seg)), this)
      ensures forall q :: q in kept ==> q in nodes && kept[q] == nodes[q] && (q != p ==> nodes[q] != node)
      ensures forall q :: q in kept ==>
        Fits(kept, CutOff(pools, Child(p, seg)), q, if q == p then node.children - {seg} else nodes[q].children,
             nodes[q].pool, nodes[q].parent, nodes[q].segment)
    {
      hide Child, Fits, Closed;
      kept := CutOff(nodes, Child(p, seg));
      DrawingCut(nodes, pools, this, p, seg);
      forall q | q in kept
        ensures Fits(kept, CutOff(pools, Child(p, seg)), q, if q == p then node.children - {seg} else nodes[q].children,
                     nodes[q].pool, nodes[q].parent, nodes[q].segment)
      {
        assert InPlace(q);
        FitsCut(nodes, pools, p, seg, q, nodes[q].children, nodes[q].pool, nodes[q].parent, nodes[q].segment);
      }
    }

    method Insert(uri: string, value: Pool) returns (node: Trie)
      requires Valid()
      modifies this, nodes.Values
      ensures Valid() && pools == old(pools)[PathOf(uri) := value] && fresh(nodes.Values - old(nodes.Values))
      ensures PathOf(uri) in nodes && node == nodes[PathOf(uri)]
    {
      hide Tree, Segments, Parts, Child, PathOf, LeavesCarryBut;
      ghost var path, i := PathOf(uri), 0;
      var key := TrieKey(uri);
      node := this;
      WalkStarts(uri, path, key);
      while true
        invariant Tree() && i < |path| && Segments(key) == path[i..] && pools == old(pools)
        invariant path[..i] in nodes && node == nodes[path[..i]]
        invariant LeavesCarryBut(nodes.Keys, pools, path[..i]) && fresh(nodes.Values - old(nodes.Values))
        decreases |path| - i
      {
        Advance(path, i, key);
        var pathParts := Parts(key);
        var seg := pathParts[0];
        StepDown(path[..i], seg);
        LeavesStep(nodes.Keys, pools, path[..i], seg);
        if seg !in node.children {
          ghost var was := nodes;
          node := AddChild(path[..i], node, seg);
          ValuesInserted(was, path[..i + 1], node);
          assert nodes.Keys == was.Keys + {path[..i + 1]};
        } else {
          node := node.children[seg];
          assert nodes.Keys == nodes.Keys + {path[..i + 1]};
        }
        i := i + 1;
        if |pathParts| != 2 {
          break;
        }
        key := pathParts[1];
      }
      assert path[..i] == path;
      LeavesDone(nodes.Keys, pools, path, value);
      SetPool(path, node, value);
    }

    lemma OnPath(path: Path, i: nat)
      requires Tree() && path in nodes && i < |path|
      ensures path[..i] in nodes && path[..i + 1] in nodes && path[..i + 1] != []
    {
      PrefixClosed(nodes.Keys, path, i);
      PrefixClosed(nodes.Keys, path, i + 1);
    }

    /** Paths without a node are not asked for: the registry deletes only what it has found. */
    method Delete(uri: string) returns (ok: bool)
      requires Valid() && PathOf(uri) in nodes
      modifies this, nodes.Values
      ensures ok && Valid() && pools == old(pools) - {PathOf(uri)} && nodes.Values <= old(nodes.Values)
    {
      hide Tree, Segments, Parts, Child, PathOf, LeavesCarryBut;
      ghost var path, i := PathOf(uri), 0;
      var key := TrieKey(uri);
      var initialKey := key;
      var node := this;
      WalkStarts(uri, path, key);
      while true
        invariant i < |path| && Segments(key) == path[i..]
        invariant path[..i] in nodes && node == nodes[path[..i]]
        decreases |path| - i
        modifies {}
      {
        Advance(path, i, key);
        var pathParts := Parts(key);
        StepDown(path[..i], pathParts[0]);
        OnPath(path, i);
        node := node.children[pathParts[0]];
        i := i + 1;
        if |pathParts| <= 1 {
          break;
        }
        key := pathParts[1];
      }
      assert path[..i] == path;
      LeavesButOne(nodes.Keys, pools, path);
      SetPool(path, node, null);
      assert Segments(initialKey) == path;
      DeleteEmptyNodes(initialKey, path);
      ok := true;
    }

    lemma TreeDomain()
      requires Tree()
      ensures Closed(nodes.Keys) && pools.Keys <= nodes.Keys && [] !in pools
    {
    }

    lemma PoolsAreNodes()
      requires Valid()
      ensures pools.Keys <= nodes.Keys
    {
    }

    /** A node that neither carries a pool nor branches. */
    ghost predicate Plain(p: Path)
      requires p in nodes
      reads this, nodes[p]
    {
      p !in pools && |nodes[p].children| < 2
    }

    /** The first `i` steps of `path`: from `k` on the nodes are plain, and `k` has a reason to stay. */
    ghost predicate Chain(path: Path, k: nat, i: nat)
      requires k <= i <= |path|
      reads this, nodes.Values
    {
      && (forall j :: 0 <= j <= i ==> path[..j] in nodes)
      && (forall j :: k < j <= i ==> Plain(path[..j]))
      && (k == 0 || path[..k] in pools || |nodes[path[..k]].children| > 1)
    }

    method DeleteEmptyNodes(key0: string, ghost path: Path)
      requires Tree() && Segments(key0) == path && path in nodes && path !in pools
      requires LeavesCarryBut(nodes.Keys, pools, path)
      modifies this`nodes, nodes.Values
      ensures Valid() && pools == old(pools) && nodes.Values <= old(nodes.Values)
    {
      hide Tree, Segments, Parts, Child, LeavesCarryBut, Plain, Chain;
      var key := key0;
      ghost var i, k := 0, 0;
      var node := this;
      var nodeToKeep := this;
      var nodeToRemove: Trie? := null;
      ChainStarts(path);
      assert path[0..] == path;
      while true
        invariant i < |path| && Segments(key) == path[i..] && k <= i && Chain(path, k, i)
        invariant path[..i] in nodes && node == nodes[path[..i]]
        invariant path[..k] in nodes && nodeToKeep == nodes[path[..k]]
        invariant nodeToRemove == null <==> k == i
        invariant k < i ==> path[..k + 1] in nodes && nodeToRemove == nodes[path[..k + 1]]
        decreases |path| - i
        modifies {}
      {
        Advance(path, i, key);
        var pathParts := Parts(key);
        StepDown(path[..i], pathParts[0]);
        OnPath(path, i);
        var matchingChild := node.children[pathParts[0]];
        ChainStep(path, k, i);
        if nodeToRemove == null && matchingChild.pool == null && |matchingChild.children| < 2 {
          nodeToRemove := matchingChild;
        } else if matchingChild.pool != null || |matchingChild.children| > 1 {
          nodeToKeep := matchingChild;
          nodeToRemove := null;
          k := i + 1;
        }
        node := matchingChild;
        i := i + 1;
        if |pathParts| <= 1 {
          break;
        }
        key := pathParts[1];
      }
      assert path[..i] == path;
      ChainEnds(path, k);
      if node.IsLeaf() {
        RemoveChain(path, k, nodeToKeep, nodeToRemove);
      }
    }

    lemma ChainStarts(path: Path)
      requires Tree() && path in nodes
      ensures |path| > 0 ==> path[..0] in nodes && nodes[path[..0]] == this && Chain(path, 0, 0)
    {
      assert path[..0] == [];
    }

    lemma ChainStep(path: Path, k: nat, i: nat)
      requires Tree() && k <= i < |path| && Chain(path, k, i) && path[..i + 1] in nodes
      ensures var node := nodes[path[..i + 1]];
              if node.pool != null || |node.children| > 1 then Chain(path, i + 1, i + 1) else Chain(path, k, i + 1)
    {
      hide Tree;
      PoolAt(path[..i + 1]);
    }

    lemma ChainEnds(path: Path, k: nat)
      requires Tree() && path != [] && k <= |path| && path in nodes && path !in pools && Chain(path, k, |path|)
      requires LeavesCarryBut(nodes.Keys, pools, path)
      ensures |nodes[path].children| == 0 ==> k < |path|
      ensures |nodes[path].children| > 0 ==> LeavesCarry(nodes.Keys, pools)
    {
      hide Tree;
      assert path[..|path|] == path;
      if |nodes[path].children| > 0 {
        var s :| s in nodes[path].children;
        StepDown(path, s);
      }
    }

    /** Plain nodes down to a leaf do not branch. */
    lemma PlainIsSingle(path: Path, k: nat)
      requires Tree() && k < |path| && path in nodes && Chain(path, k, |path|) && |nodes[path].children| == 0
      ensures Single(nodes.Keys, path, k)
    {
      hide Child, Tree;
      assert path[..|path|] == path;
      forall j, s | k < j <= |path| && Child(path[..j], s) in nodes.Keys ensures j < |path| && s == path[j] {
        StepDown(path[..j], s);
        if j < |path| {
          ChainChild(path, j);
          StepDown(path[..j], path[j]);
          SmallSet(nodes[path[..j]].children.Keys, s, path[j]);
        }
      }
    }

    /** A node that stays for its branches has one besides the chain. */
    lemma OtherBranch(path: Path, k: nat) returns (other: string)
      requires Tree() && k < |path| && path in nodes && Chain(path, k, |path|)
      ensures k == 0 || path[..k] in pools || (other != path[k] && Child(path[..k], other) in nodes)
    {
      other := "";
      var keys := nodes[path[..k]].children.Keys;
      if |keys| > 1 {
        assert |keys - {path[k]}| > 0;
        other :| other in keys - {path[k]};
        StepDown(path[..k], other);
      }
    }

    /** The chain below `path[..k]` goes. */
    method RemoveChain(ghost path: Path, ghost k: nat, nodeToKeep: Trie, nodeToRemove: Trie)
      requires Tree() && k < |path| && path in nodes && path !in pools && Chain(path, k, |path|)
      requires |nodes[path].children| == 0 && LeavesCarryBut(nodes.Keys, pools, path)
      requires nodeToKeep == nodes[path[..k]] && nodeToRemove == nodes[path[..k + 1]]
      modifies this`nodes, nodes.Values
      ensures Valid() && pools == old(pools) && nodes.Values <= old(nodes.Values)
    {
      hide Child, Chain, LeavesCarryBut, Fits, CutOff, Without, Drawing;
      ReadyToCut(path, k);
      WhatIsCut(nodes, pools, this, path[..k + 1]);
      assert this in nodes.Values;
      Cut(path[..k], nodeToKeep, nodeToRemove.segment);
      nodeToRemove.parent := null;
    }

    /** The chain can go: nothing hangs on it but itself. */
    lemma ReadyToCut(path: Path, k: nat)
      requires Tree() && k < |path| && path in nodes && path !in pools && Chain(path, k, |path|)
      requires |nodes[path].children| == 0 && LeavesCarryBut(nodes.Keys, pools, path)
      ensures path[..k] in nodes && path[..k + 1] in nodes
      ensures path[..k + 1] == Child(path[..k], nodes[path[..k + 1]].segment)
      ensures LeavesCarry(Without(nodes.Keys, path[..k + 1]), pools)
      ensures [] in nodes && nodes[[]] == this && forall q :: q in pools ==> !(path[..k + 1] <= q)
    {
      hide Child, Chain, LeavesCarryBut, Fits, Without;
      OnPath(path, k);
      PlainIsSingle(path, k);
      ghost var other := OtherBranch(path, k);
      CutLeaves(nodes.Keys, pools, path, k, other);
      ChainIsBare(path, k);
      ChainChild(path, k);
      SegmentAt(path[..k + 1]);
    }

    lemma SegmentAt(p: Path)
      requires Tree() && p in nodes && p != []
      ensures nodes[p].segment == Last(p) && Init(p) in nodes && nodes[p].parent == nodes[Init(p)]
    {
      assert InPlace(p);
    }

    lemma ChainIsBare(path: Path, k: nat)
      requires Tree() && k < |path| && Single(nodes.Keys, path, k) && Chain(path, k, |path|)
      ensures forall q :: q in pools ==> !(path[..k + 1] <= q)
    {
      forall j | k < j <= |path| ensures path[..j] !in pools {
        assert Plain(path[..j]);
      }
      ChainCarriesNothing(nodes.Keys, pools, path, k);
    }

    /** For `Snip`: along `p`, the pools in `bare` are the empty ones. */
    ghost predicate BareAlong(p: Path, bare: set<Path>)
      reads this, pools.Values
    {
      forall k :: 0 <= k <= |p| && p[..k] in pools ==> (p[..k] in bare <==> pools[p[..k]].IsEmpty())
    }

    /**
     * Removes the leaf `node` if its pool is missing or empty, then its parent likewise, and so on.
     * Only nodes on the way to the root go, and they go without children.
     */
    method Snip(node: Trie, ghost p: Path, ghost bare: set<Path>)
      requires Tree() && p in nodes && node == nodes[p] && BareAlong(p, bare)
      requires LeavesBear(nodes.Keys, pools, bare, p)
      modifies this`nodes, this`pools, nodes.Values`children
      ensures Tree() && LeavesBear(nodes.Keys, pools, bare, [])
      ensures Shrunk(old(nodes), nodes, old(pools), pools, bare)
      ensures forall q :: q in old(nodes) && q !in nodes ==> old(nodes)[q].children == map[]
      decreases |p|
    {
      hide Tree, LeavesBear, Shrunk, BareAlong;
      if (node.pool != null && !node.pool.IsEmpty()) || node.IsRoot() || !node.IsLeaf() {
        SnipStays(p, bare);
        ShrunkSame(nodes, pools, bare);
        return;
      }
      SnipGoes(p, bare);
      var parent := node.parent;
      ghost var nodes0, pools0 := nodes, pools;
      CutLeaf(node, p, bare);
      ghost var nodes1, pools1 := nodes, pools;
      Snip(parent, Init(p), bare);
      ShrunkTwice(nodes0, nodes1, nodes, pools0, pools1, pools, bare);
      assert node.children == map[];
      forall q | q in nodes0 && q !in nodes ensures nodes0[q].children == map[] {
        if q != p {
          assert q in nodes1 && nodes1[q] == nodes0[q];
        }
      }
    }

    lemma SnipStays(p: Path, bare: set<Path>)
      requires Tree() && p in nodes && BareAlong(p, bare) && LeavesBear(nodes.Keys, pools, bare, p)
      requires (nodes[p].pool != null && !nodes[p].pool.IsEmpty()) || nodes[p].parent == null || |nodes[p].children| > 0
      ensures LeavesBear(nodes.Keys, pools, bare, [])
    {
      hide Fits;
      FitsAt(p);
      assert p[..|p|] == p;
      if |nodes[p].children| > 0 {
        var s :| s in nodes[p].children;
        StepDown(p, s);
      }
    }

    /** What `InPlace` says of the node at `p`. */
    lemma FitsAt(p: Path)
      requires Tree() && p in nodes
      ensures nodes[p].pool == if p in pools then pools[p] else null
      ensures nodes[p].parent == null <==> p == []
      ensures p != [] ==> Init(p) in nodes && nodes[p].parent == nodes[Init(p)] && nodes[p].segment == Last(p)
    {
      assert InPlace(p);
    }

    lemma SnipGoes(p: Path, bare: set<Path>)
      requires Tree() && p in nodes && BareAlong(p, bare)
      requires (nodes[p].pool == null || nodes[p].pool.IsEmpty()) && nodes[p].parent != null && |nodes[p].children| == 0
      ensures p != [] && Leaf(nodes.Keys, p) && (p in pools ==> p in bare)
      ensures Init(p) in nodes && nodes[p].parent == nodes[Init(p)] && nodes[p].segment == Last(p)
    {
      hide Fits;
      FitsAt(p);
      assert p[..|p|] == p;
      forall s ensures Child(p, s) !in nodes.Keys {
        StepDown(p, s);
      }
    }

    method CutLeaf(node: Trie, ghost p: Path, ghost bare: set<Path>)
      requires Tree() && p in nodes && node == nodes[p] && BareAlong(p, bare)
      requires p != [] && Leaf(nodes.Keys, p) && (p in pools ==> p in bare) && LeavesBear(nodes.Keys, pools, bare, p)
      requires Init(p) in nodes && node.parent == nodes[Init(p)] && node.segment == Last(p) && node.children == map[]
      modifies this`nodes, this`pools, node.parent`children
      ensures Tree() && nodes == old(nodes) - {p} && pools == old(pools) - {p} && Init(p) in nodes && p !in nodes
      ensures BareAlong(Init(p), bare) && LeavesBear(nodes.Keys, pools, bare, Init(p))
      ensures Shrunk(old(nodes), nodes, old(pools), pools, bare) && node.children == map[] && node !in nodes.Values
    {
      hide Child, Fits, Leaf;
      LeafCut(nodes.Keys, pools, bare, p);
      LeafIsLast(nodes.Keys, p);
      InitLast(p);
      ghost var nodes0, pools0 := nodes, pools;
      Cut(Init(p), node.parent, node.segment);
      assert nodes.Keys == Without(nodes0.Keys, p);
      assert pools == pools0 - {p};
      forall k | 0 <= k <= |Init(p)| ensures Init(p)[..k] == p[..k] {
      }
    }
  }

  /** Cutting off a branch without pools takes away its nodes and no pool. */
  lemma WhatIsCut(nodes: map<Path, Trie>, pools: map<Path, Pool>, root: Trie, c: Path)
    requires Drawing(nodes, pools, root) && c in nodes && forall q :: q in pools ==> !(c <= q)
    ensures CutOff(nodes, c).Keys == Without(nodes.Keys, c) && CutOff(pools, c) == pools
    ensures CutOff(nodes, c).Values <= nodes.Values && nodes[c] !in CutOff(nodes, c).Values
  {
    hide Closed;
  }

  /** Later nodes and pools are among the earlier ones, and only bare pools went. */
  ghost predicate Shrunk(nodes: map<Path, Trie>, nodes': map<Path, Trie>,
                         pools: map<Path, Pool>, pools': map<Path, Pool>,
                         bare: set<Path>)
  {
    && (forall q :: q in nodes' ==> q in nodes && nodes'[q] == nodes[q])
    && (forall q :: q in pools' ==> q in pools && pools'[q] == pools[q])
    && (forall q :: q in pools && q in nodes' ==> q in pools')
    && (forall q :: q in pools && q !in bare ==> q in pools')
  }

  lemma ShrunkSame(nodes: map<Path, Trie>, pools: map<Path, Pool>, bare: set<Path>)
    ensures Shrunk(nodes, nodes, pools, pools, bare)
  {
  }

  lemma ShrunkTwice(nodes: map<Path, Trie>, nodes1: map<Path, Trie>, nodes2: map<Path, Trie>,
                    pools: map<Path, Pool>, pools1: map<Path, Pool>, pools2: map<Path, Pool>, bare: set<Path>)
    requires Shrunk(nodes, nodes1, pools, pools1, bare) && Shrunk(nodes1, nodes2, pools1, pools2, bare)
    ensures Shrunk(nodes, nodes2, pools, pools2, bare)
  {
  }
}
