/** Paths written out as keys again: what the listing of a trie keeps and what it loses. */
module Listing {
  import opened Text
  import opened Uris
  import opened TrieShape

  /** The key of a child, from the key of its parent. */
  function Extend(key: string, s: string): string {
    if |key| == 0 then s else key + "/" + s
  }

  /** The key under which the trie lists the node at `p`. */
  function Join(p: Path): string {
    if p == [] then "" else Extend(Join(Init(p)), Last(p))
  }

  ghost predicate SlashFree(p: Path) {
    p != [] && forall i :: 0 <= i < |p| ==> '/' !in p[i]
  }

  /** What is left of a path after its leading empty segments. */
  function Strip(p: Path): (r: Path)
    ensures p != [] ==> r != [] && Last(r) == Last(p)
    ensures |r| > 1 ==> r[0] != ""
  {
    if |p| > 1 && p[0] == "" then Strip(p[1..]) else p
  }

  lemma PartsSlash(key: string, s: string)
    requires '/' !in s
    ensures Parts(s) == [s]
    ensures Parts(key + "/" + s) == if '/' in key then [Parts(key)[0], Parts(key)[1] + "/" + s] else [key, s]
  {
    var k := key + "/" + s;
    if '/' in key {
      var i := IndexOf(key, '/');
      assert k[..i] == key[..i];
      FirstAt(k, '/', i);
      assert k[i + 1..] == key[i + 1..] + "/" + s;
    } else {
      assert k[..|key|] == key;
      FirstAt(k, '/', |key|);
      assert k[|key| + 1..] == s;
    }
  }

  lemma {:induction false} SegmentsSlash(key: string, s: string)
    requires '/' !in s
    ensures Segments(s) == [s] && Segments(key + "/" + s) == Segments(key) + [s]
    decreases |key|
  {
    hide Parts;
    PartsSlash(key, s);
    if '/' in key {
      SegmentsSlash(Parts(key)[1], s);
    }
  }

  lemma {:induction false} StripSnoc(p: Path, s: string)
    requires p != []
    ensures Strip(Child(p, s)) == if Strip(p) == [""] then [s] else Strip(p) + [s]
    decreases |p|
  {
    var c := Child(p, s);
    if p[0] == "" {
      assert c[1..] == p[1..] + [s];
      if |p| > 1 {
        StripSnoc(p[1..], s);
      }
    }
  }

  lemma {:induction false} SegmentsDiffer(a: string, b: string)
    requires Segments(a) == Segments(b)
    ensures a == b
    decreases |a|
  {
    hide Parts;
    var x, y := Parts(a), Parts(b);
    assert Segments(a)[0] == x[0] && Segments(b)[0] == y[0];
    if |x| == 2 {
      assert Segments(a)[1..] == Segments(x[1]);
      assert |y| == 2 && Segments(b)[1..] == Segments(y[1]);
      SegmentsDiffer(x[1], y[1]);
    }
  }

  lemma {:induction false} SegmentsSlashFree(key: string)
    ensures SlashFree(Segments(key))
    decreases |key|
  {
    hide Parts;
    if |Parts(key)| == 2 {
      SegmentsSlashFree(Parts(key)[1]);
    }
  }

  /** A listed key names the path it comes from, up to leading empty segments. */
  lemma {:induction false} JoinNames(p: Path)
    requires SlashFree(p)
    ensures Segments(Join(p)) == Strip(p)
    decreases |p|
  {
    hide Parts, Segments, Strip;
    var s := Last(p);
    InitLast(p);
    if |p| == 1 {
      assert Init(p) == [] && Strip(p) == p by { StripOne(p); }
      SegmentsSlash("", s);
    } else {
      JoinNames(Init(p));
      StripSnoc(Init(p), s);
      SegmentsSlash("", "");
      SegmentsSlash(Join(Init(p)), s);
      if Strip(Init(p)) == [""] {
        SegmentsDiffer(Join(Init(p)), "");
      }
    }
  }

  lemma StripOne(p: Path)
    requires |p| == 1
    ensures Strip(p) == p
  {
  }

  /** Two paths are listed under one key exactly when they differ in leading empty segments only. */
  lemma JoinedIff(p: Path, q: Path)
    requires SlashFree(p) && SlashFree(q)
    ensures Join(p) == Join(q) <==> Strip(p) == Strip(q)
  {
    hide Join, Strip, Segments;
    JoinNames(p);
    JoinNames(q);
    if Strip(p) == Strip(q) {
      SegmentsDiffer(Join(p), Join(q));
    }
  }

  /** The paths that survive being listed and inserted again. */
  predicate Recoverable(p: Path) {
    |p| <= 1 || (p[0] != "" && Last(p) != "")
  }

  ghost predicate AllSlashFree(dom: set<Path>) {
    forall p :: p in dom ==> SlashFree(p)
  }

  ghost predicate AllRecoverable(dom: set<Path>) {
    forall p :: p in dom ==> Recoverable(p)
  }

  /** No two paths differ in leading empty segments only. */
  ghost predicate StripApart(dom: set<Path>) {
    forall p, q :: p in dom && q in dom && p != q ==> Strip(p) != Strip(q)
  }

  lemma StripSame(p: Path)
    requires p != []
    ensures Strip(p) == p <==> |p| == 1 || p[0] != ""
    ensures |Strip(p)| <= |p|
  {
    StripShort(p);
  }

  lemma {:induction false} StripShort(p: Path)
    requires p != []
    ensures |Strip(p)| <= |p| && (|p| > 1 && p[0] == "" ==> |Strip(p)| < |p|)
    decreases |p|
  {
    if |p| > 1 && p[0] == "" {
      StripShort(p[1..]);
    }
  }

  /** Where an insertion puts a listed key: one trailing empty segment is lost. */
  lemma ListedPath(p: Path)
    requires SlashFree(p)
    ensures PathOf(Join(p)) == if |Strip(p)| > 1 && Last(Strip(p)) == "" then Init(Strip(p)) else Strip(p)
  {
    var key, r := Join(p), Strip(p);
    JoinNames(p);
    KeyEnds(key, r);
  }

  /** The slashes at the ends of a key, by its segments. */
  lemma KeyEnds(key: string, r: Path)
    requires r == Segments(key) && (|r| > 1 ==> r[0] != "")
    ensures PathOf(key) == if |r| > 1 && Last(r) == "" then Init(r) else r
  {
    hide Segments, Parts, IndexOf;
    FirstSegment(key);
    if HasSuffix(key, "/") {
      var k := key[..|key| - 1];
      assert key == k + "/" + "";
      SegmentsSlash(k, "");
      assert StringOf(key) == k;
      FirstSegment(k);
    } else {
      assert StringOf(key) == key;
      LastSegment(key);
    }
  }

  lemma FirstSegment(key: string)
    ensures "/" <= key <==> |Segments(key)| > 1 && Segments(key)[0] == ""
  {
  }

  lemma {:induction false} LastSegment(key: string)
    ensures HasSuffix(key, "/") <==> |Segments(key)| > 1 && Last(Segments(key)) == ""
    decreases |key|
  {
    hide Parts;
    var x := Parts(key);
    assert HasSuffix(key, "/") <==> key != [] && key[|key| - 1] == '/';
    if |x| == 2 {
      LastSegment(x[1]);
      assert HasSuffix(x[1], "/") <==> x[1] != [] && x[1][|x[1]| - 1] == '/';
      assert Last(Segments(key)) == Last(Segments(x[1]));
    }
  }

  /** Listing a path and inserting the key again gives the path back exactly in the recoverable cases. */
  lemma RecoveredIff(p: Path)
    requires SlashFree(p)
    ensures PathOf(Join(p)) == p <==> Recoverable(p)
  {
    hide Join, PathOf, Strip;
    ListedPath(p);
    StripSame(p);
  }

  /** Paths that the trie does get: for a plain name, two slashes at one end give an empty segment there. */
  lemma EmptyEnds(s: string)
    requires s != "" && '/' !in s
    ensures PathOf("/" + "/" + s) == ["", s] && PathOf(s + "/" + "/") == [s, ""]
  {
    hide Parts, Segments, IndexOf;
    SegmentsSlash("", s);
    SegmentsSlash(s, "");
    SegmentsSlash("", "");
    assert "" + "/" + s == "/" + s;
    var front, back := "/" + "/" + s, s + "/" + "/";
    assert front[|front| - 1] == s[|s| - 1] && s[|s| - 1] in s;
    assert StringOf(front) == front;
    TrimOne(front, "" + "/" + s);
    assert StringOf(back) == s + "/";
    assert (s + "/")[0] == s[0] && s[0] in s;
    assert TrieKey(back) == s + "/" + "";
  }

  /** A route key has lost one trailing slash before the trie drops another, unless a query string hides it. */
  lemma EmptyEndsOfRoutes(s: string)
    requires s != "" && '/' !in s && '?' !in s
    ensures PathOf(RouteKey("/" + "/" + s)) == ["", ToLower(s)]
    ensures PathOf(RouteKey(s + "/" + "/")) == [ToLower(s)]
    ensures PathOf(RouteKey(s + "/" + "/" + "/")) == [ToLower(s), ""]
    ensures PathOf(RouteKey(s + "/" + "/" + "?")) == [ToLower(s), ""]
  {
    hide PathOf, RouteKey;
    var low := ToLower(s);
    LowerPlain(s);
    EmptyEnds(low);
    assert RouteKey("/" + "/" + s) == "/" + "/" + low by { FrontKey(s); }
    BackKey(s, "/");
    BackKey(s, "/" + "/");
    assert RouteKey(s + "/" + "/" + "?") == low + "/" + "/" by { QueryKey(s); }
    assert s + "/" + "/" + "/" == s + ("/" + "/") + "/";
    assert low + ("/" + "/") == low + "/" + "/";
    assert PathOf(low + "/") == [low] by { OneSlash(low); }
  }

  lemma LowerPlain(s: string)
    ensures '/' in ToLower(s) <==> '/' in s
    ensures '?' in ToLower(s) <==> '?' in s
  {
    var low := ToLower(s);
    forall i | 0 <= i < |s| ensures (low[i] == '/' <==> s[i] == '/') && (low[i] == '?' <==> s[i] == '?') {
    }
  }

  lemma FrontKey(s: string)
    requires s != "" && '/' !in s && '?' !in s
    ensures RouteKey("/" + "/" + s) == "/" + "/" + ToLower(s)
  {
    hide IndexOf;
    var uri := "/" + "/" + s;
    assert uri[|uri| - 1] == s[|s| - 1] && s[|s| - 1] in s;
    assert StringOf(uri) == uri;
    assert ToLower(uri) == "/" + "/" + ToLower(s);
    LowerPlain(uri);
  }

  lemma BackKey(s: string, slashes: string)
    requires '?' !in s && slashes in {"/", "/" + "/"}
    ensures RouteKey(s + slashes + "/") == ToLower(s) + slashes
  {
    hide IndexOf;
    var uri := s + slashes;
    assert StringOf(uri + "/") == uri;
    assert ToLower(uri) == ToLower(s) + slashes;
    LowerPlain(uri);
  }

  lemma QueryKey(s: string)
    requires '?' !in s
    ensures RouteKey(s + "/" + "/" + "?") == ToLower(s) + "/" + "/"
  {
    hide IndexOf;
    var uri, key := s + "/" + "/" + "?", ToLower(s) + "/" + "/";
    assert StringOf(uri) == uri;
    assert ToLower(uri) == key + "?";
    LowerPlain(s);
    assert (key + "?")[..|key|] == key && '?' !in key;
    FirstAt(key + "?", '?', |key|);
  }

  lemma OneSlash(s: string)
    requires s != "" && '/' !in s
    ensures PathOf(s + "/") == [s]
  {
    hide Parts, Segments, IndexOf;
    SegmentsSlash("", s);
    assert StringOf(s + "/") == s;
    assert s[0] in s;
    assert TrieKey(s + "/") == s;
  }

  lemma TrimOne(s: string, rest: string)
    requires s == "/" + rest
    ensures TrimPrefix(s, "/") == rest
  {
  }

  /** Of those, the first is listed like the name itself, and the second under a key that leads to the name. */
  lemma LossyKeys(s: string)
    requires s != "" && '/' !in s
    ensures Join(["", s]) == Join([s]) && PathOf(Join([s, ""])) == [s]
  {
    hide Join, PathOf, Parts, Segments;
    ListedPath([s, ""]);
    assert ["", s][1..] == [s];
    JoinedIff(["", s], [s]);
  }
}
