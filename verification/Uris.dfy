/** Routing keys: normalisation, "/"-separated segments and the wildcard-host chain. */
module Uris {
  import opened Text
  import opened Options

  type Path = seq<string>

  /** `Uri.String`: one trailing slash is dropped. */
  function StringOf(uri: string): string {
    TrimSuffix(uri, "/")
  }

  /** `Uri.RouteKey`: one trailing slash is dropped, letters are lowered, the query string is cut off. */
  function RouteKey(uri: string): string {
    var key := ToLower(StringOf(uri));
    var i := IndexOf(key, '?');
    if i >= 0 then key[..i] else key
  }

  /** `Uri.NextWildcard`; None stands for the error return. */
  function NextWildcard(uri: string): (r: Option<string>)
    ensures r.Some? <==> '.' in WildcardText(uri)
    ensures r.Some? ==> Drops(WildcardText(uri), r.value) && |WildcardText(r.value)| < |WildcardText(uri)|
  {
    var text := WildcardText(uri);
    var i := IndexOf(text, '.');
    if i == -1 then None
    else
      var next := "*." + text[i + 1..];
      WildcardTextOfStar(text[i + 1..]);
      StarDrops(text, i);
      Some(next)
  }

  /** `next` is "*." and what follows the first dot of `text`, which is at `i`. */
  ghost predicate DropsAt(text: string, next: string, i: nat) {
    "*." <= next && i < |text| && '.' !in text[..i] && text == text[..i] + "." + next[2..]
  }

  ghost predicate Drops(text: string, next: string) {
    exists i: nat :: DropsAt(text, next, i)
  }

  /** The part of a key that `NextWildcard` searches for a dot. */
  function WildcardText(uri: string): string {
    TrimPrefix(StringOf(uri), "*.")
  }

  lemma WildcardTextOfStar(suffix: string)
    ensures WildcardText("*." + suffix) == StringOf(suffix)
  {
    var u := "*." + suffix;
    if HasSuffix(suffix, "/") {
      assert u == ("*." + StringOf(suffix)) + "/";
      assert HasSuffix(u, "/");
      assert StringOf(u) == "*." + StringOf(suffix);
    } else {
      assert u[|u| - 1..] == if suffix == [] then "." else suffix[|suffix| - 1..];
      assert !HasSuffix(u, "/");
    }
    assert "*." <= StringOf(u);
  }

  lemma StarDrops(text: string, i: nat)
    requires i < |text| && text[i] == '.' && '.' !in text[..i]
    ensures Drops(text, "*." + text[i + 1..])
  {
    var next := "*." + text[i + 1..];
    assert next[2..] == text[i + 1..];
    assert DropsAt(text, next, i);
  }

  /** `strings.SplitN(key, "/", 2)`. */
  function Parts(key: string): (r: seq<string>)
    ensures |r| == 1 || |r| == 2
    ensures |r| == 1 ==> r[0] == key && '/' !in key
    ensures |r| == 2 ==> key == r[0] + "/" + r[1] && '/' !in r[0]
  {
    var i := IndexOf(key, '/');
    if i == -1 then [key] else [key[..i], key[i + 1..]]
  }

  /** All segments of a key, as successive calls of `Parts` deliver them. */
  function Segments(key: string): (r: Path)
    ensures |r| >= 1
    decreases |key|
  {
    var ps := Parts(key);
    if |ps| == 1 then [ps[0]] else [ps[0]] + Segments(ps[1])
  }

  /** The text a trie operation walks along: no trailing and no leading slash. */
  function TrieKey(uri: string): string {
    TrimPrefix(StringOf(uri), "/")
  }

  function PathOf(uri: string): (r: Path)
    ensures |r| >= 1
  {
    Segments(TrieKey(uri))
  }

  // ---------- What normalisation keeps and forgets ----------

  /** A route key is the lowered text up to the first question mark. */
  lemma RouteKeyCut(uri: string)
    ensures var key, text := RouteKey(uri), ToLower(StringOf(uri));
            && '?' !in key && key <= text
            && (key == text || text[|key|] == '?')
  {
  }

  lemma LoweredSlash(uri: string)
    ensures ToLower(StringOf(uri)) == StringOf(ToLower(uri))
  {
    var low := ToLower(uri);
    if uri != [] {
      assert uri[|uri| - 1..] == [uri[|uri| - 1]] && low[|low| - 1..] == [low[|low| - 1]];
    }
  }

  /** Letter case plays no part in routing. */
  lemma CaseIgnored(a: string, b: string)
    requires ToLower(a) == ToLower(b)
    ensures RouteKey(a) == RouteKey(b) && PathOf(RouteKey(a)) == PathOf(RouteKey(b))
  {
    LoweredSlash(a);
    LoweredSlash(b);
  }

  /** Neither does a query string. */
  lemma QueryIgnored(uri: string, query: string)
    requires '?' !in uri
    ensures RouteKey(uri + "?" + query) == ToLower(uri)
  {
    var whole := uri + "?" + query;
    var text := StringOf(whole);
    assert |uri| < |text| && text[..|uri|] == uri && text[|uri|] == '?' by {
      assert whole[|uri|] == '?' && whole[..|uri|] == uri;
      if HasSuffix(whole, "/") {
        assert whole[|whole| - 1..] == "/";
        assert text == whole[..|whole| - 1];
      }
    }
    var key := ToLower(text);
    assert '?' !in ToLower(uri) by {
      forall i | 0 <= i < |uri| ensures ToLower(uri)[i] != '?' {
        assert uri[i] in uri;
      }
    }
    assert key[..|uri|] == ToLower(uri);
    FirstAt(key, '?', |uri|);
  }

  /** "*." and, for each dot of a text in turn, what follows it; one trailing slash goes at every turn. */
  function Stars(text: string): seq<string>
    decreases |text|
  {
    if text == [] then []
    else if text[0] == '.' then ["*." + text[1..]] + Stars(StringOf(text[1..]))
    else Stars(text[1..])
  }

  lemma {:induction false} StarsSkip(text: string, i: nat)
    requires i <= |text| && '.' !in text[..i]
    ensures Stars(text) == Stars(text[i..])
    decreases i
  {
    if i == 0 {
      assert text[0..] == text;
    } else {
      assert text[0] == text[..i][0];
      assert text[..i] == [text[0]] + text[1..][..i - 1];
      StarsSkip(text[1..], i - 1);
      assert text[1..][i - 1..] == text[i..];
    }
  }

  /** The next wildcard is the first of the starred suffixes, and the others are the ones after it. */
  lemma NextIsStar(uri: string)
    ensures var next, stars := NextWildcard(uri), Stars(WildcardText(uri));
            if next.Some? then stars == [next.value] + Stars(WildcardText(next.value)) else stars == []
  {
    var text, next := WildcardText(uri), NextWildcard(uri);
    hide NextWildcard, WildcardText;
    if next.Some? {
      var i: nat :| DropsAt(text, next.value, i);
      var rest := next.value[2..];
      assert text[i] == '.' && text[i..][0] == '.' && text[i..][1..] == rest && next.value == "*." + rest;
      StarsSkip(text, i);
      WildcardTextOfStar(rest);
      assert Stars(text[i..]) == ["*." + rest] + Stars(StringOf(rest));
    } else {
      assert text[..|text|] == text;
      StarsSkip(text, |text|);
    }
  }
}
