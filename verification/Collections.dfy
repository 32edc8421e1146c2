/** Facts about finite sets and maps. */
module Collections {

  lemma ValuesInserted<K, V>(m: map<K, V>, key: K, v: V)
    requires key !in m
    ensures m[key := v].Values == m.Values + {v}
  {
    var r := m[key := v];
    forall x | x in m.Values + {v} ensures x in r.Values {
      if x in m.Values {
        var a :| a in m && m[a] == x;
        assert a in r && r[a] == x;
      } else {
        assert r[key] == x;
      }
    }
  }

  lemma ValuesRemoved<K, V>(m: map<K, V>, key: K)
    requires key in m && forall a :: a in m && a != key ==> m[a] != m[key]
    ensures (m - {key}).Values == m.Values - {m[key]}
  {
    var r := m - {key};
    forall x | x in m.Values - {m[key]} ensures x in r.Values {
      var a :| a in m && m[a] == x;
      assert a in r && r[a] == x;
    }
  }

  lemma {:induction false} ValuesSize<K, V>(m: map<K, V>)
    requires forall a, b :: a in m && b in m && a != b ==> m[a] != m[b]
    ensures |m.Values| == |m|
    decreases |m|
  {
    if m.Keys == {} {
      assert m.Values == {};
    } else {
      var key :| key in m.Keys;
      ValuesRemoved(m, key);
      assert (m - {key}).Keys == m.Keys - {key};
      ValuesSize(m - {key});
    }
  }

  lemma {:induction false} SubsetSize<T>(a: set<T>, b: set<T>)
    requires a <= b
    ensures |a| <= |b|
  {
    if x :| x in a {
      SubsetSize(a - {x}, b - {x});
    }
  }

  lemma SmallSet<T>(s: set<T>, x: T, y: T)
    requires |s| < 2 && x in s && y in s
    ensures x == y
  {
    assert |s - {x}| == 0;
    assert y !in s - {x};
  }
}
