/** Finite maps as relations: when they are functions, when they alias, and how updates change them. */
module Graphs {

  ghost function Graph<K, V>(m: map<K, V>): set<(K, V)> {
    set k | k in m :: (k, m[k])
  }

  ghost predicate Functional<K(!new), V(!new)>(r: set<(K, V)>) {
    forall a, b, b' :: (a, b) in r && (a, b') in r ==> b == b'
  }

  ghost predicate Injective<K(!new), V(!new)>(r: set<(K, V)>) {
    forall a, a', b :: (a, b) in r && (a', b) in r ==> a == a'
  }

  ghost function Domain<K, V>(r: set<(K, V)>): set<K> {
    set x | x in r :: x.0
  }

  /** `inverse` undoes `m` in both directions. */
  ghost predicate Mirrors<K, V>(m: map<K, V>, inverse: map<V, K>) {
    && (forall k :: k in m ==> m[k] in inverse && inverse[m[k]] == k)
    && (forall v :: v in inverse ==> inverse[v] in m && m[inverse[v]] == v)
  }

  lemma GraphOfUpdate<K, V>(m: map<K, V>, k: K, v: V)
    requires k in m ==> m[k] == v
    ensures Graph(m[k := v]) == Graph(m) + {(k, v)}
    ensures k !in m ==> |m[k := v]| == |m| + 1
  {
    forall x | x in Graph(m) + {(k, v)} ensures x in Graph(m[k := v]) {
      assert x.0 in m[k := v];
    }
  }

  lemma GraphIsFunctional<K(!new), V(!new)>(m: map<K, V>)
    ensures Functional(Graph(m))
    ensures Domain(Graph(m)) == m.Keys
  {
    forall k | k in m ensures k in Domain(Graph(m)) {
      assert (k, m[k]) in Graph(m);
    }
  }

  lemma MirrorOneMore<K(!new), V(!new)>(m: map<K, V>, inverse: map<V, K>, k: K, v: V)
    requires Mirrors(m, inverse) && k !in m && v !in inverse
    ensures Mirrors(m[k := v], inverse[v := k])
    ensures Injective(Graph(m[k := v]))
  {
  }

  /** A pair that meets one half of an earlier pair breaks functionality or injectivity. */
  lemma JoinContradicts<K(!new), V(!new)>(m: map<K, V>, inverse: map<V, K>, k: K, v: V)
    requires Mirrors(m, inverse)
    requires if k in m then m[k] != v else v in inverse
    ensures !(Functional(Graph(m) + {(k, v)}) && Injective(Graph(m) + {(k, v)}))
  {
    var r := Graph(m) + {(k, v)};
    assert (k, v) in r;
    var k' := if k in m then k else inverse[v];
    assert (k', m[k']) in Graph(m);
  }

  ghost predicate NoAliases<K, V>(m: map<K, V>) {
    forall k, k' :: k in m && k' in m && m[k] == m[k'] ==> k == k'
  }

  lemma ValuesWithout<K, V>(m: map<K, V>, k: K)
    requires k in m
    ensures m.Values == (m - {k}).Values + {m[k]}
    ensures |m - {k}| == |m| - 1
  {
    var rest := m - {k};
    forall v | v in m.Values ensures v in rest.Values + {m[k]} {
      var k' :| k' in m && m[k'] == v;
      assert k' != k ==> k' in rest && rest[k'] == v;
    }
    forall v | v in rest.Values ensures v in m.Values {
      var k' :| k' in rest && rest[k'] == v;
      assert k' in m && m[k'] == v;
    }
    assert rest.Keys == m.Keys - {k};
  }

  lemma {:induction false} ValuesAtMostKeys<K, V>(m: map<K, V>)
    ensures |m.Values| <= |m|
    ensures NoAliases(m) ==> |m.Values| == |m|
    decreases |m|
  {
    if k :| k in m {
      ValuesWithout(m, k);
      ValuesAtMostKeys(m - {k});
      assert NoAliases(m) ==> forall k' :: k' in m - {k} ==> m[k'] != m[k];
    } else {
      assert m == map[];
    }
  }

  lemma AliasLosesAValue<K, V>(m: map<K, V>, k: K, k': K)
    requires k in m && k' in m && k != k' && m[k] == m[k']
    ensures |m.Values| < |m|
  {
    ValuesWithout(m, k);
    ValuesAtMostKeys(m - {k});
    assert k' in m - {k} && (m - {k})[k'] == m[k];
    assert m.Values == (m - {k}).Values;
  }

  /** A map has as many values as keys exactly when no two keys share a value. */
  lemma ValuesCountKeys<K(!new), V(!new)>(m: map<K, V>)
    ensures |m.Values| == |m| <==> Injective(Graph(m))
  {
    ValuesAtMostKeys(m);
    if !NoAliases(m) {
      var k, k' :| k in m && k' in m && m[k] == m[k'] && k != k';
      AliasLosesAValue(m, k, k');
      assert (k, m[k]) in Graph(m) && (k', m[k]) in Graph(m);
    }
  }

  lemma GraphDetermines<K(!new), V(!new)>(m: map<K, V>, m': map<K, V>)
    requires Graph(m) == Graph(m')
    ensures m == m'
  {
    forall k | k in m ensures k in m' && m'[k] == m[k] {
      assert (k, m[k]) in Graph(m');
    }
    forall k | k in m' ensures k in m {
      assert (k, m'[k]) in Graph(m);
    }
  }

  lemma InjectiveIffNoAliases<K(!new), V(!new)>(m: map<K, V>)
    ensures Injective(Graph(m)) <==> NoAliases(m)
  {
    if Injective(Graph(m)) {
      forall k, k' | k in m && k' in m && m[k] == m[k'] ensures k == k' {
        assert (k, m[k]) in Graph(m) && (k', m[k']) in Graph(m);
      }
    }
  }
}
