/** Sums of a weight over the values of a finite map, and over sequences. */
module MapSums {
  /** The total weight of the values of `m`. */
  ghost function Sum<K, V>(m: map<K, V>, w: V -> nat): nat
    decreases |m|
  {
    if m == map[] then 0
    else
      var k :| k in m;
      w(m[k]) + Sum(m - {k}, w)
  }

  /** The total weight of the elements of `s`. */
  ghost function SeqSum<V>(s: seq<V>, w: V -> nat): nat {
    if s == [] then 0 else SeqSum(s[..|s| - 1], w) + w(s[|s| - 1])
  }

  /** Any key may be split off, not only the one the definition picks. */
  lemma {:induction false} SumRemove<K, V>(m: map<K, V>, k: K, w: V -> nat)
    requires k in m
    ensures Sum(m, w) == w(m[k]) + Sum(m - {k}, w)
    decreases |m|
  {
    var p :| p in m && Sum(m, w) == w(m[p]) + Sum(m - {p}, w);
    if p != k {
      SumRemove(m - {p}, k, w);
      SumRemove(m - {k}, p, w);
      assert m - {p} - {k} == m - {k} - {p};
    }
  }

  /** Maps with the same keys and the same weight at each key have the same total. */
  lemma {:induction false} SumAgrees<K, V, W>(m: map<K, V>, n: map<K, W>, w: V -> nat, u: W -> nat)
    requires m.Keys == n.Keys && forall k :: k in m ==> w(m[k]) == u(n[k])
    ensures Sum(m, w) == Sum(n, u)
    decreases |m|
  {
    if m == map[] {
      assert n == map[];
    } else {
      var k :| k in m;
      SumRemove(m, k, w);
      SumRemove(n, k, u);
      SumAgrees(m - {k}, n - {k}, w, u);
    }
  }

  /** Storing `v` under `k` replaces the weight of what was there. */
  lemma SumPut<K, V>(m: map<K, V>, k: K, v: V, w: V -> nat)
    ensures Sum(m[k := v], w) == Sum(m - {k}, w) + w(v)
    ensures k !in m ==> Sum(m[k := v], w) == Sum(m, w) + w(v)
    ensures k in m ==> Sum(m[k := v], w) + w(m[k]) == Sum(m, w) + w(v)
  {
    SumRemove(m[k := v], k, w);
    assert m[k := v] - {k} == m - {k};
    if k in m {
      SumRemove(m, k, w);
    } else {
      assert m - {k} == m;
    }
  }

  /** The keys of `m`, each exactly once. */
  ghost predicate Enumerates<K(!new), V>(keys: seq<K>, m: map<K, V>) {
    && (forall i, j :: 0 <= i < j < |keys| ==> keys[i] != keys[j])
    && (forall k :: k in keys <==> k in m)
  }

  /** The values of `m` in the order of `keys`. */
  function ValuesOf<K, V>(keys: seq<K>, m: map<K, V>): (r: seq<V>)
    requires forall k :: k in keys ==> k in m
    ensures |r| == |keys|
    ensures forall i :: 0 <= i < |r| ==> r[i] == m[keys[i]]
  {
    seq(|keys|, i requires 0 <= i < |keys| => m[keys[i]])
  }

  /** Summing along any enumeration of the keys gives the sum over the map. */
  lemma {:induction false} SumEnumeration<K(!new), V>(keys: seq<K>, m: map<K, V>, w: V -> nat)
    requires Enumerates(keys, m)
    ensures SeqSum(ValuesOf(keys, m), w) == Sum(m, w)
    ensures |keys| == |m|
    decreases |keys|
  {
    if keys == [] {
      assert forall k :: k !in m;
      assert m == map[];
      assert ValuesOf(keys, m) == [];
    } else {
      var n := |keys| - 1;
      var last := keys[n];
      var m' := m - {last};
      RestEnumerates(keys, m);
      SumEnumeration(keys[..n], m', w);
      RestValues(keys, m);
      SumRemove(m, last, w);
    }
  }

  lemma RestValues<K(!new), V>(keys: seq<K>, m: map<K, V>)
    requires Enumerates(keys, m) && keys != []
    requires Enumerates(keys[..|keys| - 1], m - {keys[|keys| - 1]})
    ensures ValuesOf(keys, m) == ValuesOf(keys[..|keys| - 1], m - {keys[|keys| - 1]}) + [m[keys[|keys| - 1]]]
  {
    var n := |keys| - 1;
    forall i | 0 <= i < n ensures keys[i] in m - {keys[n]} && keys[i] != keys[n] {
      assert keys[..n][i] in keys[..n];
    }
  }

  lemma RestEnumerates<K(!new), V>(keys: seq<K>, m: map<K, V>)
    requires Enumerates(keys, m) && keys != []
    ensures var n := |keys| - 1; keys[n] in m && Enumerates(keys[..n], m - {keys[n]})
  {
    var n := |keys| - 1;
    var rest := keys[..n];
    assert keys[n] in keys;
    forall k | k in rest ensures k in m - {keys[n]} {
      var i :| 0 <= i < n && rest[i] == k;
      assert keys[i] == k && k in keys;
    }
    forall k | k in m - {keys[n]} ensures k in rest {
      assert k in keys;
      var i :| 0 <= i < |keys| && keys[i] == k;
      assert rest[i] == k;
    }
  }

  /** A map that picks a fitting value for every key. */
  lemma Choice<K(!new), V(!new)>(keys: set<K>, fits: (K, V) -> bool) returns (m: map<K, V>)
    requires forall k :: k in keys ==> exists v :: fits(k, v)
    ensures m.Keys == keys && forall k :: k in m ==> fits(k, m[k])
  {
    m := map k | k in keys :: var v :| fits(k, v); v;
  }
}
