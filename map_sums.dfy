/**
 * Adding up a multiset over the entries of a map, independently of the order
 * in which the entries are visited: the way the relation cache's contents
 * are counted although a hash map's iteration order is unspecified.
 */
module MapSums {

  lemma NonEmptyHasKey<K, V>(m: map<K, V>)
    requires m != map[]
    ensures exists k :: k in m
  {
    assert (forall k :: k !in m.Keys) ==> m.Keys == {};
  }

  ghost function PickKey<K, V>(m: map<K, V>): (k: K)
    requires m != map[]
    ensures k in m
  {
    NonEmptyHasKey(m);
    var k :| k in m; k
  }

  /** The sum of `f` over the entries of `m`. */
  ghost function Sum<K, V, T>(m: map<K, V>, f: (K, V) -> multiset<T>): multiset<T>
    decreases |m|
  {
    if m == map[] then multiset{}
    else
      var k := PickKey(m);
      assert |m - {k}| < |m| by {
        assert (m - {k}).Keys == m.Keys - {k};
      }
      f(k, m[k]) + Sum(m - {k}, f)
  }

  /** Any entry can be taken out first. */
  lemma {:induction false} SumPick<K, V, T>(m: map<K, V>, f: (K, V) -> multiset<T>, k: K)
    requires k in m
    ensures Sum(m, f) == f(k, m[k]) + Sum(m - {k}, f)
    decreases |m|
  {
    var j := PickKey(m);
    if j != k {
      assert |m - {j}| < |m| by {
        assert (m - {j}).Keys == m.Keys - {j};
      }
      assert |m - {k}| < |m| by {
        assert (m - {k}).Keys == m.Keys - {k};
      }
      SumPick(m - {j}, f, k);
      SumPick(m - {k}, f, j);
      assert m - {j} - {k} == m - {k} - {j};
    }
  }

  /** Replacing or adding the entry at `k`. */
  lemma SumUpdate<K, V, T>(m: map<K, V>, f: (K, V) -> multiset<T>, k: K, v: V)
    ensures Sum(m[k := v], f) == f(k, v) + Sum(m - {k}, f)
  {
    SumPick(m[k := v], f, k);
    assert m[k := v] - {k} == m - {k};
  }

  /** An element of the sum comes from some entry. */
  lemma {:induction false} SumMember<K, V, T>(m: map<K, V>, f: (K, V) -> multiset<T>, x: T)
    requires x in Sum(m, f)
    ensures exists k :: k in m && x in f(k, m[k])
    decreases |m|
  {
    var k := PickKey(m);
    assert |m - {k}| < |m| by {
      assert (m - {k}).Keys == m.Keys - {k};
    }
    if x !in f(k, m[k]) {
      SumMember(m - {k}, f, x);
    }
  }

  /** Moving `x` to the other side of an equation between sums of multisets. */
  lemma MultisetShift<T>(a: multiset<T>, b: multiset<T>, c: multiset<T>, d: multiset<T>, x: multiset<T>)
    requires a + b == c + d
    ensures (a + x) + b == c + (d + x)
  {
    forall y ensures ((a + x) + b)[y] == (c + (d + x))[y] {
      assert (a + b)[y] == (c + d)[y];
    }
  }

  lemma AppendAssoc<T>(a: seq<T>, b: seq<T>, c: seq<T>)
    ensures (a + b) + c == a + (b + c)
  {
  }
}
