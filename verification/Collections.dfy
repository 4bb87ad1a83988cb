/** Sizes of finite maps and sets, and sequences without repetition. */
module Collections {

  function Min(a: nat, b: nat): nat {
    if a < b then a else b
  }

  lemma AppendAssoc<T>(a: seq<T>, b: seq<T>, c: seq<T>)
    ensures a + (b + c) == (a + b) + c
  {
  }

  lemma MapUpdateSize<K, V>(m: map<K, V>, k: K, v: V)
    ensures |m[k := v]| == if k in m then |m| else |m| + 1
  {
    if k in m {
      assert m[k := v].Keys == m.Keys;
      assert |m[k := v].Keys| == |m[k := v]| && |m.Keys| == |m|;
    }
  }

  lemma MapRemoveSize<K, V>(m: map<K, V>, k: K)
    requires k in m
    ensures |m - {k}| == |m| - 1
  {
    assert m == (m - {k})[k := m[k]];
  }

  lemma SameMaps<K, V>(m: map<K, V>, m': map<K, V>)
    requires m'.Keys == m.Keys
    requires forall u | u in m :: m'[u] == m[u]
    ensures m' == m
  {
  }

  /** Two maps that agree off `k`, where the second has `v` or nothing. */
  lemma ChangedAt<K, V>(m: map<K, V>, m': map<K, V>, k: K, v: V)
    requires forall u | u != k :: (u in m' <==> u in m) && (u in m ==> m'[u] == m[u])
    requires k in m' ==> m'[k] == v
    ensures m' == if k in m' then m[k := v] else m - {k}
  {
  }

  lemma SubsetSize<T>(a: set<T>, b: set<T>)
    requires a <= b
    ensures |a| <= |b|
  {
    assert b == a + (b - a);
  }

  /** No element occurs twice. */
  predicate Distinct<T(==)>(s: seq<T>) {
    forall j, k | 0 <= j < k < |s| :: s[j] != s[k]
  }

  lemma DistinctAppend<T>(a: seq<T>, b: seq<T>)
    requires Distinct(a) && Distinct(b)
    requires forall x | x in a :: x !in b
    ensures Distinct(a + b)
  {
    forall j, k | 0 <= j < k < |a + b| ensures (a + b)[j] != (a + b)[k] {
      if j < |a| <= k {
        assert a[j] in a && (a + b)[k] == b[k - |a|] && b[k - |a|] in b;
      }
    }
  }
}
