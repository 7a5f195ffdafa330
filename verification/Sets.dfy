/** Cardinality of finite sets. */
module Sets {
  lemma OneMore<T>(before: set<T>, after: set<T>, x: T, added: bool)
    requires x !in before && forall y :: y in after <==> y in before || (added && y == x)
    ensures |after| == |before| + if added then 1 else 0
  {
    assert after == if added then before + {x} else before;
  }

  lemma OneLess<K, V>(m: map<K, V>, k: K)
    requires k in m
    ensures |m - {k}| == |m| - 1
  {
    assert (m - {k}).Keys == m.Keys - {k};
  }

  lemma SubsetSize<T>(a: set<T>, b: set<T>)
    requires a <= b
    ensures |a| <= |b|
  {
    assert b == a + (b - a);
  }
}
