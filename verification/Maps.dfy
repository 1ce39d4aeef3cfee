/** Sums over the values of a finite map. */
module Maps {

  /** The sum of all values; the order in which keys are picked does not matter (see SumWithout). */
  ghost function SumValues<K>(m: map<K, nat>): nat
  {
    if m == map[] then 0 else
    var k :| k in m;
    m[k] + SumValues(m - {k})
  }

  /** Any key may be taken out first. */
  lemma {:induction false} SumWithout<K>(m: map<K, nat>, k: K)
    requires k in m
    ensures SumValues(m) == m[k] + SumValues(m - {k})
    decreases |m|
  {
    var j :| j in m && SumValues(m) == m[j] + SumValues(m - {j});
    if j != k {
      SumWithout(m - {j}, k);
      SumWithout(m - {k}, j);
      assert m - {j} - {k} == m - {k} - {j};
    }
  }

  /** Writing one value moves the sum by the change of that value. */
  lemma SumUpdate<K>(m: map<K, nat>, k: K, v: nat)
    ensures SumValues(m[k := v]) == SumValues(m) - (if k in m then m[k] else 0) + v
  {
    SumWithout(m[k := v], k);
    if k in m {
      SumWithout(m, k);
      assert m[k := v] - {k} == m - {k};
    } else {
      assert m[k := v] - {k} == m;
    }
  }

  /** No value exceeds the sum. */
  lemma ValueAtMostSum<K>(m: map<K, nat>, k: K)
    requires k in m
    ensures m[k] <= SumValues(m)
  {
    SumWithout(m, k);
  }
}
