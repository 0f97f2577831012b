/** The sum of the values of a finite map, independent of any iteration order. */
module MapSums {

  ghost function MapSum<K(!new)>(m: map<K, int>): int
    decreases |m|
  {
    if m == map[] then 0
    else
      var k :| k in m;
      m[k] + MapSum(m - {k})
  }

  /** Any key may be taken out first. */
  lemma {:induction false} MapSumTake<K(!new)>(m: map<K, int>, k: K)
    requires k in m
    ensures MapSum(m) == m[k] + MapSum(m - {k})
    decreases |m|
  {
    var j :| j in m && MapSum(m) == m[j] + MapSum(m - {j});
    if j != k {
      MapSumTake(m - {j}, k);
      MapSumTake(m - {k}, j);
      assert m - {j} - {k} == m - {k} - {j};
    }
  }

  /** Setting one key changes the sum by the difference at that key. */
  lemma {:induction false} MapSumSet<K(!new)>(m: map<K, int>, k: K, v: int)
    ensures MapSum(m[k := v]) == MapSum(m) + v - (if k in m then m[k] else 0)
  {
    var m' := m[k := v];
    MapSumTake(m', k);
    if k in m {
      MapSumTake(m, k);
      assert m' - {k} == m - {k};
    } else {
      assert m' - {k} == m;
    }
  }

  lemma {:induction false} MapSumDrop<K(!new)>(m: map<K, int>, k: K)
    ensures MapSum(m - {k}) == MapSum(m) - (if k in m then m[k] else 0)
  {
    if k in m {
      MapSumTake(m, k);
    } else {
      assert m - {k} == m;
    }
  }

  /** Lowering values lowers the sum, and leaves it exactly when it lowers none. */
  lemma {:induction false} MapSumBelow<K(!new)>(low: map<K, int>, m: map<K, int>)
    requires low.Keys == m.Keys && forall k | k in m :: low[k] <= m[k]
    ensures MapSum(low) <= MapSum(m)
    ensures MapSum(low) == MapSum(m) <==> forall k | k in m :: low[k] == m[k]
    decreases |m|
  {
    if m != map[] {
      var k :| k in m;
      MapSumTake(m, k);
      MapSumTake(low, k);
      MapSumBelow(low - {k}, m - {k});
      assert forall j | j in m && j != k :: j in m - {k} && (low - {k})[j] == low[j];
    } else {
      assert low == map[];
    }
  }
}
