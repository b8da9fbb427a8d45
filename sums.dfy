/** Sums of the values of a finite map, used for the weight totals of the
    frequency table and of the forest. */
module WeightSums {

  /** Some key of a non-empty map. */
  ghost function Pick<K, V>(m: map<K, V>): (k: K)
    requires |m| > 0
    ensures k in m
  {
    assert m.Keys != {};
    var k :| k in m; k
  }

  /** The sum of all values of `m` (in any order: addition is commutative). */
  ghost function MapSum<K>(m: map<K, int>): (total: int)
    decreases |m|
  {
    if |m| == 0 then 0
    else
      var k := Pick(m);
      assert (m - {k}).Keys == m.Keys - {k};
      m[k] + MapSum(m - {k})
  }

  /** Removing any one key takes exactly its value out of the sum. */
  lemma {:induction false} MapSumRemove<K>(m: map<K, int>, k: K)
    requires k in m
    ensures MapSum(m) == m[k] + MapSum(m - {k})
    decreases |m|
  {
    var j := Pick(m);
    if j != k {
      assert (m - {j}).Keys == m.Keys - {j};
      assert (m - {k}).Keys == m.Keys - {k};
      MapSumRemove(m - {j}, k);
      MapSumRemove(m - {k}, j);
      assert m - {j} - {k} == m - {k} - {j};
    }
  }

  /** Setting a key to `v` replaces its old value (or nothing) by `v` in the sum. */
  lemma MapSumUpdate<K>(m: map<K, int>, k: K, v: int)
    ensures MapSum(m[k := v]) == MapSum(m) + v - (if k in m then m[k] else 0)
  {
    if k in m {
      assert m[k := v] - {k} == m - {k};
      MapSumRemove(m[k := v], k);
      MapSumRemove(m, k);
    } else {
      assert m[k := v] - {k} == m;
      MapSumRemove(m[k := v], k);
    }
  }

  /** Replacing two keys by a new one replaces their values by its value in
      the sum. */
  lemma MapSumReplacePair<K>(m: map<K, int>, a: K, b: K, p: K, v: int)
    requires a in m && b in m && a != b
    requires p !in m - {a} - {b}
    ensures MapSum((m - {a} - {b})[p := v]) == MapSum(m) - m[a] - m[b] + v
  {
    var ma := m - {a};
    assert b in ma && ma[b] == m[b];
    MapSumRemove(m, a);
    MapSumRemove(ma, b);
    MapSumUpdate(ma - {b}, p, v);
  }

  /** With non-negative values, the sum is non-negative and bounds every value. */
  lemma {:induction false} MapSumBounds<K>(m: map<K, int>)
    requires forall k :: k in m ==> m[k] >= 0
    ensures MapSum(m) >= 0
    ensures forall k :: k in m ==> m[k] <= MapSum(m)
    decreases |m|
  {
    if |m| > 0 {
      var j :| j in m;
      assert (m - {j}).Keys == m.Keys - {j};
      MapSumRemove(m, j);
      MapSumBounds(m - {j});
      forall k | k in m ensures m[k] <= MapSum(m) {
        if k != j {
          assert k in m - {j};
        }
      }
    }
  }
}
