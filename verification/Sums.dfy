/** Totals over maps and lists of balances, independent of the order of iteration. */
module Sums {
  ghost function Sum<K>(m: map<K, int>): int
    decreases |m|
  {
    if m == map[] then 0
    else
      var k :| k in m;
      m[k] + Sum(m - {k})
  }

  /** Any key may be taken out first: the total does not depend on the order of iteration. */
  lemma {:induction false} SumRemove<K>(m: map<K, int>, k: K)
    requires k in m
    ensures Sum(m) == m[k] + Sum(m - {k})
    decreases |m|
  {
    var j :| j in m && Sum(m) == m[j] + Sum(m - {j});
    if j != k {
      SumRemove(m - {j}, k);
      SumRemove(m - {k}, j);
      assert m - {j} - {k} == m - {k} - {j};
    }
  }

  lemma SumUpdate<K>(m: map<K, int>, k: K, v: int)
    ensures Sum(m[k := v]) == Sum(m) + v - (if k in m then m[k] else 0)
  {
    SumRemove(m[k := v], k);
    if k in m {
      SumRemove(m, k);
      assert m[k := v] - {k} == m - {k};
    } else {
      assert m[k := v] - {k} == m;
    }
  }

  lemma {:induction false} SumBoundsEntries<K>(m: map<K, int>)
    requires forall k :: k in m ==> 0 <= m[k]
    ensures 0 <= Sum(m)
    ensures forall k :: k in m ==> m[k] <= Sum(m)
    decreases |m|
  {
    if m == map[] {
    } else {
      forall k | k in m ensures m[k] <= Sum(m) && 0 <= Sum(m) {
        SumRemove(m, k);
        SumBoundsEntries(m - {k});
      }
      var j :| j in m;
      assert m[j] <= Sum(m) && 0 <= Sum(m);
    }
  }

  lemma {:induction false} SumBounded<K>(m: map<K, int>, cap: nat)
    requires forall k :: k in m ==> m[k] <= cap
    ensures Sum(m) <= |m| * cap
    decreases |m|
  {
    if m == map[] {
    } else {
      var j :| j in m;
      SumRemove(m, j);
      SumBounded(m - {j}, cap);
      assert |m.Keys| == |(m - {j}).Keys| + 1 by { assert m.Keys == (m - {j}).Keys + {j}; }
      assert |m| * cap == |m - {j}| * cap + cap by { assert |m| == |m - {j}| + 1; Distribute(|m - {j}|, cap); }
    }
  }

  lemma Distribute(n: nat, cap: nat)
    ensures (n + 1) * cap == n * cap + cap
  {}

  /** Two keys change: the total moves by exactly their two differences. */
  lemma SumUpdateTwo<K>(m: map<K, int>, a: K, b: K, va: int, vb: int)
    requires a in m && b in m && a != b
    ensures Sum(m[a := va][b := vb]) == Sum(m) + va - m[a] + vb - m[b]
  {
    SumUpdate(m, a, va);
    SumUpdate(m[a := va], b, vb);
  }
}
