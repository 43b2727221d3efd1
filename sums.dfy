/**
 * Order-independent sums over the values of a map: the meaning of
 * `values().map(..).sum()` over a HashMap, whose iteration order is
 * unspecified. One version for natural numbers (token counts, memory
 * counts) and one for reals (metadata weights).
 */
module Sums {

  /** Sum of m[k] over the keys k in ks. */
  ghost function SumOver<K>(m: map<K, nat>, ks: set<K>): nat
    requires ks <= m.Keys
    decreases ks
  {
    if ks == {} then 0 else var k :| k in ks; m[k] + SumOver(m, ks - {k})
  }

  /** Sum of all values of m. */
  ghost function Total<K>(m: map<K, nat>): nat {
    SumOver(m, m.Keys)
  }

  /** Any key can be taken out of the sum first, whichever one SumOver picks. */
  lemma {:induction false} SumOverRemove<K>(m: map<K, nat>, ks: set<K>, k: K)
    requires ks <= m.Keys && k in ks
    ensures SumOver(m, ks) == m[k] + SumOver(m, ks - {k})
    decreases ks
  {
    var j :| j in ks && SumOver(m, ks) == m[j] + SumOver(m, ks - {j});
    if j != k {
      SumOverRemove(m, ks - {j}, k);
      SumOverRemove(m, ks - {k}, j);
      assert ks - {j} - {k} == ks - {k} - {j};
    }
  }

  /** The sum over ks depends only on the values at ks. */
  lemma {:induction false} SumOverFrame<K>(m: map<K, nat>, m': map<K, nat>, ks: set<K>)
    requires ks <= m.Keys && ks <= m'.Keys
    requires forall k :: k in ks ==> m[k] == m'[k]
    ensures SumOver(m, ks) == SumOver(m', ks)
    decreases ks
  {
    if ks != {} {
      var k :| k in ks;
      SumOverRemove(m, ks, k);
      SumOverRemove(m', ks, k);
      SumOverFrame(m, m', ks - {k});
    }
  }

  /** Writing v at key k replaces k's old contribution (if any) by v. */
  lemma {:induction false} TotalUpdate<K>(m: map<K, nat>, k: K, v: nat)
    ensures k in m ==> Total(m[k := v]) + m[k] == Total(m) + v
    ensures k !in m ==> Total(m[k := v]) == Total(m) + v
  {
    var m' := m[k := v];
    SumOverRemove(m', m'.Keys, k);
    assert m'.Keys - {k} == m.Keys - {k};
    SumOverFrame(m, m', m.Keys - {k});
    if k in m {
      SumOverRemove(m, m.Keys, k);
    } else {
      assert m.Keys - {k} == m.Keys;
    }
  }

  /** Sum of m[k] over the keys k in ks, for real values. */
  ghost function RealSumOver<K>(m: map<K, real>, ks: set<K>): real
    requires ks <= m.Keys
    decreases ks
  {
    if ks == {} then 0.0 else var k :| k in ks; m[k] + RealSumOver(m, ks - {k})
  }

  lemma {:induction false} RealSumOverRemove<K>(m: map<K, real>, ks: set<K>, k: K)
    requires ks <= m.Keys && k in ks
    ensures RealSumOver(m, ks) == m[k] + RealSumOver(m, ks - {k})
    decreases ks
  {
    var j :| j in ks && RealSumOver(m, ks) == m[j] + RealSumOver(m, ks - {j});
    if j != k {
      RealSumOverRemove(m, ks - {j}, k);
      RealSumOverRemove(m, ks - {k}, j);
      assert ks - {j} - {k} == ks - {k} - {j};
    }
  }
}
