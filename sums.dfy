/** Sums of map values over a set of keys: the `sum(...)` of the metrics, stated over an
    unordered key set. */
module Sums {

  ghost function SumMap<K>(m: map<K, int>, s: set<K>): int
    requires s <= m.Keys
    decreases s
  {
    if s == {} then 0 else var k :| k in s; m[k] + SumMap(m, s - {k})
  }

  /** Any key may be taken out first. */
  lemma {:induction false} SumMapRemove<K>(m: map<K, int>, s: set<K>, x: K)
    requires s <= m.Keys && x in s
    ensures SumMap(m, s) == m[x] + SumMap(m, s - {x})
    decreases s
  {
    var k :| k in s && SumMap(m, s) == m[k] + SumMap(m, s - {k});
    if k != x {
      SumMapRemove(m, s - {k}, x);
      SumMapRemove(m, s - {x}, k);
      assert s - {k} - {x} == s - {x} - {k};
    }
  }

  lemma {:induction false} SumMapAdd<K>(m: map<K, int>, s: set<K>, x: K)
    requires s <= m.Keys && x in m && x !in s
    ensures SumMap(m, s + {x}) == SumMap(m, s) + m[x]
  {
    SumMapRemove(m, s + {x}, x);
    assert s + {x} - {x} == s;
  }

  /** Maps that agree on `s` have the same sum over `s`. */
  lemma {:induction false} SumMapAgree<K>(m1: map<K, int>, m2: map<K, int>, s: set<K>)
    requires s <= m1.Keys && s <= m2.Keys
    requires forall k | k in s :: m1[k] == m2[k]
    ensures SumMap(m1, s) == SumMap(m2, s)
    decreases s
  {
    if s != {} {
      var x :| x in s;
      SumMapRemove(m1, s, x);
      SumMapRemove(m2, s, x);
      SumMapAgree(m1, m2, s - {x});
    }
  }

  /** Changing one value changes the sum by the difference. */
  lemma SumMapUpdate<K>(m: map<K, int>, s: set<K>, k: K, v: int)
    requires s <= m.Keys && k in s
    ensures SumMap(m[k := v], s) == SumMap(m, s) - m[k] + v
  {
    SumMapRemove(m, s, k);
    SumMapRemove(m[k := v], s, k);
    SumMapAgree(m, m[k := v], s - {k});
  }

  lemma {:induction false} SumMapNonneg<K>(m: map<K, int>, s: set<K>)
    requires s <= m.Keys && forall k | k in s :: m[k] >= 0
    ensures SumMap(m, s) >= 0
    decreases s
  {
    if s != {} {
      var x :| x in s;
      SumMapRemove(m, s, x);
      SumMapNonneg(m, s - {x});
    }
  }

  lemma {:induction false} SumMapZero<K>(m: map<K, int>, s: set<K>)
    requires s <= m.Keys && forall k | k in s :: m[k] == 0
    ensures SumMap(m, s) == 0
    decreases s
  {
    if s != {} {
      var x :| x in s;
      SumMapRemove(m, s, x);
      SumMapZero(m, s - {x});
    }
  }

  /** The sum over a disjoint union is the sum of the sums. */
  lemma {:induction false} SumMapUnion<K>(m: map<K, int>, a: set<K>, b: set<K>)
    requires a <= m.Keys && b <= m.Keys && a !! b
    ensures SumMap(m, a + b) == SumMap(m, a) + SumMap(m, b)
    decreases b
  {
    if b != {} {
      var x :| x in b;
      SumMapUnion(m, a, b - {x});
      assert a + b == (a + (b - {x})) + {x};
      SumMapAdd(m, a + (b - {x}), x);
      SumMapRemove(m, b, x);
    } else {
      assert a + b == a;
    }
  }

  /** Visiting `x`: the visited part of `all` grows by `x`. */
  lemma MoveToDone<K>(all: set<K>, remaining: set<K>, x: K)
    requires remaining <= all && x in remaining
    ensures all - (remaining - {x}) == (all - remaining) + {x}
  {
  }
}
