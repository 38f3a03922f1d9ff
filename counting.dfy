/** Cardinalities of finite sets of pairs, used to bound the edge count of an ego network. */
module Counting {

  /** All pairs with the first component in `a` and the second in `b`. */
  ghost function Product<T>(a: set<T>, b: set<T>): set<(T, T)> {
    set x, y | x in a && y in b :: (x, y)
  }

  /** The pairs `(x, x)`. */
  ghost function Diagonal<T>(a: set<T>): set<(T, T)> {
    set x | x in a :: (x, x)
  }

  /** The pairs with the first component `x`. */
  ghost function Row<T>(x: T, b: set<T>): set<(T, T)> {
    set y | y in b :: (x, y)
  }

  lemma {:induction false} RowCard<T>(x: T, b: set<T>)
    ensures |Row(x, b)| == |b|
    decreases b
  {
    if b != {} {
      var y :| y in b;
      RowCard(x, b - {y});
      assert Row(x, b) == Row(x, b - {y}) + {(x, y)};
      assert (x, y) !in Row(x, b - {y});
    } else {
      assert Row(x, b) == {};
    }
  }

  lemma {:induction false} ProductCard<T>(a: set<T>, b: set<T>)
    ensures |Product(a, b)| == |a| * |b|
    decreases a
  {
    if a != {} {
      var x :| x in a;
      ProductCard(a - {x}, b);
      RowCard(x, b);
      assert Product(a, b) == Product(a - {x}, b) + Row(x, b);
      assert Product(a - {x}, b) !! Row(x, b);
    } else {
      assert Product(a, b) == {};
    }
  }

  lemma {:induction false} DiagonalCard<T>(a: set<T>)
    ensures |Diagonal(a)| == |a|
    decreases a
  {
    if a != {} {
      var x :| x in a;
      DiagonalCard(a - {x});
      assert Diagonal(a) == Diagonal(a - {x}) + {(x, x)};
      assert (x, x) !in Diagonal(a - {x});
    } else {
      assert Diagonal(a) == {};
    }
  }

  lemma {:induction false} SubsetCard<T>(s: set<T>, t: set<T>)
    requires s <= t
    ensures |s| <= |t|
    decreases t
  {
    if s != {} {
      var x :| x in s;
      SubsetCard(s - {x}, t - {x});
    }
  }

  /** A set of pairs drawn from `a` has at most |a|^2 elements, and at most |a|^2 - |a|
      when no pair repeats a component. */
  lemma PairsBound<T>(e: set<(T, T)>, a: set<T>)
    requires forall p | p in e :: p.0 in a && p.1 in a
    ensures |e| <= |a| * |a|
    ensures (forall p | p in e :: p.0 != p.1) ==> |e| <= |a| * |a| - |a|
  {
    ProductCard(a, a);
    assert e <= Product(a, a) by {
      forall p | p in e ensures p in Product(a, a) {
        assert (p.0, p.1) == p;
      }
    }
    SubsetCard(e, Product(a, a));
    if forall p | p in e :: p.0 != p.1 {
      DiagonalCard(a);
      var off := Product(a, a) - Diagonal(a);
      assert Diagonal(a) <= Product(a, a);
      assert |off| == |a| * |a| - |a|;
      SubsetCard(e, off);
    }
  }
}
