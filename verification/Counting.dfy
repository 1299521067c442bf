/** Cardinality facts used by the counting arguments. */
module Counting {
  /** An injective map on a finite set keeps its size. */
  lemma {:induction false} ImageSize<T(!new)>(s: set<nat>, f: nat -> T)
    requires forall i, j | i in s && j in s && i != j :: f(i) != f(j)
    ensures |set i | i in s :: f(i)| == |s|
  {
    if s != {} {
      var x :| x in s;
      ImageSize(s - {x}, f);
      assert (set i | i in s :: f(i)) == (set i | i in s - {x} :: f(i)) + {f(x)};
    }
  }

  lemma SubsetSize<T>(a: set<T>, b: set<T>)
    requires a <= b
    ensures |a| <= |b|
  {
    assert b == a + (b - a);
  }

  lemma SameSize<T>(a: set<T>, b: set<T>)
    requires a <= b && |a| == |b|
    ensures a == b
  {
    assert b == a + (b - a);
  }

  /** The first n naturals. */
  function Below(n: nat): (s: set<nat>)
    ensures |s| == n && forall i: nat :: i in s <==> i < n
  {
    if n == 0 then {} else Below(n - 1) + {n - 1}
  }
}
