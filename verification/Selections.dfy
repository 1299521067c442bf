/** Picking out the elements of a sequence that pass a test, in order. */
module Selections {
  /** idx lists, in increasing order, exactly the positions below n whose element passes. */
  ghost predicate IsSelection<A(!new)>(source: seq<A>, n: nat, keep: A -> bool, idx: seq<nat>)
    requires n <= |source|
  {
    && (forall j | 0 <= j < |idx| :: idx[j] < n && keep(source[idx[j]]))
    && (forall i, j | 0 <= i < j < |idx| :: idx[i] < idx[j])
    && (forall i: nat | i < n && keep(source[i]) :: i in idx)
  }

  function Positions<A>(source: seq<A>, n: nat, keep: A -> bool): (idx: seq<nat>)
    requires n <= |source|
    ensures forall i | i in idx :: i < n
  {
    if n == 0 then []
    else Positions(source, n - 1, keep) + if keep(source[n - 1]) then [n - 1] else []
  }

  lemma {:induction false} SelectionExact<A(!new)>(source: seq<A>, n: nat, keep: A -> bool)
    requires n <= |source|
    ensures IsSelection(source, n, keep, Positions(source, n, keep))
  {
    if n > 0 {
      SelectionExact(source, n - 1, keep);
      var idx, more := Positions(source, n - 1, keep), Positions(source, n, keep);
      forall i: nat | i < n && keep(source[i])
        ensures i in more
      {
        if i == n - 1 {
          assert more[|idx|] == i;
        } else {
          assert i in idx;
        }
      }
    }
  }
}
