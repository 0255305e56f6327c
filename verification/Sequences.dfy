/** Sequences without repetitions, and how long they can be. */
module Sequences {
  ghost predicate Distinct<T(!new)>(q: seq<T>) {
    forall i, j :: 0 <= i < j < |q| ==> q[i] != q[j]
  }

  ghost function Elements<T(!new)>(q: seq<T>): set<T> { set x | x in q }

  lemma {:induction false} DistinctCardinality<T(!new)>(q: seq<T>)
    requires Distinct(q)
    ensures |Elements(q)| == |q|
  {
    if q != [] {
      var r := q[..|q| - 1];
      DistinctCardinality(r);
      assert q == r + [q[|q| - 1]];
      assert Elements(q) == Elements(r) + {q[|q| - 1]};
    }
  }

  /** The numbers 0 to m - 1. */
  ghost function Below(m: nat): (r: set<int>)
    ensures forall i :: i in r <==> 0 <= i < m
    ensures |r| == m
  {
    if m == 0 then {} else Below(m - 1) + {m - 1}
  }

  lemma {:induction false} SubsetCardinality<T(!new)>(a: set<T>, b: set<T>)
    requires a <= b
    ensures |a| <= |b|
  {
    if a != {} {
      var x :| x in a;
      SubsetCardinality(a - {x}, b - {x});
    }
  }

  /** Distinct numbers below m are at most m many. */
  lemma Pigeonhole(q: seq<int>, m: nat)
    requires Distinct(q)
    requires forall i :: 0 <= i < |q| ==> 0 <= q[i] < m
    ensures |q| <= m
  {
    DistinctCardinality(q);
    assert Elements(q) <= Below(m);
    SubsetCardinality(Elements(q), Below(m));
  }
}
