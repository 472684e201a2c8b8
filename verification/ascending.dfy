/**
  Iteration in key order. The source keeps its numbers in ordered sets and maps
  and walks them from the smallest key up; here that order is a sequence.
 */
module Ascending {

  ghost predicate IsLeast(m: int, s: set<int>) {
    m in s && forall x :: x in s ==> m <= x
  }

  lemma HasElement(s: set<int>)
    ensures s == {} || exists x :: x in s
  {
    if forall x :: x !in s { assert s == {}; }
  }

  lemma HasFirst(q: seq<int>)
    ensures q == [] || q[0] in q
  {
  }

  lemma {:induction false} LeastExists(s: set<int>)
    requires s != {}
    ensures exists m :: IsLeast(m, s)
  {
    HasElement(s);
    var x :| x in s;
    if s - {x} == {} {
      assert s == {x};
      assert IsLeast(x, s);
    } else {
      LeastExists(s - {x});
      var m :| IsLeast(m, s - {x});
      assert s == (s - {x}) + {x};
      assert IsLeast(if x < m then x else m, s);
    }
  }

  /** The elements of `s` from the smallest up. */
  ghost function Sorted(s: set<int>): (q: seq<int>)
    ensures |q| == |s| && forall x :: x in q <==> x in s
    ensures IsSorted(q)
  {
    if s == {} then []
    else
      LeastExists(s);
      var m :| IsLeast(m, s);
      var rest := Sorted(s - {m});
      LeastFirst(m, s, rest);
      [m] + rest
  }

  lemma LeastFirst(m: int, s: set<int>, rest: seq<int>)
    requires IsLeast(m, s) && IsSorted(rest) && |rest| == |s - {m}| && forall x :: x in rest <==> x in s - {m}
    ensures |[m] + rest| == |s| && IsSorted([m] + rest) && forall x :: x in [m] + rest <==> x in s
  {
    assert s == (s - {m}) + {m};
    assert forall i :: 0 <= i < |rest| ==> rest[i] in rest;
  }

  predicate IsSorted(q: seq<int>) {
    forall i, j :: 0 <= i < j < |q| ==> q[i] < q[j]
  }

  /** There is only one ascending sequence of a set's elements. */
  lemma {:induction false} SortedUnique(p: seq<int>, q: seq<int>)
    requires IsSorted(p) && IsSorted(q)
    requires forall x :: x in p <==> x in q
    ensures p == q
  {
    if p == [] {
      HasFirst(q);
    } else {
      assert p[0] in q && q != [] && q[0] in p;
      assert p[0] == q[0];
      forall x ensures x in p[1..] <==> x in q[1..] {
        assert x in p <==> x == p[0] || x in p[1..];
        assert x in q <==> x == q[0] || x in q[1..];
        if x in p[1..] { assert x > p[0]; }
        if x in q[1..] { assert x > q[0]; }
      }
      SortedUnique(p[1..], q[1..]);
    }
  }

  lemma GreaterLast(q: seq<int>, m: int)
    requires IsSorted(q) && forall x :: x in q ==> x < m
    ensures IsSorted(q + [m])
  {
    assert forall i :: 0 <= i < |q| ==> q[i] in q;
  }

  method InOrder(s: set<int>) returns (q: seq<int>)
    ensures q == Sorted(s)
  {
    q := [];
    var left := s;
    while left != {}
      invariant left <= s
      invariant forall x :: x in q <==> x in s && x !in left
      invariant IsSorted(q)
      invariant forall x, y :: x in q && y in left ==> x < y
      decreases left
    {
      LeastExists(left);
      var m :| m in left && forall x :: x in left ==> m <= x;
      GreaterLast(q, m);
      q := q + [m];
      left := left - {m};
    }
    SortedUnique(q, Sorted(s));
  }

  /** A sequence without repetitions has as many elements as its set. */
  lemma {:induction false} DistinctCount(q: seq<int>)
    requires forall i, j :: 0 <= i < j < |q| ==> q[i] != q[j]
    ensures |set x | x in q| == |q|
  {
    if q != [] {
      var front, last := q[..|q| - 1], q[|q| - 1];
      DistinctCount(front);
      assert (set x | x in q) == (set x | x in front) + {last};
      assert last !in front;
    }
  }

  ghost function Below(n: nat): (s: set<int>)
    ensures |s| == n && forall x :: x in s <==> 0 <= x < n
  {
    if n == 0 then {} else Below(n - 1) + {n - 1}
  }

  /** `n` distinct numbers below `n` are all of them. */
  lemma BelowAll(s: set<int>, n: nat)
    requires |s| == n && forall x :: x in s ==> 0 <= x < n
    ensures s == Below(n)
  {
    SubsetFull(s, Below(n));
  }

  lemma {:induction false} SubsetFull(a: set<int>, b: set<int>)
    requires a <= b && |a| == |b|
    ensures a == b
  {
    if a != {} {
      HasElement(a);
      var x :| x in a;
      SubsetFull(a - {x}, b - {x});
    }
  }

  lemma {:induction false} SubsetCount(a: set<int>, b: set<int>)
    requires a <= b
    ensures |a| <= |b|
  {
    if a != {} {
      HasElement(a);
      var x :| x in a;
      SubsetCount(a - {x}, b - {x});
    }
  }

  lemma SortedBelow(n: nat)
    ensures Sorted(Below(n)) == seq(n, k => k)
  {
    var keys: seq<int> := seq(n, k => k);
    forall x
      ensures x in keys <==> x in Below(n)
    {
      if 0 <= x < n { assert keys[x] == x; }
    }
    SortedUnique(keys, Sorted(Below(n)));
  }
}
