/** Counting: n distinct numbers below n are all the numbers below n. */
module Pigeonhole {

  ghost predicate Distinct<T>(s: seq<T>) {
    forall i, j :: 0 <= i < j < |s| ==> s[i] != s[j]
  }

  function Below(n: nat): (r: set<nat>)
    ensures |r| == n && forall i: nat {:trigger i in r} :: i in r <==> i < n
  {
    if n == 0 then {} else Below(n - 1) + {n - 1}
  }

  ghost function Elements<T(!new)>(s: seq<T>): (r: set<T>)
    ensures forall x :: x in r <==> x in s
  {
    set x | x in s
  }

  lemma {:induction false} DistinctCount<T(!new)>(s: seq<T>)
    requires Distinct(s)
    ensures |Elements(s)| == |s|
  {
    if s == [] {
      assert Elements(s) == {};
    } else {
      var last := s[|s| - 1];
      DistinctCount(s[..|s| - 1]);
      assert Elements(s) == Elements(s[..|s| - 1]) + {last};
    }
  }

  lemma {:induction false} SubsetCount<T>(a: set<T>, b: set<T>)
    requires a <= b
    ensures |a| <= |b|
  {
    if a != {} {
      var x :| x in a;
      SubsetCount(a - {x}, b - {x});
    }
  }

  lemma FullSubset<T>(a: set<T>, b: set<T>)
    requires a <= b && |a| == |b|
    ensures a == b
  {
    if x :| x in b && x !in a {
      SubsetCount(a, b - {x});
      assert false;
    }
  }

  /** n distinct numbers below n hit every number below n. */
  lemma Pigeons(s: seq<nat>, v: nat)
    requires Distinct(s) && (forall i :: 0 <= i < |s| ==> s[i] < |s|)
    requires v < |s|
    ensures v in s
  {
    DistinctCount(s);
    assert Elements(s) <= Below(|s|);
    FullSubset(Elements(s), Below(|s|));
  }
}
