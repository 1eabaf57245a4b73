/** Counting facts about finite sets and duplicate-free sequences. */
module Pigeonhole {

  predicate Distinct<T(==)>(s: seq<T>) {
    forall p, q :: 0 <= p < q < |s| ==> s[p] != s[q]
  }

  ghost function Below(n: nat): (r: set<int>)
    ensures |r| == n
    ensures forall x :: x in r <==> 0 <= x < n
  {
    if n == 0 then {} else Below(n - 1) + {n - 1}
  }

  ghost function Elements<T(!new)>(s: seq<T>): (r: set<T>)
    ensures forall x :: x in r <==> x in s
    ensures |r| <= |s| && (Distinct(s) ==> |r| == |s|)
  {
    if |s| == 0 then {} else
      var t := s[..|s| - 1];
      assert s == t + [s[|s| - 1]];
      Elements(t) + {s[|s| - 1]}
  }

  lemma SubsetSize<T>(a: set<T>, b: set<T>)
    requires a <= b
    ensures |a| <= |b|
  {
    if a != {} {
      var x :| x in a;
      SubsetSize(a - {x}, b - {x});
    }
  }

  /** A duplicate-free sequence of numbers below `n` has at most `n` entries. */
  lemma DistinctBound(s: seq<int>, n: nat)
    requires Distinct(s) && forall p :: 0 <= p < |s| ==> 0 <= s[p] < n
    ensures |s| <= n
  {
    assert Elements(s) <= Below(n);
    SubsetSize(Elements(s), Below(n));
  }

  /** A duplicate-free sequence of entries of another one is no longer. */
  lemma DistinctAmong(s: seq<int>, t: seq<int>)
    requires Distinct(s) && forall p :: 0 <= p < |s| ==> s[p] in t
    ensures |s| <= |t|
  {
    assert Elements(s) <= Elements(t);
    SubsetSize(Elements(s), Elements(t));
  }

  /** A sequence cannot contain all of more numbers than it has entries. */
  lemma {:induction false} Gap(lo: int, s: seq<int>) returns (j: int)
    ensures lo <= j <= lo + |s| && j !in s
    decreases |s|
  {
    if lo !in s { return lo; }
    var q :| 0 <= q < |s| && s[q] == lo;
    var t := s[..q] + s[q + 1..];
    forall m | 0 <= m < |s| && m != q ensures s[m] in t {
      assert t[if m < q then m else m - 1] == s[m];
    }
    j := Gap(lo + 1, t);
  }
}
