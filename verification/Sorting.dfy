/** The in-place insertion sort that orders shift symbols (lr0.c, append_states). */
module Sorting {
  import opened Pigeonhole

  ghost predicate Sorted(s: seq<nat>) { forall i, j :: 0 <= i < j < |s| ==> s[i] <= s[j] }

  ghost predicate StrictlySorted(s: seq<nat>) { forall i, j :: 0 <= i < j < |s| ==> s[i] < s[j] }

  /** Element i has been taken out and put back at j, those between moving up by one. */
  ghost predicate Rotated(was: seq<nat>, s: seq<nat>, j: nat, i: nat) {
    && j <= i < |was| == |s| && s[j] == was[i]
    && (forall p: nat :: p < j || i < p < |s| ==> s[p] == was[p])
    && (forall p: nat :: j <= p < i ==> s[p + 1] == was[p])
  }

  lemma RotatedBag(was: seq<nat>, s: seq<nat>, j: nat, i: nat)
    requires Rotated(was, s, j, i)
    ensures multiset(s) == multiset(was)
  {
    assert s == was[..j] + [was[i]] + was[j..i] + was[i + 1..];
    assert was == was[..j] + was[j..i] + [was[i]] + was[i + 1..];
    hide *;
    FourBags(was[..j], [was[i]], was[j..i], was[i + 1..]);
  }

  lemma FourBags(a: seq<nat>, b: seq<nat>, c: seq<nat>, d: seq<nat>)
    ensures multiset(a + b + c + d) == multiset(a + c + b + d)
  {}

  lemma RotatedSorted(was: seq<nat>, s: seq<nat>, j: nat, i: nat)
    requires Rotated(was, s, j, i) && Sorted(was[..i])
    requires (j > 0 ==> was[j - 1] <= was[i]) && forall p: nat :: j <= p < i ==> was[i] < was[p]
    ensures Sorted(s[..i + 1])
  {
    forall p, q | 0 <= p < q < i ensures was[p] <= was[q] {
      assert was[..i][p] <= was[..i][q];
    }
    forall p, q | 0 <= p < q <= i ensures s[p] <= s[q] {
      if q == j {
        assert was[p] <= was[j - 1];
      } else if q > j {
        assert s[q - 1 + 1] == was[q - 1];
        if p > j { assert s[p - 1 + 1] == was[p - 1]; }
      }
    }
  }

  /** The inner loop: entry i is put in its place among the sorted ones before it. */
  method Insert(a: array<nat>, i: nat)
    requires 0 < i < a.Length && Sorted(a[..i])
    modifies a
    ensures multiset(a[..]) == multiset(old(a[..])) && forall p :: i < p < a.Length ==> a[p] == old(a[p])
    ensures Sorted(a[..i + 1])
  {
    hide Sorted;
    var symbol := a[i];
    ghost var was := a[..];
    var j := i;
    while j > 0 && a[j - 1] > symbol
      invariant 0 <= j <= i
      invariant forall p: nat :: p < j || i < p < a.Length ==> a[p] == was[p]
      invariant forall p: nat :: j <= p < i ==> a[p + 1] == was[p] && symbol < was[p]
    {
      a[j] := a[j - 1];
      j := j - 1;
    }
    a[j] := symbol;
    RotatedBag(was, a[..], j, i);
    RotatedSorted(was, a[..], j, i);
    assert was[..i] == old(a[..i]) && a[..][..i + 1] == a[..i + 1];
  }

  /** The first n entries are sorted, the rest is untouched. */
  method InsertionSort(a: array<nat>, n: nat)
    requires n <= a.Length
    modifies a
    ensures multiset(a[..]) == multiset(old(a[..])) && a[n..] == old(a[n..]) && Sorted(a[..n])
  {
    var i := 1;
    while i < n
      invariant 1 <= i && (n > 0 ==> i <= n) && multiset(a[..]) == multiset(old(a[..]))
      invariant forall p :: n <= p < a.Length ==> a[p] == old(a[p])
      invariant n > 0 ==> Sorted(a[..i])
    {
      Insert(a, i);
      i := i + 1;
    }
  }

  lemma TwiceCounted(s: seq<nat>, p: nat, q: nat)
    requires p < q < |s| && s[p] == s[q]
    ensures multiset(s)[s[p]] >= 2
  {
    assert s == s[..q] + s[q..];
    assert s[..q][p] == s[p] && s[q..][0] == s[q];
  }

  lemma {:induction false} DistinctCounts(s: seq<nat>, x: nat)
    requires Distinct(s)
    ensures multiset(s)[x] <= 1
    decreases |s|
  {
    if |s| > 0 {
      var t, y := s[..|s| - 1], s[|s| - 1];
      assert s == t + [y];
      DistinctCounts(t, x);
      assert y !in t;
    }
  }

  /** Without duplicates, sorting makes the order strict; the elements are the same. */
  lemma SortedDistinct(s: seq<nat>, t: seq<nat>)
    requires multiset(s) == multiset(t) && Distinct(s) && Sorted(t)
    ensures StrictlySorted(t) && |s| == |t| && forall x :: x in s <==> x in t
  {
    forall i: nat, j: nat | i < j < |t| ensures t[i] != t[j] {
      if t[i] == t[j] {
        TwiceCounted(t, i, j);
        DistinctCounts(s, t[i]);
      }
    }
    assert |multiset(s)| == |s| && |multiset(t)| == |t|;
    forall x ensures x in s <==> x in t {
      assert x in s <==> x in multiset(s);
      assert x in t <==> x in multiset(t);
    }
  }
}
