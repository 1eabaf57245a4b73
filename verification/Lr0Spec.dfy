/** What the state table of lr0.c holds while it grows: kernels, hash chains, gotos. */
module Lr0Spec {
  import opened Grammars
  import opened Items
  import opened Pigeonhole
  import opened Automata
  import opened Closures

  /** The first state from i on whose kernel begins with `key`, or -1. */
  function NextWith(kernel: seq<seq<int>>, i: nat, key: int): int
    decreases |kernel| - i
  {
    if i >= |kernel| then -1
    else if |kernel[i]| > 0 && kernel[i][0] == key then i
    else NextWith(kernel, i + 1, key)
  }

  lemma {:induction false} NextWithMeans(kernel: seq<seq<int>>, i: nat, key: int)
    ensures var t := NextWith(kernel, i, key);
      && (t == -1 || (i <= t < |kernel| && |kernel[t]| > 0 && kernel[t][0] == key))
      && forall s :: i <= s < |kernel| && (t == -1 || s < t) && |kernel[s]| > 0 ==> kernel[s][0] != key
    decreases |kernel| - i
  {
    if i < |kernel| && !(|kernel[i]| > 0 && kernel[i][0] == key) { NextWithMeans(kernel, i + 1, key); }
  }

  lemma {:induction false} NextWithAppend(kernel: seq<seq<int>>, k: seq<int>, i: nat, key: int)
    requires i <= |kernel|
    ensures NextWith(kernel + [k], i, key) ==
      if NextWith(kernel, i, key) != -1 then NextWith(kernel, i, key)
      else if |k| > 0 && k[0] == key then |kernel| else -1
    decreases |kernel| - i
  {
    if i < |kernel| {
      NextWithAppend(kernel, k, i + 1, key);
    } else {
      assert (kernel + [k])[i] == k;
      assert NextWith(kernel + [k], i + 1, key) == -1;
    }
  }

  /** Hash chains: a head is the first state from 1 on with its key, a link the next one with the same key. */
  ghost predicate Chained(kernel: seq<seq<int>>, link: seq<int>, heads: seq<int>) {
    && |link| == |kernel|
    && (forall key :: 0 <= key < |heads| ==> heads[key] == NextWith(kernel, 1, key))
    && forall s: nat :: 1 <= s < |kernel| && |kernel[s]| > 0 ==> link[s] == NextWith(kernel, s + 1, kernel[s][0])
  }

  /** State t is in the chain of this key. */
  predicate HasKey(kernel: seq<seq<int>>, t: int, key: int) { 1 <= t < |kernel| && |kernel[t]| > 0 && kernel[t][0] == key }

  /** The kernel k is not among these states. */
  ghost predicate NoneIn(kernel: seq<seq<int>>, lo: nat, hi: nat, k: seq<int>) {
    forall t: nat :: lo <= t < hi && t < |kernel| ==> kernel[t] != k
  }

  lemma NoneJoin(kernel: seq<seq<int>>, sp: nat, hi: nat, k: seq<int>)
    requires NoneIn(kernel, 1, sp, k) && NoneIn(kernel, sp + 1, hi, k) && sp < |kernel| && kernel[sp] != k
    ensures NoneIn(kernel, 1, hi, k)
  {}

  /** Following a chain skips no state with its key. */
  lemma ChainStep(kernel: seq<seq<int>>, link: seq<int>, heads: seq<int>, sp: nat, k: seq<int>)
    requires Chained(kernel, link, heads) && |k| > 0 && HasKey(kernel, sp, k[0])
    ensures |link| == |kernel|
    ensures link[sp] == -1 ==> NoneIn(kernel, sp + 1, |kernel|, k)
    ensures link[sp] != -1 ==> sp < link[sp] < |kernel| && HasKey(kernel, link[sp], k[0]) && NoneIn(kernel, sp + 1, link[sp], k)
  {
    var key := kernel[sp][0];
    assert link[sp] == NextWith(kernel, sp + 1, key);
    hide Chained;
    NextWithMeans(kernel, sp + 1, key);
  }

  lemma ChainHead(kernel: seq<seq<int>>, link: seq<int>, heads: seq<int>, k: seq<int>)
    requires Chained(kernel, link, heads) && |k| > 0 && 0 <= k[0] < |heads|
    ensures heads[k[0]] == -1 ==> NoneIn(kernel, 1, |kernel|, k)
    ensures heads[k[0]] != -1 ==> HasKey(kernel, heads[k[0]], k[0]) && NoneIn(kernel, 1, heads[k[0]], k)
  {
    NextWithMeans(kernel, 1, k[0]);
  }

  lemma TableSizes(G: Grammar, kernel: seq<seq<int>>, acc: seq<nat>)
    requires Table(G, kernel, acc)
    ensures |kernel| == |acc| >= 1
  {}

  /** A new last state, linked from the old end of its chain `sp`, or from the table when there was no chain. */
  lemma ChainGrows(kernel: seq<seq<int>>, link: seq<int>, heads: seq<int>, k: seq<int>, sp: int, link': seq<int>, heads': seq<int>)
    requires Chained(kernel, link, heads) && |kernel| >= 1 && |k| > 0 && 0 <= k[0] < |heads|
    requires sp == -1 || (HasKey(kernel, sp, k[0]) && link[sp] == -1)
    requires sp == -1 ==> heads[k[0]] == -1
    requires link' == (if sp == -1 then link + [-1] else link[sp := |kernel|] + [-1])
    requires heads' == (if sp == -1 then heads[k[0] := |kernel|] else heads)
    ensures Chained(kernel + [k], link', heads')
  {
    var n := |kernel|;
    forall key | 0 <= key < |heads| ensures heads'[key] == NextWith(kernel + [k], 1, key) {
      NextWithAppend(kernel, k, 1, key);
      if sp != -1 && key == k[0] { NextWithMeans(kernel, 1, key); }
    }
    forall s: nat | 1 <= s < |kernel + [k]| && |(kernel + [k])[s]| > 0
      ensures link'[s] == NextWith(kernel + [k], s + 1, (kernel + [k])[s][0])
    {
      if s < n {
        NextWithAppend(kernel, k, s + 1, kernel[s][0]);
        if kernel[s][0] == k[0] && s != sp { LastInChain(kernel, link, heads, k[0], sp, s); }
      }
    }
  }

  /** Only the end of a chain has nothing after it. */
  lemma LastInChain(kernel: seq<seq<int>>, link: seq<int>, heads: seq<int>, key: int, sp: int, s: nat)
    requires Chained(kernel, link, heads) && 0 <= key < |heads|
    requires sp == -1 || (1 <= sp < |kernel| && |kernel[sp]| > 0 && kernel[sp][0] == key && link[sp] == -1)
    requires sp == -1 ==> heads[key] == -1
    requires 1 <= s < |kernel| && |kernel[s]| > 0 && kernel[s][0] == key && s != sp
    ensures sp != -1 && link[s] != -1
  {
    NextWithMeans(kernel, 1, key);
    NextWithMeans(kernel, s + 1, key);
    if sp != -1 { NextWithMeans(kernel, sp + 1, key); }
  }

  lemma SameLast(s: seq<int>, t: seq<int>)
    requires Increasing(s) && Increasing(t) && |s| > 0 && forall x :: x in s <==> x in t
    ensures |t| > 0 && s[|s| - 1] == t[|t| - 1]
  {
    assert s[0] in s;
    var x, y := s[|s| - 1], t[|t| - 1];
    LastIsLargest(s, y);
    LastIsLargest(t, x);
  }

  lemma FirstIn(s: seq<int>)
    ensures |s| > 0 ==> s[0] in s
  {}

  lemma LastIsLargest(s: seq<int>, y: int)
    requires Increasing(s) && |s| > 0
    ensures s[|s| - 1] in s && (y in s ==> y <= s[|s| - 1])
  {}

  lemma WithoutLast(s: seq<int>, z: int)
    requires Increasing(s) && |s| > 0
    ensures Increasing(s[..|s| - 1]) && (z in s[..|s| - 1] <==> z in s && z != s[|s| - 1])
  {
    assert s == s[..|s| - 1] + [s[|s| - 1]];
  }

  /** Sorted lists are equal when their elements are. */
  lemma {:induction false} SortedUnique(s: seq<int>, t: seq<int>)
    requires Increasing(s) && Increasing(t) && forall x :: x in s <==> x in t
    ensures s == t
    decreases |s|
  {
    if |s| == 0 {
      FirstIn(t);
    } else {
      SameLast(s, t);
      var s', t' := s[..|s| - 1], t[..|t| - 1];
      forall z ensures z in s' <==> z in t' {
        WithoutLast(s, z);
        WithoutLast(t, z);
      }
      WithoutLast(s, 0);
      WithoutLast(t, 0);
      hide Increasing;
      SortedUnique(s', t');
      assert s == s' + [s[|s| - 1]] && t == t' + [t[|t| - 1]];
    }
  }

  /** The state table: kernels are sorted, different from each other, and entered by one symbol. */
  ghost predicate Table(G: Grammar, kernel: seq<seq<int>>, acc: seq<nat>)
  {
    && WellFormed(G) && |kernel| == |acc| >= 1 && kernel[0] == [1] && acc[0] == 0
    && (forall t :: 0 <= t < |kernel| ==> Nucleus(G, kernel[t]))
    && (forall t :: 1 <= t < |kernel| ==> EnteredBy(G, kernel[t], acc[t]))
    && (forall s, t :: 0 <= s < t < |kernel| ==> kernel[s] != kernel[t])
  }

  /** All items of a kernel have the dot right after the same symbol, which is not the end marker. */
  ghost predicate EnteredBy(G: Grammar, k: seq<int>, x: int) {
    |k| > 0 && x > 0 && forall i :: 0 <= i < |k| ==> IsItem(G, k[i]) && IsItem(G, k[i] - 1) && G.ritem[k[i] - 1] == x
  }

  lemma TableGrows(G: Grammar, kernel: seq<seq<int>>, acc: seq<nat>, k: seq<int>, x: nat)
    requires Table(G, kernel, acc) && Nucleus(G, k) && EnteredBy(G, k, x) && NoneIn(kernel, 1, |kernel|, k)
    ensures Table(G, kernel + [k], acc + [x])
  {
    assert IsItem(G, k[0] - 1);
  }

  /** The symbol of an existing kernel is fixed by the kernel. */
  lemma SameSymbol(G: Grammar, kernel: seq<seq<int>>, acc: seq<nat>, t: nat, x: int)
    requires Table(G, kernel, acc) && 1 <= t < |kernel| && EnteredBy(G, kernel[t], x)
    ensures acc[t] == x
  {
    assert EnteredBy(G, kernel[t], acc[t]);
    assert G.ritem[kernel[t][0] - 1] == x;
  }

  // ----- Termination: there are only so many kernels -----

  ghost function ItemSet(G: Grammar): set<int> { Below(|G.ritem|) }

  ghost function AllKernels(G: Grammar): set<set<int>> { set K: set<int> | K <= ItemSet(G) }

  ghost function Seen(kernel: seq<seq<int>>): set<set<int>> { set t | 0 <= t < |kernel| :: Elems(kernel[t]) }

  ghost function Unseen(G: Grammar, kernel: seq<seq<int>>): nat { |AllKernels(G) - Seen(kernel)| }

  lemma UnseenFalls(G: Grammar, kernel: seq<seq<int>>, acc: seq<nat>, k: seq<int>)
    requires Table(G, kernel, acc) && Nucleus(G, k) && NoneIn(kernel, 0, |kernel|, k)
    ensures Unseen(G, kernel + [k]) < Unseen(G, kernel)
  {
    var K := Elems(k);
    assert K <= ItemSet(G);
    assert K in AllKernels(G);
    if K in Seen(kernel) {
      var t :| 0 <= t < |kernel| && Elems(kernel[t]) == K;
      forall x ensures x in kernel[t] <==> x in k { assert x in Elems(kernel[t]) <==> x in K; }
      SortedUnique(kernel[t], k);
    }
    assert K !in Seen(kernel);
    forall t | 0 <= t < |kernel| ensures Elems((kernel + [k])[t]) == Elems(kernel[t]) {}
    assert (kernel + [k])[|kernel|] == k;
    assert Seen(kernel + [k]) == Seen(kernel) + {K};
    assert AllKernels(G) - Seen(kernel + [k]) == (AllKernels(G) - Seen(kernel)) - {K};
  }

  /** The items of a table as an automaton. */
  lemma TableItems(G: Grammar, A: Automaton)
    requires Table(G, A.kernel, A.acc) && |A.shifts| == |A.reds| == |A.kernel|
    ensures KernelsOk(G, A) && forall s :: 0 <= s < A.NStates() ==> Kernel(A, s) == Elems(A.kernel[s])
  {
    forall s | 0 <= s < A.NStates() ensures AreItems(G, Kernel(A, s)) && Kernel(A, s) == Elems(A.kernel[s]) {
      assert Nucleus(G, A.kernel[s]);
    }
  }

  /** An item with a symbol after the dot has a successor. */
  lemma NextItem(G: Grammar, i: int)
    requires WellFormed(G) && IsItem(G, i) && G.ritem[i] >= 0
    ensures IsItem(G, i + 1)
  {
    var r := FindRule(G, i, |G.rlhs|);
    EndOfRule(G, i, r);
    assert RuleOk(G, r);
  }

  /** The completed rules of each state are listed in their order. */
  ghost predicate RedsOrdered(A: Automaton) { forall s: nat :: s < |A.reds| ==> Increasing(A.reds[s]) }
}
